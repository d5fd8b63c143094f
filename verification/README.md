# TermDesk, modelled and proved

TermDesk is a desktop client for SSH, SFTP, VNC and RDP. This project models its self-contained
algorithms and protocols in Dafny and proves what they promise, or, where the code does not keep a
promise, exactly when it does. `dafny verify dfyconfig.toml` checks the whole project.

| module | models |
|---|---|
| `SyncProtocol` | revision metadata, the three-way conflict decision, and any number of devices around one remote object |
| `GroupsRepo`, `GroupTree` | the groups table under create, update and delete; the sidebar tree, the descendant search and the ancestor walk over it |
| `HostInheritance` | what a host inherits from the groups above it |
| `TransferQueue`, `TransferRun` | the transfer scheduler under every interleaving; one transfer's temp-then-promote write protocol |
| `Der`, `RdCleanPath`, `Framing` | DER lengths, triples and integers; the RDCleanPath messages and their parser; extracting a framed message from a cut-up stream |
| `Socks` | the SOCKS5 parsers and the handshake of a dynamic forward |
| `SshConfig`, `SshConfigWriting`, `SshInclude` | the ssh_config parser and alias resolver; a writer it undoes; the recursive `Include` splicer |
| `AiHarnesses` | the command lines for AI harnesses, and a POSIX shell's reading of them |
| `Completion` | history ranking |
| `Template`, `TemplatePromise`, `TemplateWriting` | prompt templates; what rendering promises and when it is kept; a writer that the scanner and the renderer undo |
| `Schedule` | cron fields, next run times and the scheduler's tick |
| `FanOut` | the bounded concurrent map and the automation run |
| `Unicode` | decoding and encoding UTF-8, and UTF-16 code units, as the string operations above have them |
| `Chains`, `Sorting`, `Text`, `Wrappers` | parent links, sorting and duplicates, strings, `Option`: shared mathematics |

Where the source updates state step by step, so does the model: each class method or loop is proved
equal to a specification function (`GroupsRepo.AfterUpdate`, `TransferQueue.Pump`, `Der.ReadLength`,
`SshInclude.Expand` and so on), and what the source promises is proved about those functions. Protocols
with several actors (devices, transfers, workers) are state machines whose steps are the code's atomic
sections, and their theorems quantify over every legal sequence of steps.

## What is proved

- **Sync.** In every run, with storage rolled back or corrupted at any moment, a push overwrites exactly
  the version its own content descends from, and a pull replaces only a copy that was itself pushed. The
  invariant that carries this is that a revision and a device id name one pushed version. With storage
  that is never rolled back, no pushed edit ever leaves the remote. A run shows what a bare-number
  baseline would lose.
- **Groups.** Every history of operations keeps a forest. The upward guard and the downward search agree
  on every listing, malformed ones included. The flattened tree lists a group once, at its depth and
  after its parent, exactly when its chain of parents ends, and so lists every group of a forest.
  Inheritance takes the nearest setting, and composes: near groups first and then far ones give the
  same as all at once.
- **Transfers.** The slot counter counts the unreleased runs, never exceeds two, and no record is
  stranded except by an upload walk that has not reached its pump. A retry keeps two runs of one record
  apart exactly when the earlier run has released its slot. No failure or cancellation leaves partial
  content at the destination of a transfer of known size, given a sink that writes all it accepts: it
  holds its old bytes or the source's or, when an upload's fallback is interrupted, nothing.
- **Codecs.** Lengths round-trip exactly below 2^31, minimally; the completeness test and the reader
  agree on every buffer; the RDCleanPath parser ends exactly when no offset repeats; framing is
  independent of fragmentation, for DER exactly unless a wrapped length cuts into the payload. A SOCKS5
  client is forwarded to its host and port exactly if its first reply divides what it sends.
- **ssh_config.** The two-level first-wins resolver equals the flat rule; hosts written as a file are
  parsed back exactly; the include splicer is bounded on every file graph, and is the plain splice for
  every file graph within its limits, which are exactly those on which no guard fires.
- **Shell.** A shell reads the composed line back as the words and the prompt, whatever the prompt is;
  the line equals the headless argument vector exactly when the harness has no output arguments; a
  here-document gives back the prompt.
- **Ranking, templates, schedules, fan-out.** The blended score is the lexicographic order; templates
  render as promised under exact conditions on escapes, values and what follows an escape; the next run is the least
  one; the concurrent map claims each index once and finishes with every value exactly when it has a worker.

## Where the code and its description differ

The code is modelled as it is. Each difference comes with a failing input, proved to fail, and with the
exact condition under which the code does what is said of it.

- `src/main/sftp/transfer-manager.ts:325-327` says the integrity guard catches a write the sink swallowed.
  It counts bytes read from the source, so it does not (`TransferRun.SwallowedWriteIsPromoted`); the
  condition is `TransferRun.GuardIsExactIffFlushed`.
- `src/shared/template.ts:17-18` and `:113-125` promise that `\{{` is a literal `{{`, never the start of a
  placeholder, and that values are inserted literally (`TemplatePromise.Promised`). It fails in two ways.
  In `\{{{x}}` the scan starts a placeholder at the escape's second brace
  (`TemplatePromise.EscapedPlaceholderFails`), and a value's own `\{{` loses its backslash
  (`TemplatePromise.EscapeInValueIsLost`). The scanner finds what is meant exactly when no escape's second
  brace begins a placeholder (`ReadAsMeantIff`). Then the promise is kept exactly when every `\{{` of the
  substituted text lies in the template's own text (`KeptIffEscapesAreOwn`); and for placeholders that all
  have a name and show some text without `\` and `{`, it is kept exactly when no escape's second brace
  begins one (`KeptIffNoOverlap`).
- `src/main/ssh/tunnel-manager.ts:158` discards what follows the greeting in the same chunk, so a client
  that does not wait can go unanswered (`Socks.PipelinedRequestIsLost`). It is forwarded to its host and
  port exactly if some chunk ends where the greeting does (`Socks.ForwardedIffAligned`).
- `src/main/rdp/rdcleanpath.ts:60` shifts 32-bit signed integers: a declared length of 2^31 or more
  decodes as negative (`Der.LengthRoundTripIff`). It can make the request parser loop for ever
  (`RdCleanPath.LoopingMessageHasNoParse`; the condition is `RdCleanPath.TerminatesIffNoOffsetTwice`, in a
  form to compute `RdCleanPath.TerminatesIffWithinLength`) and the extracted request depend on
  fragmentation (`Framing.CutsMatter`, and to the point of failing the connection `Framing.CutsDecide`;
  the condition is `Framing.DerChunkingIrrelevantIff`).
- `src/main/rdp/rdp-proxy.ts:324-349` starts a server handshake for every message received once the
  request is complete (`Framing.ExtraMessageStartsTwice`): just one exactly if the completing message is
  the last (`Framing.OneHandshakeIff`).
- `src/main/sftp/transfer-manager.ts:210-220` lets a retry start a second run of a record whose cancelled
  run has not settled (`TransferQueue.EarlyRetryRunsTwice`, with `TransferQueue.EarlyRetryIsMisreported` for what
  comes of it; the condition is `TransferQueue.RetrySafeIff`).
  Lines 62-91 strand what a walk enqueued if it throws (`TransferQueue.FailedWalkStrands`); by
  `TransferQueue.NothingIsStranded` a walk that has not reached its pump is the only way to strand a record.
- `src/main/ssh/ssh-config-include.ts:54` names a limit in bytes, and lines 158 and 163 compare and add
  string lengths, so a file of twice the limit is accepted (`SshInclude.LimitIsNotInBytes`); it counts
  bytes exactly for ASCII text (`SshInclude.LimitIsInBytesIff`).

`FanOut.CompletedIsMapIff` also says what `src/main/mcp/tools.ts:42` does for a limit below one. Its only
caller, at line 295, passes a constant of eight.

## Model

| member | source | states |
|---|---|---|
| SyncProtocol.NoLostUpdate | src/shared/sync-contract.ts:115-171 | in every run a push overwrites exactly the version last synced with, and extends its history |
| SyncProtocol.PullDiscardsNothing | src/shared/sync-contract.ts:119-122 | in every run the copy a pull replaces, and the one it installs, were pushed: no unsynced edit is discarded |
| SyncProtocol.NameIsUnique | src/shared/sync-contract.ts:98-111 | a revision and device id name at most one pushed version, so the baseline identifies a lineage |
| SyncProtocol.DecisionIsExact | src/shared/sync-contract.ts:134-171 | the decision, which sees only numbers and ids, is right about the versions themselves: push, pull and nothing exactly when that is so |
| SyncProtocol.NoEditVanishes | src/shared/sync-contract.ts:119-129 | every edit ever made is in some device's copy or in a pushed version |
| SyncProtocol.RemoteKeepsEveryPush | src/shared/sync-contract.ts:119-122 | with storage never rolled back, every pushed history stays a prefix of the remote's |
| SyncProtocol.PullFastForwards | src/shared/sync-contract.ts:121-121 | with storage never rolled back a pull, even from a stale read, strictly extends the local history |
| SyncProtocol.InvStep | src/shared/sync-contract.ts:49-60 | every edit, read, push, pull, rollback and corruption keeps the invariant of the run |
| SyncProtocol.InvHolds | src/shared/sync-contract.ts:49-171 | the invariant holds after every legal sequence of steps |
| SyncProtocol.PushEnabledFacts | src/shared/sync-contract.ts:149-152 | when a push is decided, the remote is the synced version and the local content strictly extends it |
| SyncProtocol.NumberBaselineDiffersIff | src/shared/sync-contract.ts:131-148 | a bare-number baseline decides differently exactly on a same-revision replacement |
| SyncProtocol.NumberBaselineLosesUpdate | src/shared/sync-contract.ts:131-132 | a reachable run in which a bare number would push over content the pusher never had |
| GroupsRepo.Repo.WouldCycle | src/main/store/groups-repo.ts:37-56 | true exactly when the proposed parent reaches the group by parent links, on any table; it always ends |
| GroupsRepo.Repo.CreateGroup | src/main/store/groups-repo.ts:58-73 | the new table and result: a missing parent is refused and changes nothing |
| GroupsRepo.Repo.UpdateGroup | src/main/store/groups-repo.ts:75-98 | the new table and result: unknown group, nesting and dangling parent are refused and change nothing |
| GroupsRepo.Repo.DeleteGroup | src/main/store/groups-repo.ts:100-104 | the row goes and its children become top-level |
| GroupsRepo.EveryTableIsForest | src/main/store/groups-repo.ts:58-104 | every sequence of operations from the empty table keeps parents existing and acyclic |
| GroupsRepo.OpKeepsForest | src/main/store/groups-repo.ts:58-104 | each operation alone does |
| GroupsRepo.UpdateRefusedIffCyclic | src/main/store/groups-repo.ts:80-83 | an update is refused as nested exactly when storing it would close a cycle |
| GroupTree.DescendantIds | src/renderer/lib/group-tree.ts:69-91 | exactly the ids from which the given id is reached by parent links, on any listing; it always ends |
| GroupTree.Search | src/renderer/lib/group-tree.ts:78-90 | the stack search returns the least set closed under children |
| GroupTree.GuardsAgree | src/renderer/lib/group-tree.ts:69-91 | the upward walk refuses a parent exactly when the downward search lists it |
| GroupTree.TreeNestsLevels | src/renderer/lib/group-tree.ts:22-37 | the built tree is the sorted top level with, under every node, the sorted level of its children, one deeper |
| GroupTree.FlattenGroupTree | src/renderer/lib/group-tree.ts:40-50 | the accumulating walk gives the flattened tree |
| GroupTree.FlatListsRootedOnce | src/renderer/lib/group-tree.ts:22-50 | a group is listed at a depth exactly when its chain of parents ends after that many links, and never twice |
| GroupTree.FlatShowsTree | src/renderer/lib/group-tree.ts:39-50 | each nested entry follows its parent, the nearest earlier entry that is less deep |
| GroupTree.FlatListsEveryGroup | src/renderer/lib/group-tree.ts:22-50 | no group of a table kept by the repository is lost |
| GroupTree.OrderedAncestorIds | src/shared/host-inheritance.ts:125-140 | the distinct chain of existing ancestors, nearest first, until it ends or repeats |
| GroupTree.AncestorCountIsDepth | src/shared/host-inheritance.ts:125-140 | for a listed group that chain is one longer than its depth in the tree |
| HostInheritance.ResolveInheritedHost | src/shared/host-inheritance.ts:72-118 | the loops give each field's nearest value and source, and the tags in order |
| HostInheritance.SourceIsNearest | src/shared/host-inheritance.ts:16-17 | a field comes from a group exactly when the host does not set it and that group is the nearest that does |
| HostInheritance.TagsAreUnion | src/shared/host-inheritance.ts:17-20 | tags are the union of the host's and all ancestors', each once |
| HostInheritance.InheritanceComposes | src/shared/host-inheritance.ts:68-118 | resolving against near groups and the outcome against far ones equals resolving against all |
| Chains.RelinkAcyclicIff | src/main/store/groups-repo.ts:32-36 | giving a node a new parent keeps acyclicity exactly when the parent does not reach the node |
| Chains.EndsIffNoRepeat | src/main/rdp/rdcleanpath.ts:151-178 | following links ends exactly when no place is met twice |
| TransferQueue.TransferManager.StartNext | src/main/sftp/transfer-manager.ts:243-251 | starts the oldest queued record if a slot is free, and at most one |
| TransferQueue.TransferManager.Enqueue | src/main/sftp/transfer-manager.ts:167-195 | adds one queued record at the end |
| TransferQueue.TransferManager.CancelOne | src/main/sftp/transfer-manager.ts:197-208 | cancels an owned live record and nothing else |
| TransferQueue.TransferManager.RetryOne | src/main/sftp/transfer-manager.ts:210-220 | requeues an owned failed or cancelled record and pumps |
| TransferQueue.TransferManager.CancelMany | src/main/sftp/transfer-manager.ts:222-241 | cancels the live records of one owner, or all |
| TransferQueue.TransferManager.OnSettled | src/main/sftp/transfer-manager.ts:252-261 | records the outcome only if the record is still active |
| TransferQueue.TransferManager.OnFinally | src/main/sftp/transfer-manager.ts:262-267 | releases the slot and pumps |
| TransferQueue.InvStep | src/main/sftp/transfer-manager.ts:167-268 | every event keeps the queue's invariant |
| TransferQueue.SlotsAreCounted | src/main/sftp/transfer-manager.ts:243-268 | in every interleaving the counter is the number of unreleased runs, at most two, and bounds the active records |
| TransferQueue.NothingIsStranded | src/main/sftp/transfer-manager.ts:243-268 | a waiting record means a run holds a slot, unless an upload walk has yet to pump |
| TransferQueue.QuietMeansFinished | src/main/sftp/transfer-manager.ts:262-267 | once every run has ended no record is queued or active, with the same exception |
| TransferQueue.FailedWalkStrands | src/main/sftp/transfer-manager.ts:62-91 | the exception is real |
| TransferQueue.StatusMoves | src/main/sftp/transfer-manager.ts:197-268 | the only ways any event changes a record: a start, the owner's cancel or retry, its own run's outcome |
| TransferQueue.FinishedStays | src/main/sftp/transfer-manager.ts:252-261 | through any events done stays done, and failed or cancelled stays so until retried |
| TransferQueue.StartsAreInOrder | src/main/sftp/transfer-manager.ts:243-251 | a started record was the oldest queued one |
| TransferQueue.RetrySafeIff | src/main/sftp/transfer-manager.ts:210-220 | a retry keeps runs of one record apart exactly when its last run has released its slot |
| TransferQueue.EarlyRetryRunsTwice | src/main/sftp/transfer-manager.ts:210-220 | enqueue, cancel and retry at once: two runs of one record |
| TransferQueue.EarlyRetryIsMisreported | src/main/sftp/transfer-manager.ts:252-261 | when the cancelled run then settles, the retried record has failed while its own run goes on |
| TransferQueue.OthersKeepSole | src/main/sftp/transfer-manager.ts:167-268 | every other event keeps them apart |
| TransferQueue.PatientCallersStaySole | src/main/sftp/transfer-manager.ts:210-220 | callers that retry only released records never have two runs of one record |
| TransferQueue.OutcomeIsOwn | src/main/sftp/transfer-manager.ts:252-261 | with runs apart, a record's outcome is that of its own current run |
| TransferRun.TempIsNotDest | src/main/sftp/transfer-manager.ts:396-406 | the temp path is never the destination |
| TransferRun.TempIsPerTransfer | src/main/sftp/transfer-manager.ts:396-406 | transfers share a temp path only with the same destination and id prefix |
| TransferRun.NeverPartial | src/main/sftp/transfer-manager.ts:270-349 | at every step the destination is the old file, the complete source, or for an upload absent; no other file changes |
| TransferRun.SuccessMeansComplete | src/main/sftp/transfer-manager.ts:325-339 | a successful run leaves the complete source at the destination and no temp file |
| TransferRun.UnknownSizeMayBePartial | src/main/sftp/transfer-manager.ts:325-339 | with the size unknown a success leaves what was read of the source, all of it exactly if it was all read |
| TransferRun.GuardIsExactIffFlushed | src/main/sftp/transfer-manager.ts:325-332 | what a success promotes is complete, and of the expected size, exactly when the sink wrote everything it was given |
| TransferRun.SwallowedWriteIsPromoted | src/main/sftp/transfer-manager.ts:325-339 | a run in which a swallowed write is promoted |
| TransferRun.InvRun | src/main/sftp/transfer-manager.ts:297-348 | the protocol's invariant after every legal sequence of steps |
| TransferRun.InvStep | src/main/sftp/transfer-manager.ts:427-434 | each step keeps it, the unlink-then-rename fallback included |
| Der.EncodeLengthLoop | src/main/rdp/rdcleanpath.ts:38-47 | the shifting loop gives the length encoding, and always ends |
| Der.ReadLengthLoop | src/main/rdp/rdcleanpath.ts:50-63 | the accumulating loop gives the decoded length or its error |
| Der.DecodedIsWrapped | src/main/rdp/rdcleanpath.ts:57-61 | the decoded value is the declared big-endian number wrapped to 32 bits |
| Der.LengthRoundTripIff | src/main/rdp/rdcleanpath.ts:38-63 | decoding undoes encoding, anywhere in a buffer, exactly for lengths below 2^31 |
| Der.EncodedLengthIsMinimal | src/main/rdp/rdcleanpath.ts:38-47 | no encoding the decoder accepts for a length is shorter |
| Der.TlvRoundTrip | src/main/rdp/rdcleanpath.ts:65-102 | reading undoes encoding of a triple, anywhere in a buffer |
| Der.ValueLengthAgrees | src/main/rdp/rdcleanpath.ts:109-128 | the completeness test gives a total exactly when the reader ends the value there |
| Der.StrictPrefixIsIncomplete | src/main/rdp/rdcleanpath.ts:109-128 | every strict prefix of a value is incomplete, not an error |
| Der.ValueLengthStable | src/main/rdp/rdcleanpath.ts:109-128 | more bytes change neither a complete answer nor an error |
| Der.DerValueLengthLoop | src/main/rdp/rdcleanpath.ts:109-128 | the loop gives the value's total length, incomplete or an error |
| Der.EncodeIntegerLoop | src/main/rdp/rdcleanpath.ts:74-84 | the do-while loop, always ending, gives the integer encoding, a zero byte before a set high bit |
| Der.IntegerRoundTrip | src/main/rdp/rdcleanpath.ts:74-84 | the parser's fold undoes the encoder, and the content is never negative |
| RdCleanPath.ParseRdCleanPathRequest | src/main/rdp/rdcleanpath.ts:141-180 | what the loop has returned after any number of fields, if anything |
| RdCleanPath.ParsedIff | src/main/rdp/rdcleanpath.ts:141-180 | enough fields give the parse and nothing else, and there are enough exactly if the loop ends |
| RdCleanPath.TerminatesIffNoOffsetTwice | src/main/rdp/rdcleanpath.ts:150-178 | the field loop ends exactly when it visits no offset twice |
| RdCleanPath.TerminatesIffWithinLength | src/main/rdp/rdcleanpath.ts:150-178 | the field loop ends exactly when it ends within as many fields as the body has bytes |
| RdCleanPath.NonNegativeLengthsTerminate | src/main/rdp/rdcleanpath.ts:150-178 | it ends if no field it reads decodes to a negative length |
| RdCleanPath.NoHugeLengthTerminates | src/main/rdp/rdcleanpath.ts:150-178 | it ends on every body in which no byte 0x84, of a length or not, is followed by one with its top bit set |
| RdCleanPath.FieldEndingAtItsStartLoops | src/main/rdp/rdcleanpath.ts:150-178 | it never ends if its first field is a skipped one whose wrapped length ends it where it began |
| RdCleanPath.WrappedLengthLoops | src/main/rdp/rdcleanpath.ts:57-61 | six bytes of body on which it never ends |
| RdCleanPath.LoopingMessageHasNoParse | src/main/rdp/rdcleanpath.ts:141-180 | the message of eight bytes with that body, to which the parser never returns anything |
| RdCleanPath.ParseEncoded | src/main/rdp/rdcleanpath.ts:150-178 | parsing any encoded field list applies each field in turn |
| RdCleanPath.ParsesIsUnique | src/main/rdp/rdcleanpath.ts:141-180 | an input has at most one parse |
| RdCleanPath.ResponseRoundTrip | src/main/rdp/rdcleanpath.ts:193-203 | a built response parses to version 3390 and exactly its X.224 bytes, and nothing else |
| RdCleanPath.RequestRoundTrip | src/main/rdp/rdcleanpath.ts:130-180 | any request a client encodes parses back exactly, whichever fields are present |
| Framing.FramedReader.OnData | src/main/rdp/rdp-proxy.ts:152-166 | one chunk: buffers, and settles with the frame or the error |
| Framing.FramedReader.OnAll | src/main/rdp/rdp-proxy.ts:149-184 | a run of chunks is the fold of single ones |
| Framing.ChunkingIrrelevantIff | src/main/rdp/rdp-proxy.ts:149-184 | for any length probe, fragmentation is irrelevant to a stream exactly when each cut is stable |
| Framing.TpktChunkingIrrelevant | src/main/rdp/rdcleanpath.ts:223-234 | fragmentation never matters to the X.224 reply: same frame, same error or same wait |
| Framing.DerChunkingIrrelevantIff | src/main/rdp/rdp-proxy.ts:324-343 | fragmentation matters to the request exactly when a wrapped length leaves payload bytes in the frame |
| Framing.CutsMatter | src/main/rdp/rdp-proxy.ts:324-343 | eight bytes to which it does matter |
| Framing.CutsDecide | src/main/rdp/rdp-proxy.ts:324-349 | requests that begin a handshake when they come whole, and fail the connection when their header comes alone |
| Framing.ProxyConnection.OnBinaryMessage | src/main/rdp/rdp-proxy.ts:313-350 | one client message: accumulates, fails or begins a handshake, unless the parser is still at work |
| Framing.HandshakesBegun | src/main/rdp/rdp-proxy.ts:313-350 | for every fragmentation each message from the completing one on begins a handshake with the request's X.224 bytes |
| Framing.OneHandshakeIff | src/main/rdp/rdp-proxy.ts:313-350 | just one handshake begins exactly if the message that completes the request is the last |
| Framing.BuiltRequestCarries | src/main/rdp/rdp-proxy.ts:325-349 | what a client encodes, with X.224 bytes, is such a request |
| Framing.ExtraMessageStartsTwice | src/main/rdp/rdp-proxy.ts:313-350 | one byte sent after any such request starts a second handshake |
| Framing.ParseDecidesX224 | src/main/rdp/rdp-proxy.ts:337-347 | the parse decides whether there are X.224 bytes, and which |
| Socks.CollectGroups | src/main/ssh/socks.ts:62-72 | the loop over an IPv6 address gives its eight groups |
| Socks.ConnectRoundTrip | src/main/ssh/socks.ts:47-78 | the host and port of any well-formed CONNECT are read back, whatever follows it |
| Socks.ConnectPrefixIncomplete | src/main/ssh/socks.ts:47-78 | every strict prefix of one is incomplete |
| Socks.HostTextIsFaithful | src/main/ssh/socks.ts:54-73 | different IPv4 or IPv6 addresses, and different well-formed UTF-8 names, become different host strings |
| Socks.MalformedNamesCollide | src/main/ssh/socks.ts:60-64 | two malformed names do not |
| Socks.NameRoundTrip | src/main/ssh/socks.ts:60-65 | a name a client encodes in UTF-8 is the name that is forwarded |
| Unicode.DecodeEncode | src/main/ssh/socks.ts:64-64 | decoding undoes UTF-8 encoding on every string |
| Unicode.WellFormedIff | src/main/ssh/socks.ts:64-64 | the well-formed names are exactly the encodings of strings |
| Unicode.AsciiIsKept | src/main/ssh/socks.ts:64-64 | decoding keeps every ASCII byte of any bytes as that character |
| Socks.ParsersAreStable | src/main/ssh/socks.ts:29-78 | more bytes change no answer of either parser but incomplete |
| Socks.GreetingPrefixes | src/main/ssh/socks.ts:29-39 | a greeting that offers no-auth is accepted once complete and incomplete before |
| Socks.SocksConnection.OnData | src/main/ssh/tunnel-manager.ts:146-175 | one chunk: replies, phase, buffer and forwards |
| Socks.GreetingPhase | src/main/ssh/tunnel-manager.ts:148-160 | the connect phase sees the chunks after the greeting's, and so the whole request exactly if a chunk ends where the greeting does |
| Socks.ConnectPhase | src/main/ssh/tunnel-manager.ts:161-174 | however the request is cut up, it is answered and forwarded once |
| Socks.WaitingClientIsForwarded | src/main/ssh/tunnel-manager.ts:137-178 | a client that waits gets the same two replies and one forward to its host and port, for every fragmentation |
| Socks.ForwardedIffAligned | src/main/ssh/tunnel-manager.ts:137-178 | for every fragmentation the client is forwarded, once, to its host and port exactly if a chunk ends where the greeting does |
| Socks.PipelinedRequestIsLost | src/main/ssh/tunnel-manager.ts:148-160 | a client that sends both at once is never answered |
| SshConfig.Tokenize | src/main/ssh/ssh-config-parser.ts:79-104 | the index loops give the tokens of a line |
| SshConfig.ParseLine | src/main/ssh/ssh-config-parser.ts:54-76 | the index loops give the keyword and arguments, or nothing |
| SshConfig.TokensOfQuoted | src/main/ssh/ssh-config-parser.ts:79-104 | arguments written in double quotes are read back |
| SshConfig.LineReads | src/main/ssh/ssh-config-parser.ts:54-76 | a keyword line with quoted arguments is read back |
| SshConfig.GlobMatchIff | src/main/ssh/ssh-config-parser.ts:129-137 | a glob matches exactly the strings whose code units come of expanding each star and question mark |
| SshConfig.MatchesPatternIsGlob | src/main/ssh/ssh-config-parser.ts:118-121 | the shortcut for literal patterns agrees with the glob |
| SshConfig.BlockMatchesAlias | src/main/ssh/ssh-config-parser.ts:145-155 | a block matches exactly when some positive pattern and no negated one does |
| SshConfig.FlatLookupIsFirst | src/main/ssh/ssh-config-parser.ts:171-182 | the flat rule is the first line, in file order, that gives the alias a non-empty value |
| SshConfig.TwoLevelsAreFlat | src/main/ssh/ssh-config-parser.ts:192-236 | first-wins within blocks and then across matching blocks is the flat rule |
| SshConfig.AppendKeepsValues | src/main/ssh/ssh-config-parser.ts:221-224 | appended lines never change a value already obtained |
| SshConfig.AppendedTextKeepsValues | src/main/ssh/ssh-config-parser.ts:183-236 | nor does appended text |
| SshConfig.LinesConcat | src/main/ssh/ssh-config-parser.ts:192-194 | text appended on a new line adds its lines after the others |
| SshConfig.ParseSshConfig | src/main/ssh/ssh-config-parser.ts:183-248 | the whole parser gives the flat rule's host for each concrete alias, in first-seen order |
| SshConfig.CollectBlocks | src/main/ssh/ssh-config-parser.ts:184-225 | the first loop collects blocks and aliases in file order |
| SshConfig.MergeBlocks | src/main/ssh/ssh-config-parser.ts:229-236 | the merge keeps, per keyword, the first matching block's value |
| SshConfig.HostsAreDistinct | src/main/ssh/ssh-config-parser.ts:185-205 | one host per distinct concrete alias |
| SshConfigWriting.WholeBlocksCompose | src/main/ssh/ssh-config-parser.ts:192-236 | for whole blocks after others each value is the earlier one if there is one, else the later |
| SshConfigWriting.PortReads | src/main/ssh/ssh-config-parser.ts:157-162 | a decimal port is read back exactly from 1 to 65535; any other number gives the default |
| SshConfigWriting.HostsReadBack | src/main/ssh/ssh-config-parser.ts:183-248 | hosts with distinct concrete aliases, one block each, resolve to themselves in order |
| SshConfigWriting.TextReads | src/main/ssh/ssh-config-parser.ts:54-104 | lines written as text, arguments quoted, are read back |
| SshConfigWriting.WrittenFileReadsBack | src/main/ssh/ssh-config-parser.ts:183-248 | the text of such a file is parsed to exactly the hosts it was written from |
| SshInclude.PickedNamesAre | src/main/ssh/ssh-config-include.ts:98-105 | a glob picks exactly the matching entries, sorted by code units, dot files only if it starts with a dot |
| SshInclude.IncludeResolver.ExpandFile | src/main/ssh/ssh-config-include.ts:138-181 | the recursive expansion with its shared counters; it ends on every file graph |
| SshInclude.IncludeResolver.ExpandAll | src/main/ssh/ssh-config-include.ts:166-179 | the loop over a file's lines |
| SshInclude.ResolutionIsBounded | src/main/ssh/ssh-config-include.ts:122-185 | at most 256 files and 5 Mi code units are accepted, and no file twice on one include chain |
| SshInclude.LimitIsNotInBytes | src/main/ssh/ssh-config-include.ts:54-54 | a file of twice the size limit in bytes is accepted |
| SshInclude.LimitIsInBytesIff | src/main/ssh/ssh-config-include.ts:158-163 | what a file adds to the total is at most its UTF-8 bytes, and just that exactly for ASCII text |
| SshInclude.CapIsFinal | src/main/ssh/ssh-config-include.ts:145-149 | once capped nothing more is read: plain lines stay and includes give nothing |
| SshInclude.NoIncludeIsLeft | src/main/ssh/ssh-config-include.ts:109-113 | no line of the output is an Include |
| SshInclude.NoGuardFiresIff | src/main/ssh/ssh-config-include.ts:145-161 | no guard stops a readable file exactly when, in the plain splice, none is too deep or on its own chain and they are not too many or too long |
| SshInclude.WithinLimitsIsSplice | src/main/ssh/ssh-config-include.ts:138-181 | for every file graph within those limits the output is the plain recursive splice |
| SshInclude.UnguardedIsSplice | src/main/ssh/ssh-config-include.ts:138-181 | whenever no guard stops a readable file the output is the plain recursive splice |
| AiHarnesses.HeredocDelimiter | src/shared/ai-harnesses.ts:95-100 | the first candidate tag not in the prompt; the loop ends for every prompt |
| AiHarnesses.CandidateBound | src/shared/ai-harnesses.ts:95-100 | a candidate that occurs in the prompt has a number its length bounds |
| AiHarnesses.SingleQuoteIsOneWord | src/shared/ai-harnesses.ts:90-92 | a shell reads any quoted value as one word, itself |
| AiHarnesses.ArgumentIsDelivered | src/shared/ai-harnesses.ts:113-138 | a shell reads the composed line as the harness's words and the unchanged prompt |
| AiHarnesses.InteractiveIsHeadlessIff | src/shared/ai-harnesses.ts:113-161 | that is the headless argument vector exactly when there are no output arguments |
| AiHarnesses.HereDocReads | src/shared/ai-harnesses.ts:123-127 | the redirection and body read as the delimiter and the prompt plus one newline |
| AiHarnesses.StdinIsDelivered | src/shared/ai-harnesses.ts:123-127 | the whole stdin command reads as the harness's words with that standard input |
| Completion.Tally | src/shared/completion.ts:54-62 | the two maps hold each counted value's count and last index |
| Completion.RankCompletions | src/shared/completion.ts:39-80 | the sorted slice of the scored candidates |
| Completion.ScoreIsLexicographic | src/shared/completion.ts:64-77 | the blended score orders values exactly by count, then by last use, with no ties |
| Completion.MoreOftenScoresMore | src/shared/completion.ts:66-69 | recency never outweighs one more use |
| Completion.RankedIsTop | src/shared/completion.ts:71-79 | for every limit the result has no duplicates, is strictly ordered, and everything left out is worse |
| Template.SegmentsLoseNothing | src/shared/template.ts:31-33 | the scan cuts the text into placeholders and characters without loss |
| Template.ParseTemplateVars | src/shared/template.ts:78-106 | one variable per name, first seen first, with the first default and description given |
| Template.GatherAll | src/shared/template.ts:82-103 | the loop's map and order list after any number of matches |
| Template.VariablesAreDistinct | src/shared/template.ts:72-76 | the names are distinct and are exactly the placeholders' |
| Template.RenderReadsVariablesOnly | src/shared/template.ts:116-126 | rendering depends on the values of the declared variables only |
| Template.RenderIsIntendedIff | src/shared/template.ts:116-126 | given the placeholders the scanner finds, own escapes are undone and inserted text is kept exactly when each escape lies wholly in template text |
| TemplatePromise.ReadAsMeantIff | src/shared/template.ts:31-36 | the scanner finds the placeholders that are meant, and so the variables, exactly when no escape's second brace begins one |
| TemplatePromise.KeptIffEscapesAreOwn | src/shared/template.ts:108-126 | then the promise is kept exactly when each escape lies wholly in template text |
| TemplatePromise.KeptIffNoOverlap | src/shared/template.ts:108-126 | when every placeholder has a name and shows some harmless text, the promise is kept exactly when no escape's second brace begins one |
| TemplatePromise.HarmlessValuesAreSafe | src/shared/template.ts:108-126 | with no backslash and no opening brace in values and defaults, only such an overlap can break the promise |
| Template.BackslashFreeIsLiteral | src/shared/template.ts:113-114 | without backslashes rendering is the interleaving, so a value's placeholder is never expanded |
| TemplatePromise.EscapeInValueIsLost | src/shared/template.ts:125-125 | a value whose escape is undone, with what is rendered and what was promised |
| TemplatePromise.EscapedPlaceholderFails | src/shared/template.ts:33-36 | an escape that does not escape, with what is rendered and what was promised |
| TemplatePromise.EscapeMeansItself | src/shared/template.ts:17-18 | any text without a backslash, its double braces escaped, is promised to come out as itself |
| TemplatePromise.EscapedRendersAsItself | src/shared/template.ts:35-36 | it does if no escape's second brace begins a placeholder |
| TemplatePromise.EscapedRendersIff | src/shared/template.ts:35-36 | and only then, once the placeholders have something harmless to show |
| TemplatePromise.NoTripleNoOverlap | src/shared/template.ts:35-36 | no three braces in a row are enough for that |
| TemplateWriting.BodyReads | src/shared/template.ts:44-70 | name, default and description written as a placeholder body are read back |
| TemplateWriting.SegmentsReadBack | src/shared/template.ts:31-36 | the scanner undoes writing characters, escaped double braces and placeholders out |
| TemplateWriting.WrittenDeclares | src/shared/template.ts:78-106 | a written template declares exactly its placeholders' variables |
| TemplateWriting.WrittenMeans | src/shared/template.ts:108-115 | what is promised of a written template is its characters, its double braces and value, else default, else nothing |
| TemplateWriting.WrittenRendersIff | src/shared/template.ts:108-126 | it renders as that exactly when no escape involves inserted text |
| Schedule.ParseField | src/main/schedule.ts:48-83 | any, the union of the parts' values, or an error on junk and on values out of bounds |
| Schedule.FieldValuesAre | src/main/schedule.ts:51-78 | a field's values are exactly those some part admits |
| Schedule.StepsAre | src/main/schedule.ts:52-64 | a stepped range is the values in bounds a whole number of steps from its start |
| Schedule.NextCron | src/main/schedule.ts:115-135 | the scanning loop gives the first matching minute |
| Schedule.NextCronIsLeast | src/main/schedule.ts:115-135 | that is the least later matching whole minute in the horizon, and there is none if it says so |
| Schedule.NextDailyIsLeast | src/main/schedule.ts:34-40 | the least strictly later time with that clock time |
| Schedule.NextRunIsLater | src/main/schedule.ts:17-32 | a next run is strictly later than the time it is computed from |
| Schedule.Scheduler.TickRoutines | src/main/routine-scheduler.ts:36-51 | the routines and triggers after one tick; nothing changes when disabled |
| Schedule.NothingDueAfterTick | src/main/routine-scheduler.ts:31-35 | after an enabled tick nothing is due: missed runs collapse into one |
| Schedule.IntervalFiresAreSpaced | src/main/routine-scheduler.ts:31-51 | over any ticks an interval routine fires at most once more than the whole intervals elapsed |
| FanOut.ClaimsAreExclusive | src/main/mcp/tools.ts:28-44 | in every interleaving no index is claimed twice and a stored result is the function's |
| FanOut.CompletedIsMapIff | src/main/mcp/tools.ts:28-44 | on completion the results are the mapped items exactly when the limit is at least one or there are no items |
| FanOut.SchedulesAreBounded | src/main/mcp/tools.ts:36-42 | every schedule ends within two steps an item and one a worker |
| FanOut.InvRun | src/main/mcp/tools.ts:34-42 | each claimed index is either stored or held by one worker, at every moment |
| FanOut.EventsAreAccounted | src/main/automation/automation-runner.ts:40-94 | at every moment the starts of a host without an ending are the lanes running it, at most eight |
| FanOut.FinishedRunIsComplete | src/main/automation/automation-runner.ts:40-94 | at the end each occurrence of a host has had exactly one start and one ending |

## Left out

- RdCleanPath.ParseRdCleanPathRequest: a method here must end, so it takes a number of fields after which it gives up; no input is excluded.
- TransferRun.NeverPartial: assumes a sink that closes only after writing what it was given, a known size, a source that does not change while it is read, and one run of the record at a time; without the first it fails, as `TransferRun.SwallowedWriteIsPromoted` shows, and without the second as `TransferRun.UnknownSizeMayBePartial` says.
- TransferRun.TempIsPerTransfer: paths are a directory and a base name; joining and normalising them is not modelled.
- Completion.ScoreIsLexicographic: exact arithmetic, the score multiplied by the span; rounding of doubles is not modelled.
- Schedule.NextDailyIsLeast: a fixed offset from UTC; time zones and daylight saving changes are not modelled.
- Schedule.ParseField: starts from parts already read; cutting the field's text at commas, slashes and hyphens is not modelled.
- Socks.WaitingClientIsForwarded: handshake timeouts and socket errors are not modelled.
- Socks.HostTextIsFaithful: for names it asks for well-formed UTF-8; malformed names can collide, as `Socks.MalformedNamesCollide` shows. Malformed parts are replaced as the Encoding Standard has it.
- FanOut.EventsAreAccounted: while the owning window lives and emitting does not throw; output events between start and ending are not modelled.
- AiHarnesses.ArgumentIsDelivered: for harnesses whose own words need no quoting; the table of built-in harnesses is not modelled.
- GroupTree.TreeNestsLevels: the map from parent to children is modelled as a lookup in the listing, and name comparison as any total order, not a locale's.
- SshConfig.ParseLine: keywords are lower-cased over ASCII only.
- SshInclude.IncludeResolver.ExpandFile: path functions, directory listings and file contents are parameters fixed for one resolution; an unreadable root is `None`.
- Template.SegmentsLoseNothing: the two regular expressions are modelled as direct scanners.
- A `char` is a Unicode scalar value, so strings with unpaired surrogates are not modelled; only globs, text lengths and string order depend on code units, and those are modelled on them.
- TemplateWriting.WrittenRendersIff: for templates without single braces and backslashes of their own; `TemplatePromise.KeptIffNoOverlap` and `TemplatePromise.KeptIffEscapesAreOwn` cover every text.
- TemplatePromise.KeptIffNoOverlap: without its condition on what is shown a value can make up for a lost escape by chance, or hide it by being empty.
- Framing.HandshakesBegun: what the handshake does (connect, TLS) is not modelled, nor are the switch to relaying that ends the accumulation and the closing of the socket after a failure.
- HostInheritance.ResolveInheritedHost: a field's source is a datatype, so that a group whose id is `host` or `none` is told apart, as the source's strings do not.
- `groupPath`, `buildRdCleanPathError`, `suggestCompletions`: simple folds over what is modelled.
- Transfer rates, remaining time, progress events and their throttling: floating point and display.
- Bytes still on their way to disk when a stream is destroyed: they can only touch the temp file.
- Electron, IPC, the renderer, SQLite, ssh2, node-pty, WebSocket and TLS libraries, clocks and randomness: effects enter as parameters or as steps of the environment.
- Session lifecycles, VNC, approvals, redaction and the policy deny list.
