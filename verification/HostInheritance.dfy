/** What a host inherits from the groups above it: scalar fields from the nearest that sets them, tags from all. */
module HostInheritance {
  import opened Wrappers
  import opened Sorting

  datatype Field = CredentialId | ProxyJump | DefaultPath | Color

  const SCALAR_FIELDS := [CredentialId, ProxyJump, DefaultPath, Color]

  /** A field that is null or undefined is not in `scalars`; absent tags are an empty list. */
  datatype Defaults = Defaults(scalars: map<Field, string>, tags: seq<string>)

  datatype Ancestor = Ancestor(id: string, defaults: Defaults)

  datatype Source = FromHost | FromGroup(id: string) | FromNone

  datatype Effective = Effective(values: map<Field, string>, sources: map<Field, Source>, tags: seq<string>)

  predicate IsSet(d: Defaults, f: Field) {
    f in d.scalars && d.scalars[f] != ""
  }

  /** The position of the first ancestor that sets the field, or the number of ancestors. */
  function Nearest(ancestors: seq<Ancestor>, f: Field): (i: nat)
    ensures i <= |ancestors| && (i < |ancestors| ==> IsSet(ancestors[i].defaults, f))
    ensures forall j | 0 <= j < i :: !IsSet(ancestors[j].defaults, f)
  {
    if ancestors == [] || IsSet(ancestors[0].defaults, f) then 0 else 1 + Nearest(ancestors[1..], f)
  }

  function ValueOf(host: Defaults, ancestors: seq<Ancestor>, f: Field): Option<string> {
    if IsSet(host, f) then Some(host.scalars[f])
    else
      var i := Nearest(ancestors, f);
      if i < |ancestors| then Some(ancestors[i].defaults.scalars[f]) else None
  }

  function SourceOf(host: Defaults, ancestors: seq<Ancestor>, f: Field): Source {
    if IsSet(host, f) then FromHost
    else
      var i := Nearest(ancestors, f);
      if i < |ancestors| then FromGroup(ancestors[i].id) else FromNone
  }

  function TagsOf(ancestors: seq<Ancestor>): seq<string> {
    if ancestors == [] then [] else ancestors[0].defaults.tags + TagsOf(ancestors[1..])
  }

  /** The effective configuration; a field nobody sets is absent from `values`. */
  function Resolved(host: Defaults, ancestors: seq<Ancestor>): Effective {
    Effective(
      Values(host, ancestors),
      map f: Field | f in SCALAR_FIELDS :: SourceOf(host, ancestors, f),
      FirstSeen(host.tags + TagsOf(ancestors)))
  }

  function Values(host: Defaults, ancestors: seq<Ancestor>): map<Field, string> {
    map f: Field | f in SCALAR_FIELDS && ValueOf(host, ancestors, f).Some? :: ValueOf(host, ancestors, f).value
  }

  /** The two loops over the fields and the ancestors, and the one over the tags. */
  method ResolveInheritedHost(host: Defaults, ancestors: seq<Ancestor>) returns (e: Effective)
    ensures e == Resolved(host, ancestors)
  {
    var values: map<Field, string>, sources: map<Field, Source> := map[], map[];
    for k := 0 to |SCALAR_FIELDS|
      invariant forall f :: f in sources <==> f in SCALAR_FIELDS[..k]
      invariant forall f <- sources :: sources[f] == SourceOf(host, ancestors, f)
      invariant forall f :: f in values <==> f in sources && ValueOf(host, ancestors, f).Some?
      invariant forall f <- values :: Some(values[f]) == ValueOf(host, ancestors, f)
    {
      var field := SCALAR_FIELDS[k];
      var value, source := ResolveField(host, ancestors, field);
      assert SCALAR_FIELDS[..k + 1] == SCALAR_FIELDS[..k] + [field];
      sources := sources[field := source];
      if value.Some? {
        values := values[field := value.value];
      }
    }
    assert SCALAR_FIELDS[..|SCALAR_FIELDS|] == SCALAR_FIELDS;
    var tags := CollectTags(host.tags + TagsOf(ancestors));
    e := Effective(values, sources, tags);
  }

  method ResolveField(host: Defaults, ancestors: seq<Ancestor>, field: Field) returns (value: Option<string>, source: Source)
    ensures value == ValueOf(host, ancestors, field) && source == SourceOf(host, ancestors, field)
  {
    if IsSet(host, field) {
      return Some(host.scalars[field]), FromHost;
    }
    for i := 0 to |ancestors|
      invariant i + Nearest(ancestors[i..], field) == Nearest(ancestors, field)
    {
      assert ancestors[i..][1..] == ancestors[i + 1..];
      if IsSet(ancestors[i].defaults, field) {
        return Some(ancestors[i].defaults.scalars[field]), FromGroup(ancestors[i].id);
      }
    }
    return None, FromNone;
  }

  method CollectTags(all: seq<string>) returns (tags: seq<string>)
    ensures tags == FirstSeen(all)
  {
    tags := [];
    var seen: set<string> := {};
    for i := 0 to |all|
      invariant seen == set t | t in tags
      invariant AddUnseen(tags, all[i..]) == FirstSeen(all)
    {
      assert all[i..][1..] == all[i + 1..];
      if all[i] !in seen {
        seen := seen + {all[i]};
        tags := tags + [all[i]];
      }
    }
  }

  // ----- What the result means -----

  /** A field comes from a group exactly when that group is the nearest to set it and the host does not. */
  lemma SourceIsNearest(host: Defaults, ancestors: seq<Ancestor>, f: Field, i: nat)
    requires i < |ancestors| && forall j, k | 0 <= j < k < |ancestors| :: ancestors[j].id != ancestors[k].id
    ensures SourceOf(host, ancestors, f) == FromGroup(ancestors[i].id) <==>
      && !IsSet(host, f) && IsSet(ancestors[i].defaults, f)
      && forall j | 0 <= j < i :: !IsSet(ancestors[j].defaults, f)
  {
    var n := Nearest(ancestors, f);
    assert n < |ancestors| && n != i ==> ancestors[n].id != ancestors[i].id;
  }

  /** Tags are a union, each once. */
  lemma TagsAreUnion(host: Defaults, ancestors: seq<Ancestor>, tag: string)
    ensures Distinct(Resolved(host, ancestors).tags)
    ensures tag in Resolved(host, ancestors).tags
      <==> tag in host.tags || exists a <- ancestors :: tag in a.defaults.tags
  {
    AddUnseenIsDistinct([], host.tags + TagsOf(ancestors));
    TagsFrom(ancestors, tag);
  }

  lemma {:induction false} TagsFrom(ancestors: seq<Ancestor>, tag: string)
    ensures tag in TagsOf(ancestors) <==> exists a <- ancestors :: tag in a.defaults.tags
  {
    if ancestors != [] {
      TagsFrom(ancestors[1..], tag);
      assert forall a :: a in ancestors <==> a == ancestors[0] || a in ancestors[1..];
    }
  }

  /** The configuration as something a host could set itself. */
  function AsOwn(e: Effective): Defaults {
    Defaults(e.values, e.tags)
  }

  /**
   * Inheritance composes: resolving against the nearer groups first, and what comes out against the
   * farther ones, gives the values and tags of resolving against all of them at once.
   */
  lemma InheritanceComposes(host: Defaults, near: seq<Ancestor>, far: seq<Ancestor>)
    ensures var step, whole := Resolved(AsOwn(Resolved(host, near)), far), Resolved(host, near + far);
      step.values == whole.values && step.tags == whole.tags
  {
    var own := AsOwn(Resolved(host, near));
    forall f: Field
      ensures ValueOf(own, far, f) == ValueOf(host, near + far, f)
    {
      OwnSets(host, near, f);
      ValueComposes(host, own, near, far, f);
    }
    SameValues(own, far, host, near + far);
    TagsCompose(host.tags, near, far);
  }

  lemma TagsCompose(tags: seq<string>, near: seq<Ancestor>, far: seq<Ancestor>)
    ensures FirstSeen(FirstSeen(tags + TagsOf(near)) + TagsOf(far)) == FirstSeen(tags + TagsOf(near + far))
  {
    TagsConcat(near, far);
    assert tags + TagsOf(near + far) == tags + TagsOf(near) + TagsOf(far);
    FirstSeenTwice(tags + TagsOf(near), TagsOf(far));
  }

  lemma SameValues(h: Defaults, a: seq<Ancestor>, h': Defaults, a': seq<Ancestor>)
    requires forall f :: ValueOf(h, a, f) == ValueOf(h', a', f)
    ensures Values(h, a) == Values(h', a')
  {
  }

  lemma AllFields(f: Field)
    ensures f in SCALAR_FIELDS
  {
    var i := match f case CredentialId => 0 case ProxyJump => 1 case DefaultPath => 2 case Color => 3;
    assert SCALAR_FIELDS[i] == f;
  }

  lemma OwnSets(host: Defaults, near: seq<Ancestor>, f: Field)
    ensures var own := AsOwn(Resolved(host, near));
      && (IsSet(own, f) <==> ValueOf(host, near, f).Some?)
      && (IsSet(own, f) ==> Some(own.scalars[f]) == ValueOf(host, near, f))
  {
    AllFields(f);
  }

  lemma ValueComposes(host: Defaults, own: Defaults, near: seq<Ancestor>, far: seq<Ancestor>, f: Field)
    requires IsSet(own, f) <==> ValueOf(host, near, f).Some?
    requires IsSet(own, f) ==> Some(own.scalars[f]) == ValueOf(host, near, f)
    ensures ValueOf(own, far, f) == ValueOf(host, near + far, f)
  {
    NearestConcat(near, far, f);
  }

  lemma {:induction false} NearestConcat(near: seq<Ancestor>, far: seq<Ancestor>, f: Field)
    ensures Nearest(near + far, f) ==
      if Nearest(near, f) < |near| then Nearest(near, f) else |near| + Nearest(far, f)
    decreases |near|
  {
    if near == [] {
      assert near + far == far;
    } else {
      assert (near + far)[1..] == near[1..] + far;
      NearestConcat(near[1..], far, f);
    }
  }

  lemma {:induction false} TagsConcat(near: seq<Ancestor>, far: seq<Ancestor>)
    ensures TagsOf(near + far) == TagsOf(near) + TagsOf(far)
    decreases |near|
  {
    if near == [] {
      assert near + far == far;
    } else {
      assert (near + far)[1..] == near[1..] + far;
      TagsConcat(near[1..], far);
    }
  }

  lemma FirstSeenTwice(s: seq<string>, t: seq<string>)
    ensures FirstSeen(FirstSeen(s) + t) == FirstSeen(s + t)
  {
    AddUnseenIsDistinct([], s);
    AddUnseenConcat([], s, t);
    AddUnseenConcat([], FirstSeen(s), t);
    assert [] + FirstSeen(s) == FirstSeen(s);
    DistinctStays([], FirstSeen(s));
  }

  lemma {:induction false} DistinctStays(order: seq<string>, s: seq<string>)
    requires Distinct(order + s)
    ensures AddUnseen(order, s) == order + s
    decreases |s|
  {
    if s == [] {
      assert order + s == order;
    } else {
      assert (order + s)[|order|] == s[0] && forall i | 0 <= i < |order| :: (order + s)[i] == order[i];
      assert order + [s[0]] + s[1..] == order + s;
      DistinctStays(order + [s[0]], s[1..]);
    }
  }
}
