/**
 * The DER subset of the RDCleanPath codec: lengths (section 8.1.3 of ITU-T X.690), tag-length-value
 * triples and integers. Shifts are on 32-bit signed integers, as in the source language.
 */
module Der {
  import opened Wrappers

  type Byte = b: int | 0 <= b < 256

  type Bytes = seq<Byte>

  datatype Error =
    | TruncatedTag | TruncatedLength | BadLengthForm | TruncatedLengthBytes | ContentExceedsBuffer
    | NotASequence | NotATpktFrame | TpktLengthTooSmall

  datatype Result<+T> = Ok(value: T) | Fail(error: Error)

  const TWO31 := 0x8000_0000

  // ----- 32-bit arithmetic -----

  function ToInt32(x: int): (r: int)
    ensures -TWO31 <= r < TWO31 && (0 <= x < TWO31 ==> r == x)
  {
    var r := x % 0x1_0000_0000;
    if r >= TWO31 then r - 0x1_0000_0000 else r
  }

  /** `(acc << 8) | b`: the shift clears the low byte, so the or adds. */
  function ShiftIn(acc: int, b: Byte): int {
    ToInt32(acc * 256) + b
  }

  /** `n >> 8`. */
  function ShiftOut(n: int): int {
    ToInt32(n) / 256
  }

  // ----- Lengths -----

  /** The bytes of `n`, most significant first, as the encoder's loop shifts them out. */
  function Digits(n: int): Bytes
    decreases n
  {
    if n <= 0 then [] else Digits(ShiftOut(n)) + [n % 256]
  }

  function EncodeLength(len: nat): Bytes {
    if len < 0x80 then [len] else DigitsAreFew(len, 5); [0x80 + |Digits(len)|] + Digits(len)
  }

  function Pow256(k: nat): nat {
    if k == 0 then 1 else 256 * Pow256(k - 1)
  }

  lemma {:induction false} DigitsAreFew(n: int, k: nat)
    requires k > 0
    ensures n < Pow256(k) ==> |Digits(n)| <= k
    ensures |Digits(n)| <= 4
    decreases k
  {
    assert Pow256(4) == 0x1_0000_0000;
    if n > 0 {
      var m := ShiftOut(n);
      assert m < 0x80_0000;
      DigitsBelow(m, 3);
      if n < Pow256(k) && k > 1 {
        DigitsBelow(n, k);
      }
    }
  }

  lemma {:induction false} DigitsBelow(n: int, k: nat)
    requires n < Pow256(k)
    ensures |Digits(n)| <= k
  {
    if n > 0 {
      DigitsBelow(ShiftOut(n), k - 1);
    }
  }

  method EncodeLengthLoop(len: nat) returns (out: Bytes)
    ensures out == EncodeLength(len)
  {
    if len < 0x80 {
      return [len];
    }
    var bytes: Bytes := [];
    var n: int := len;
    while n > 0
      invariant Digits(len) == Digits(n) + bytes
      decreases n
    {
      bytes := [n % 256] + bytes;
      n := ShiftOut(n);
    }
    DigitsAreFew(len, 5);
    out := [0x80 + |bytes|] + bytes;
  }

  function At(buf: Bytes, i: int): Option<Byte> {
    if 0 <= i < |buf| then Some(buf[i]) else None
  }

  /** The decoder's accumulator after reading `bytes`. */
  function Accumulate(acc: int, bytes: Bytes): int
    decreases |bytes|
  {
    if bytes == [] then acc else Accumulate(ShiftIn(acc, bytes[0]), bytes[1..])
  }

  datatype Length = Length(length: int, contentStart: int)

  function ReadLength(buf: Bytes, offset: int): Result<Length> {
    var first := At(buf, offset);
    if first.None? then Fail(TruncatedLength)
    else if first.value < 0x80 then Ok(Length(first.value, offset + 1))
    else
      var numBytes := first.value - 0x80;
      if numBytes == 0 || numBytes > 4 then Fail(BadLengthForm)
      else if |buf| < offset + 1 + numBytes then Fail(TruncatedLengthBytes)
      else Ok(Length(Accumulate(0, buf[offset + 1..offset + 1 + numBytes]), offset + 1 + numBytes))
  }

  method ReadLengthLoop(buf: Bytes, offset: int) returns (r: Result<Length>)
    ensures r == ReadLength(buf, offset)
  {
    var first := At(buf, offset);
    if first.None? {
      return Fail(TruncatedLength);
    }
    if first.value < 0x80 {
      return Ok(Length(first.value, offset + 1));
    }
    var numBytes := first.value - 0x80;
    if numBytes == 0 || numBytes > 4 {
      return Fail(BadLengthForm);
    }
    var length, i := 0, 0;
    ghost var start := offset + 1;
    while i < numBytes
      invariant 0 <= i <= numBytes && start + i <= |buf|
      invariant start + numBytes <= |buf| ==>
        Accumulate(0, buf[start..start + numBytes]) == Accumulate(length, buf[start + i..start + numBytes])
    {
      var b := At(buf, offset + 1 + i);
      if b.None? {
        return Fail(TruncatedLengthBytes);
      }
      assert start + numBytes <= |buf| ==> buf[start + i..start + numBytes][1..] == buf[start + i + 1..start + numBytes];
      length := ShiftIn(length, b.value);
      i := i + 1;
    }
    return Ok(Length(length, offset + 1 + numBytes));
  }

  /** The number a big-endian byte string denotes. */
  ghost function BigEndian(bytes: Bytes): nat {
    if bytes == [] then 0 else BigEndian(bytes[..|bytes| - 1]) * 256 + bytes[|bytes| - 1]
  }

  lemma {:induction false} AccumulateAppend(acc: int, bytes: Bytes, b: Byte)
    ensures Accumulate(acc, bytes + [b]) == ShiftIn(Accumulate(acc, bytes), b)
    decreases |bytes|
  {
    if bytes != [] {
      AccumulateAppend(ShiftIn(acc, bytes[0]), bytes[1..], b);
      assert (bytes + [b])[1..] == bytes[1..] + [b];
    }
  }

  lemma Int32Shift(x: int, b: Byte)
    ensures ToInt32(ToInt32(x) * 256) + b == ToInt32(x * 256 + b)
  {
    var q := if ToInt32(x) == x % 0x1_0000_0000 then x / 0x1_0000_0000 else x / 0x1_0000_0000 + 1;
    assert x == ToInt32(x) + q * 0x1_0000_0000;
    Int32Periodic(ToInt32(x) * 256, q * 256);
    Int32LowByte(x * 256, b, x);
  }

  lemma Int32Periodic(x: int, k: int)
    ensures ToInt32(x + k * 0x1_0000_0000) == ToInt32(x)
  {
  }

  /** A low byte never carries out of a number whose own low byte is clear. */
  lemma Int32LowByte(y: int, b: Byte, x: int)
    requires y == x * 256
    ensures ToInt32(y) + b == ToInt32(y + b)
  {
    var r := y % 0x1_0000_0000;
    var q := y / 0x1_0000_0000;
    assert r == 256 * (x - q * 0x100_0000);
    assert 0 <= r + b < 0x1_0000_0000;
    assert y + b == (r + b) + q * 0x1_0000_0000;
    Int32Periodic(r + b, q);
  }

  /** What the decoder computes: the declared number, wrapped to 32 bits. */
  lemma {:induction false} DecodedIsWrapped(bytes: Bytes)
    ensures Accumulate(0, bytes) == ToInt32(BigEndian(bytes))
  {
    if bytes != [] {
      var init, b := bytes[..|bytes| - 1], bytes[|bytes| - 1];
      DecodedIsWrapped(init);
      AccumulateAppend(0, init, b);
      assert bytes == init + [b];
      Int32Shift(BigEndian(init), b);
    }
  }

  lemma {:induction false} DigitsDenote(n: nat)
    requires n < TWO31
    ensures BigEndian(Digits(n)) == n
  {
    if n > 0 {
      DigitsDenote(n / 256);
      var ds := Digits(n);
      assert ds[..|ds| - 1] == Digits(n / 256);
    }
  }

  /** `readLength` undoes `encodeLength`, wherever it stands in a buffer, exactly for lengths below 2^31. */
  lemma LengthRoundTripIff(before: Bytes, len: nat, after: Bytes)
    ensures var r := ReadLength(before + EncodeLength(len) + after, |before|);
      r.Ok? && (r.value == Length(len, |before| + |EncodeLength(len)|) <==> len < TWO31)
  {
    var enc := EncodeLength(len);
    var buf := before + enc + after;
    assert buf[|before|] == enc[0];
    if len >= 0x80 {
      assert |Digits(len)| > 0;
      assert buf[|before| + 1..|before| + 1 + |Digits(len)|] == Digits(len);
      DecodedIsWrapped(Digits(len));
      DigitsAreFew(len, 5);
      if len < TWO31 {
        DigitsDenote(len);
      }
    }
  }

  lemma {:induction false} DigitsAreMinimal(bytes: Bytes)
    requires BigEndian(bytes) < TWO31
    ensures |Digits(BigEndian(bytes))| <= |bytes|
  {
    if bytes != [] {
      DigitsAreMinimal(bytes[..|bytes| - 1]);
    }
  }

  lemma {:induction false} BigEndianBound(bytes: Bytes)
    ensures BigEndian(bytes) < Pow256(|bytes|)
  {
    if bytes != [] {
      BigEndianBound(bytes[..|bytes| - 1]);
    }
  }

  /** No encoding the decoder accepts for a length is shorter than the encoder's. */
  lemma EncodedLengthIsMinimal(buf: Bytes, offset: int)
    requires ReadLength(buf, offset).Ok? && ReadLength(buf, offset).value.length >= 0
    ensures var r := ReadLength(buf, offset).value; |EncodeLength(r.length)| <= r.contentStart - offset
  {
    var r := ReadLength(buf, offset).value;
    if buf[offset] >= 0x80 {
      var bytes := buf[offset + 1..r.contentStart];
      DecodedIsWrapped(bytes);
      BigEndianBound(bytes);
      Pow256Grows(|bytes|, 4);
      assert Pow256(4) == 0x1_0000_0000;
      assert r.length == BigEndian(bytes);
      DigitsAreMinimal(bytes);
    }
  }

  lemma {:induction false} Pow256Grows(i: nat, k: nat)
    requires i <= k
    ensures Pow256(i) <= Pow256(k)
    decreases k
  {
    if i < k {
      Pow256Grows(i, k - 1);
    }
  }

  lemma SmallLength(bytes: Bytes)
    requires |bytes| <= 4 && (|bytes| == 4 ==> bytes[0] < 0x80)
    ensures Accumulate(0, bytes) >= 0
  {
    DecodedIsWrapped(bytes);
    if |bytes| == 4 {
      FourBytes(bytes);
    } else {
      BigEndianBound(bytes);
      Pow256Grows(|bytes|, 3);
      assert Pow256(3) == 0x100_0000;
    }
  }

  lemma FourBytes(bytes: Bytes)
    requires |bytes| == 4
    ensures BigEndian(bytes) == ((bytes[0] as int * 256 + bytes[1]) * 256 + bytes[2]) * 256 + bytes[3]
  {
    var b3, b2, b1 := bytes[..3], bytes[..2], bytes[..1];
    assert b3[..2] == b2 && b2[..1] == b1 && b1[..0] == [];
    assert BigEndian(b1) == bytes[0] && BigEndian(b2) == BigEndian(b1) * 256 + bytes[1];
    assert BigEndian(b3) == BigEndian(b2) * 256 + bytes[2] && BigEndian(bytes) == BigEndian(b3) * 256 + bytes[3];
  }

  // ----- Tag-length-value triples -----

  datatype Tlv = Tlv(tag: Byte, content: Bytes, next: int)

  /** `Buffer.subarray`: a negative bound counts from the end, and an empty range gives no bytes. */
  function Subarray(buf: Bytes, start: int, end: int): Bytes {
    var s := Clamp(start, |buf|);
    var e := Clamp(end, |buf|);
    if s < e then buf[s..e] else []
  }

  function Clamp(i: int, len: nat): (c: nat)
    ensures c <= len
  {
    if i < 0 then (if len + i > 0 then len + i else 0) else if i > len then len else i
  }

  function EncodeTlv(tag: Byte, content: Bytes): Bytes {
    [tag] + EncodeLength(|content|) + content
  }

  function ReadTlv(buf: Bytes, offset: int): Result<Tlv> {
    var tag := At(buf, offset);
    if tag.None? then Fail(TruncatedTag)
    else match ReadLength(buf, offset + 1)
      case Fail(e) => Fail(e)
      case Ok(Length(length, contentStart)) =>
        var end := contentStart + length;
        if end > |buf| then Fail(ContentExceedsBuffer)
        else Ok(Tlv(tag.value, Subarray(buf, contentStart, end), end))
  }

  lemma TlvRoundTrip(before: Bytes, tag: Byte, content: Bytes, after: Bytes)
    requires |content| < TWO31
    ensures ReadTlv(before + EncodeTlv(tag, content) + after, |before|)
      == Ok(Tlv(tag, content, |before| + |EncodeTlv(tag, content)|))
  {
    var len := EncodeLength(|content|);
    var buf := before + EncodeTlv(tag, content) + after;
    assert buf == (before + [tag]) + len + (content + after);
    LengthRoundTripIff(before + [tag], |content|, content + after);
    var start := |before| + 1 + |len|;
    assert buf[start..start + |content|] == content;
  }

  /** `None` is "not complete yet". */
  function DerValueLength(buf: Bytes, offset: nat): Result<Option<int>> {
    if |buf| < offset + 2 then Ok(None)
    else
      var first := buf[offset + 1];
      if first < 0x80 then Ok(WhenBuffered(buf, offset, 2 + first))
      else
        var numBytes := first - 0x80;
        if numBytes == 0 || numBytes > 4 then Fail(BadLengthForm)
        else if |buf| < offset + 2 + numBytes then Ok(None)
        else Ok(WhenBuffered(buf, offset, 2 + numBytes + Accumulate(0, buf[offset + 2..offset + 2 + numBytes])))
  }

  function WhenBuffered(buf: Bytes, offset: nat, total: int): Option<int> {
    if |buf| >= offset + total then Some(total) else None
  }

  method DerValueLengthLoop(buf: Bytes, offset: nat) returns (r: Result<Option<int>>)
    ensures r == DerValueLength(buf, offset)
  {
    if |buf| < offset + 2 {
      return Ok(None);
    }
    var headerLen, length := 2, buf[offset + 1] as int;
    if length >= 0x80 {
      var numBytes := length - 0x80;
      if numBytes == 0 || numBytes > 4 {
        return Fail(BadLengthForm);
      }
      if |buf| < offset + 2 + numBytes {
        return Ok(None);
      }
      headerLen := 2 + numBytes;
      length := ShiftInAll(buf[offset + 2..offset + 2 + numBytes]);
    }
    return Ok(WhenBuffered(buf, offset, headerLen + length));
  }

  /** The accumulating loop, over bytes known to be there. */
  method ShiftInAll(bytes: Bytes) returns (length: int)
    ensures length == Accumulate(0, bytes)
  {
    length := 0;
    for i := 0 to |bytes|
      invariant Accumulate(length, bytes[i..]) == Accumulate(0, bytes)
    {
      assert bytes[i..][1..] == bytes[i + 1..];
      length := ShiftIn(length, bytes[i]);
    }
  }

  /** The completeness test and the reader agree on where a value ends, wrapped lengths included. */
  lemma ValueLengthAgrees(buf: Bytes, offset: nat, total: int)
    ensures DerValueLength(buf, offset) == Ok(Some(total))
      <==> ReadTlv(buf, offset).Ok? && ReadTlv(buf, offset).value.next == offset + total
  {
  }

  /** Every strict prefix of a value whose length did not wrap is reported incomplete. */
  lemma StrictPrefixIsIncomplete(buf: Bytes, offset: nat, k: nat)
    requires ReadTlv(buf, offset).Ok? && ReadLength(buf, offset + 1).value.length >= 0
    requires offset <= k < ReadTlv(buf, offset).value.next
    ensures k <= |buf| && DerValueLength(buf[..k], offset) == Ok(None)
  {
    var first := buf[offset + 1];
    if first >= 0x80 && k >= offset + 2 + (first - 0x80) {
      assert buf[..k][offset + 2..offset + 2 + (first - 0x80)] == buf[offset + 2..offset + 2 + (first - 0x80)];
    }
  }

  /** More bytes change neither a complete answer nor an error. */
  lemma ValueLengthStable(buf: Bytes, more: Bytes, offset: nat)
    ensures var r := DerValueLength(buf, offset); r != Ok(None) ==> DerValueLength(buf + more, offset) == r
  {
    if |buf| >= offset + 2 && buf[offset + 1] > 0x80 && |buf| >= offset + 2 + (buf[offset + 1] - 0x80) {
      var k := offset + 2 + (buf[offset + 1] - 0x80);
      assert (buf + more)[offset + 2..k] == buf[offset + 2..k];
    }
  }

  // ----- Integers -----

  /** The bytes a do-while loop shifts out: at least one. */
  function IntDigits(n: nat): (ds: Bytes)
    ensures ds != []
  {
    (if ShiftOut(n) > 0 then IntDigits(ShiftOut(n)) else []) + [n % 256]
  }

  function IntContent(n: nat): Bytes {
    if IntDigits(n)[0] >= 0x80 then [0] + IntDigits(n) else IntDigits(n)
  }

  const TAG_INTEGER: Byte := 0x02
  const TAG_OCTET_STRING: Byte := 0x04
  const TAG_UTF8STRING: Byte := 0x0c
  const TAG_SEQUENCE: Byte := 0x30

  function EncodeInteger(n: nat): Bytes {
    EncodeTlv(TAG_INTEGER, IntContent(n))
  }

  function DigitsLeft(n: int): Bytes {
    if n > 0 then IntDigits(n) else []
  }

  lemma OneShift(n: nat, bytes: Bytes)
    ensures DigitsLeft(ShiftOut(n)) + ([n % 256] + bytes) == IntDigits(n) + bytes
  {
  }

  /** The do-while loop: at least one byte. */
  method ShiftOutAll(value: nat) returns (bytes: Bytes)
    ensures bytes == IntDigits(value)
  {
    OneShift(value, []);
    bytes := [value % 256];
    var n := ShiftOut(value);
    assert [value % 256] + [] == bytes && IntDigits(value) + [] == IntDigits(value);
    while n > 0
      invariant DigitsLeft(n) + bytes == IntDigits(value)
      decreases n
    {
      OneShift(n, bytes);
      bytes := [n % 256] + bytes;
      n := ShiftOut(n);
    }
  }

  method EncodeIntegerLoop(value: nat) returns (out: Bytes)
    ensures out == EncodeInteger(value)
  {
    var bytes := ShiftOutAll(value);
    if bytes[0] >= 0x80 {
      bytes := [0] + bytes;
    }
    return EncodeTlv(TAG_INTEGER, bytes);
  }

  lemma {:induction false} IntDigitsDenote(n: nat)
    requires n < TWO31
    ensures BigEndian(IntDigits(n)) == n && |IntDigits(n)| <= 1 + |Digits(n)|
  {
    var ds := IntDigits(n);
    if n >= 256 {
      IntDigitsDenote(n / 256);
      assert ds[..|ds| - 1] == IntDigits(n / 256);
    } else {
      assert ds[..0] == [];
    }
  }

  lemma {:induction false} LeadingZero(bytes: Bytes)
    ensures BigEndian([0] + bytes) == BigEndian(bytes)
  {
    if bytes != [] {
      LeadingZero(bytes[..|bytes| - 1]);
      assert ([0] + bytes)[..|bytes|] == [0] + bytes[..|bytes| - 1];
    } else {
      assert ([0] + bytes)[..0] == [];
    }
  }

  /** The parser's fold over an INTEGER's content undoes the encoder, and the content is never negative. */
  lemma IntegerRoundTrip(n: nat)
    requires n < TWO31
    ensures Accumulate(0, IntContent(n)) == n && IntContent(n)[0] < 0x80 && |IntContent(n)| <= 6
  {
    IntDigitsDenote(n);
    LeadingZero(IntDigits(n));
    DecodedIsWrapped(IntContent(n));
    DigitsAreFew(n, 5);
  }
}
