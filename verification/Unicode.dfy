/**
 * UTF-8: a decoder that replaces each maximal malformed part by U+FFFD, as the Encoding Standard's does, and
 * its inverse. UTF-16: the code units that the source language's strings consist of, where a `char` here is
 * a Unicode scalar value.
 */
module Unicode {
  import opened Der
  import opened Sorting

  const REPLACEMENT: char := '\U{fffd}'

  /** How many bytes a lead byte announces; none for ASCII and for bytes that cannot lead. */
  function Announced(lead: Byte): nat {
    if 0xc2 <= lead <= 0xdf then 1 else if 0xe0 <= lead <= 0xef then 2 else if 0xf0 <= lead <= 0xf4 then 3 else 0
  }

  /** The second byte is restricted so that no encoding is overlong, a surrogate or out of range. */
  predicate IsSecond(lead: Byte, b: Byte) {
    (if lead == 0xe0 then 0xa0 else if lead == 0xf0 then 0x90 else 0x80) <= b
      <= (if lead == 0xed then 0x9f else if lead == 0xf4 then 0x8f else 0xbf)
  }

  predicate IsContinuation(b: Byte) {
    0x80 <= b <= 0xbf
  }

  /** How many of the announced bytes are there. */
  function Present(b: Bytes): (n: nat)
    requires b != []
    ensures n <= Announced(b[0]) && n < |b|
    ensures n >= 1 ==> IsSecond(b[0], b[1])
    ensures n >= 2 ==> IsContinuation(b[2])
    ensures n >= 3 ==> IsContinuation(b[3])
  {
    var announced := Announced(b[0]);
    if announced == 0 || |b| < 2 || !IsSecond(b[0], b[1]) then 0
    else if announced == 1 || |b| < 3 || !IsContinuation(b[2]) then 1
    else if announced == 2 || |b| < 4 || !IsContinuation(b[3]) then 2
    else 3
  }

  /** The next character, and how many bytes it takes. */
  function Next(b: Bytes): (r: (char, nat))
    requires b != []
    ensures 1 <= r.1 <= |b|
  {
    var n := Present(b);
    if b[0] < 0x80 then (b[0] as char, 1)
    else if n == 0 || n < Announced(b[0]) then (REPLACEMENT, 1 + n)
    else if n == 1 then (Low(b[0], 0xc0, b[1]) as char, 2)
    else if n == 2 then ((Low(b[0], 0xe0, b[1]) * 64 + Six(b[2])) as char, 3)
    else (((Low(b[0], 0xf0, b[1]) * 64 + Six(b[2])) * 64 + Six(b[3])) as char, 4)
  }

  /** The six bits of a continuation byte. */
  function Six(b: Byte): int {
    b as int - 0x80
  }

  function Low(lead: Byte, mark: int, second: Byte): int {
    (lead as int - mark) * 64 + Six(second)
  }

  function Decode(b: Bytes): string
    decreases |b|
  {
    if b == [] then "" else [Next(b).0] + Decode(b[Next(b).1..])
  }

  function EncodeChar(c: char): (b: Bytes)
    ensures b != []
  {
    var n := c as int;
    if n < 0x80 then [n]
    else if n < 0x800 then [0xc0 + n / 64, 0x80 + n % 64]
    else if n < 0x10000 then [0xe0 + n / 64 / 64, 0x80 + n / 64 % 64, 0x80 + n % 64]
    else [0xf0 + n / 64 / 64 / 64, 0x80 + n / 64 / 64 % 64, 0x80 + n / 64 % 64, 0x80 + n % 64]
  }

  function Encode(s: string): Bytes {
    if s == "" then [] else EncodeChar(s[0]) + Encode(s[1..])
  }

  lemma NextReads(c: char, rest: Bytes)
    ensures Next(EncodeChar(c) + rest) == (c, |EncodeChar(c)|)
  {
    var n, b := c as int, EncodeChar(c) + rest;
    var q := n / 64;
    var p := q / 64;
    assert n == q * 64 + n % 64 && q == p * 64 + q % 64;
    if n < 0x800 {
    } else if n < 0x10000 {
      assert b[0] == 0xe0 + p && b[1] == 0x80 + q % 64 && b[2] == 0x80 + n % 64;
      ThreeRead(b, n, p, q);
    } else {
      assert b[0] == 0xf0 + p / 64 && b[1] == 0x80 + p % 64 && b[2] == 0x80 + q % 64 && b[3] == 0x80 + n % 64;
      FourRead(b, n, p, q);
    }
  }

  lemma ThreeRead(b: Bytes, n: int, p: int, q: int)
    requires 0x800 <= n < 0x10000 && !(0xd800 <= n < 0xe000)
    requires n == q * 64 + n % 64 && q == p * 64 + q % 64
    requires |b| >= 3 && b[0] == 0xe0 + p && b[1] == 0x80 + q % 64 && b[2] == 0x80 + n % 64
    ensures Next(b) == (n as char, 3)
  {
  }

  lemma FourRead(b: Bytes, n: int, p: int, q: int)
    requires 0x10000 <= n < 0x110000
    requires n == q * 64 + n % 64 && q == p * 64 + q % 64
    requires |b| >= 4 && b[0] == 0xf0 + p / 64 && b[1] == 0x80 + p % 64 && b[2] == 0x80 + q % 64 && b[3] == 0x80 + n % 64
    ensures Next(b) == (n as char, 4)
  {
  }

  /** Decoding undoes encoding, on every string. */
  lemma {:induction false} DecodeEncode(s: string)
    ensures Decode(Encode(s)) == s
  {
    if s != "" {
      var b, rest := Encode(s), Encode(s[1..]);
      NextReads(s[0], rest);
      DecodeEncode(s[1..]);
      assert b[|EncodeChar(s[0])|..] == rest;
      assert s == [s[0]] + s[1..];
    }
  }

  predicate WellFormed(b: Bytes) {
    Encode(Decode(b)) == b
  }

  /** Well-formed bytes are exactly those that encode some string. */
  lemma WellFormedIff(b: Bytes)
    ensures WellFormed(b) <==> exists s: string :: Encode(s) == b
  {
    if s: string :| Encode(s) == b {
      DecodeEncode(s);
    }
  }

  // ----- ASCII bytes -----

  function ByteCount(b: Bytes, x: Byte): nat {
    if b == [] then 0 else (if b[0] == x then 1 else 0) + ByteCount(b[1..], x)
  }

  function CharCount(s: string, c: char): nat {
    if s == "" then 0 else (if s[0] == c then 1 else 0) + CharCount(s[1..], c)
  }

  lemma {:induction false} ByteCountConcat(a: Bytes, b: Bytes, x: Byte)
    ensures ByteCount(a + b, x) == ByteCount(a, x) + ByteCount(b, x)
    decreases |a|
  {
    if a == [] {
      assert a + b == b;
    } else {
      assert (a + b)[1..] == a[1..] + b;
      ByteCountConcat(a[1..], b, x);
    }
  }

  lemma {:induction false} NoneAbove(b: Bytes, x: Byte)
    requires x < 0x80 && forall i | 0 <= i < |b| :: b[i] >= 0x80
    ensures ByteCount(b, x) == 0
  {
    if b != [] {
      NoneAbove(b[1..], x);
    }
  }

  /** A character that is not ASCII takes no ASCII byte with it. */
  lemma NextIsAscii(b: Bytes)
    requires b != []
    ensures var (c, n) := Next(b);
      if b[0] < 0x80 then c == b[0] as char && n == 1
      else c as int >= 0x80 && forall i | 0 <= i < n :: b[i] >= 0x80
  {
  }

  /** Whatever the bytes, decoding keeps every ASCII byte as the character it is. */
  lemma {:induction false} AsciiIsKept(b: Bytes, x: Byte)
    requires x < 0x80
    ensures CharCount(Decode(b), x as char) == ByteCount(b, x)
    decreases |b|
  {
    if b != [] {
      var (c, n) := Next(b);
      NextIsAscii(b);
      AsciiIsKept(b[n..], x);
      if b[0] >= 0x80 {
        assert b == b[..n] + b[n..];
        ByteCountConcat(b[..n], b[n..], x);
        NoneAbove(b[..n], x);
      }
    }
  }

  lemma {:induction false} DecodeShortens(b: Bytes)
    ensures |Decode(b)| <= |b|
    decreases |b|
  {
    if b != [] {
      DecodeShortens(b[Next(b).1..]);
    }
  }

  // ----- Code units -----

  function CharUnits(c: char): (u: seq<nat>)
    ensures u != []
  {
    var n := c as int;
    if n < 0x10000 then [n] else [0xd800 + (n - 0x10000) / 0x400, 0xdc00 + (n - 0x10000) % 0x400]
  }

  function Utf16(s: string): seq<nat> {
    if s == "" then [] else CharUnits(s[0]) + Utf16(s[1..])
  }

  lemma CharUnitsDiffer(c: char, d: char, u: seq<nat>, v: seq<nat>)
    requires CharUnits(c) + u == CharUnits(d) + v
    ensures c == d && u == v
  {
    var a, b := CharUnits(c) + u, CharUnits(d) + v;
    assert a[0] == CharUnits(c)[0] && b[0] == CharUnits(d)[0];
    if c as int >= 0x10000 {
      assert a[1] == CharUnits(c)[1] && b[1] == CharUnits(d)[1];
    }
    assert u == a[|CharUnits(c)|..] && v == b[|CharUnits(d)|..];
  }

  /** Different strings have different code units. */
  lemma {:induction false} Utf16IsFaithful(s: string, t: string)
    requires Utf16(s) == Utf16(t)
    ensures s == t
  {
    if s != "" && t != "" {
      CharUnitsDiffer(s[0], t[0], Utf16(s[1..]), Utf16(t[1..]));
      Utf16IsFaithful(s[1..], t[1..]);
      assert s == [s[0]] + s[1..] && t == [t[0]] + t[1..];
    }
  }

  lemma {:induction false} UnitIsChar(s: string, c: char)
    requires c as int < 0x80
    ensures c as nat in Utf16(s) <==> c in s
  {
    if s != "" {
      UnitIsChar(s[1..], c);
      assert c in s <==> c == s[0] || c in s[1..];
    }
  }

  /** Code units never outnumber UTF-8 bytes, and count them exactly for ASCII text. */
  lemma {:induction false} UnitsAreBytesIff(s: string)
    ensures |Utf16(s)| <= |Encode(s)|
    ensures |Utf16(s)| == |Encode(s)| <==> forall i | 0 <= i < |s| :: s[i] as int < 0x80
  {
    if s != "" {
      UnitsAreBytesIff(s[1..]);
    }
  }

  predicate UnitsLeq(a: seq<nat>, b: seq<nat>) {
    a == [] || (b != [] && (a[0] < b[0] || (a[0] == b[0] && UnitsLeq(a[1..], b[1..]))))
  }

  /** Code-unit order, as the source language compares strings. */
  predicate StringLeq(a: string, b: string) {
    UnitsLeq(Utf16(a), Utf16(b))
  }

  lemma {:induction false} UnitsLeqTotal(a: seq<nat>, b: seq<nat>)
    ensures UnitsLeq(a, b) || UnitsLeq(b, a)
  {
    if a != [] && b != [] {
      UnitsLeqTotal(a[1..], b[1..]);
    }
  }

  lemma {:induction false} UnitsLeqTransitive(a: seq<nat>, b: seq<nat>, c: seq<nat>)
    requires UnitsLeq(a, b) && UnitsLeq(b, c)
    ensures UnitsLeq(a, c)
  {
    if a != [] && a[0] == b[0] == c[0] {
      UnitsLeqTransitive(a[1..], b[1..], c[1..]);
    }
  }

  lemma StringLeqIsOrder()
    ensures TotalPreorder(StringLeq)
  {
    forall a, b
      ensures StringLeq(a, b) || StringLeq(b, a)
    {
      UnitsLeqTotal(Utf16(a), Utf16(b));
    }
    forall a, b, c | StringLeq(a, b) && StringLeq(b, c)
      ensures StringLeq(a, c)
    {
      UnitsLeqTransitive(Utf16(a), Utf16(b), Utf16(c));
    }
  }
}
