/** Numerals, and splitting text at a separator with its inverse, joining. */
module Text {

  function DigitChar(d: nat): char
    requires d < 16
  {
    if d < 10 then '0' + d as char else 'a' + (d - 10) as char
  }

  predicate IsDigit(c: char) {
    '0' <= c <= '9' || 'a' <= c <= 'f'
  }

  predicate IsBase(base: nat) {
    base == 10 || base == 16
  }

  function Quotient(n: nat, base: nat): nat
    requires IsBase(base)
  {
    if base == 10 then n / 10 else n / 16
  }

  function Remainder(n: nat, base: nat): (d: nat)
    requires IsBase(base)
    ensures d < base
  {
    if base == 10 then n % 10 else n % 16
  }

  /** The numeral of `n`, as `toString(base)` writes it. */
  function Numeral(n: nat, base: nat): (s: string)
    requires IsBase(base)
    ensures s != ""
  {
    if n < base then [DigitChar(n)] else Numeral(Quotient(n, base), base) + [DigitChar(Remainder(n, base))]
  }

  lemma {:induction false} NumeralHasDigits(n: nat, base: nat)
    requires IsBase(base)
    ensures forall c <- Numeral(n, base) :: IsDigit(c)
  {
    if n >= base {
      NumeralHasDigits(Quotient(n, base), base);
    }
  }

  function Decimal(n: nat): string {
    Numeral(n, 10)
  }

  function DigitValue(c: char): nat {
    if '0' <= c <= '9' then (c - '0') as nat else if 'a' <= c <= 'f' then (c - 'a') as nat + 10 else 0
  }

  /** The number a numeral denotes. */
  function Denoted(s: string, base: nat): nat
    requires IsBase(base)
  {
    if s == "" then 0
    else
      var high := Denoted(s[..|s| - 1], base);
      (if base == 10 then high * 10 else high * 16) + DigitValue(s[|s| - 1])
  }

  lemma DigitDenotes(d: nat)
    requires d < 16
    ensures DigitValue(DigitChar(d)) == d
  {
  }

  lemma {:induction false} NumeralDenotes(n: nat, base: nat)
    requires IsBase(base)
    ensures Denoted(Numeral(n, base), base) == n
  {
    var s := Numeral(n, base);
    if n < base {
      DigitDenotes(n);
      assert s[..0] == "";
    } else {
      DigitDenotes(Remainder(n, base));
      NumeralDenotes(Quotient(n, base), base);
      assert s[..|s| - 1] == Numeral(Quotient(n, base), base);
    }
  }

  function Pow10(k: nat): (p: nat)
    ensures p > 0
  {
    if k == 0 then 1 else 10 * Pow10(k - 1)
  }

  /** A large number has a long numeral. */
  lemma {:induction false} DecimalIsLong(n: nat, k: nat)
    requires n >= Pow10(k)
    ensures |Decimal(n)| > k
  {
    if k > 0 {
      DecimalIsLong(n / 10, k - 1);
    }
  }

  function Join(parts: seq<string>, sep: char): string {
    if parts == [] then "" else if |parts| == 1 then parts[0] else parts[0] + [sep] + Join(parts[1..], sep)
  }

  /** The parts of `[c] + s`, given those of `s`. */
  function PushChar(c: char, sep: char, parts: seq<string>): seq<string>
    requires parts != []
  {
    if c == sep then [""] + parts else [[c] + parts[0]] + parts[1..]
  }

  /** At least one part, and one more than there are separators. */
  function Split(s: string, sep: char): (parts: seq<string>)
    ensures parts != [] && forall p <- parts :: sep !in p
  {
    if s == "" then [""] else PushChar(s[0], sep, Split(s[1..], sep))
  }

  lemma PushConcat(c: char, sep: char, a: seq<string>, b: seq<string>)
    requires a != []
    ensures PushChar(c, sep, a + b) == PushChar(c, sep, a) + b
  {
  }

  lemma {:induction false} SplitConcat(s: string, t: string, sep: char)
    ensures Split(s + [sep] + t, sep) == Split(s, sep) + Split(t, sep)
  {
    var u := s + [sep] + t;
    if s == "" {
      assert u[1..] == t;
    } else {
      SplitConcat(s[1..], t, sep);
      assert u[0] == s[0] && u[1..] == s[1..] + [sep] + t;
      PushConcat(s[0], sep, Split(s[1..], sep), Split(t, sep));
    }
  }

  lemma {:induction false} JoinSplit(s: string, sep: char)
    ensures Join(Split(s, sep), sep) == s
  {
    if s != "" {
      JoinSplit(s[1..], sep);
      var parts, rest := Split(s, sep), Split(s[1..], sep);
      assert parts[1..] == if s[0] == sep then rest else rest[1..];
      assert s == [s[0]] + s[1..];
    }
  }

  lemma {:induction false} SplitOne(s: string, sep: char)
    requires sep !in s
    ensures Split(s, sep) == [s]
  {
    if s != "" {
      SplitOne(s[1..], sep);
      assert s == [s[0]] + s[1..];
    }
  }

  lemma {:induction false} SplitJoin(parts: seq<string>, sep: char)
    requires parts != [] && forall p <- parts :: sep !in p
    ensures Split(Join(parts, sep), sep) == parts
  {
    if |parts| == 1 {
      SplitOne(parts[0], sep);
    } else {
      SplitJoin(parts[1..], sep);
      SplitOne(parts[0], sep);
      SplitConcat(parts[0], Join(parts[1..], sep), sep);
    }
  }

  /** `t` occurs in `s` at `i`. */
  predicate OccursAt(s: string, t: string, i: nat) {
    i + |t| <= |s| && s[i..i + |t|] == t
  }

  predicate Contains(s: string, t: string) {
    exists i | 0 <= i <= |s| :: OccursAt(s, t, i)
  }

  /** White space and line terminators, as `\s` and `trim` have them. */
  predicate IsSpace(c: char) {
    || '\U{9}' <= c <= '\U{d}' || c == ' ' || c == '\U{a0}' || c == '\U{1680}' || '\U{2000}' <= c <= '\U{200a}'
    || c == '\U{2028}' || c == '\U{2029}' || c == '\U{202f}' || c == '\U{205f}' || c == '\U{3000}' || c == '\U{feff}'
  }

  function TrimLeft(s: string): (t: string)
    ensures |t| <= |s| && (t != "" ==> !IsSpace(t[0]))
  {
    if s != "" && IsSpace(s[0]) then TrimLeft(s[1..]) else s
  }

  function TrimRight(s: string): (t: string)
    ensures t <= s && (t != "" ==> !IsSpace(t[|t| - 1]))
  {
    if s != "" && IsSpace(s[|s| - 1]) then TrimRight(s[..|s| - 1]) else s
  }

  function Trim(s: string): string {
    TrimLeft(TrimRight(s))
  }
}
