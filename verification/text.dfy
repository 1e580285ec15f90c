/**
 * The pieces of Kotlin's string library the modelled code relies on:
 * `isBlank`, `trim`, `toString`/`padStart` on integers, `toInt`/`toIntOrNull`
 * and `split`. Strings are sequences of Dafny characters (Unicode scalar
 * values), not of the JVM's UTF-16 code units, so a character outside the
 * Basic Multilingual Plane counts once here and twice there; no modelled
 * result depends on string lengths beyond ASCII text. Only ASCII decimal
 * digits are modelled as digits.
 */
module Text {
  import opened Errors

  /**
   * Kotlin's `Char.isWhitespace()` on the JVM: `Character.isWhitespace` or
   * `Character.isSpaceChar`, i.e. the ASCII controls TAB..CR and FS..US, and
   * every Unicode space, line and paragraph separator.
   */
  predicate IsWhitespace(c: char) {
    || c == ' '
    || ('\t' <= c <= '\r')
    || ('\U{1C}' <= c <= '\U{1F}')
    || c == '\U{A0}'
    || c == '\U{1680}'
    || ('\U{2000}' <= c <= '\U{200A}')
    || c == '\U{2028}'
    || c == '\U{2029}'
    || c == '\U{202F}'
    || c == '\U{205F}'
    || c == '\U{3000}'
  }

  /** Kotlin's `isBlank()`: empty or whitespace only. */
  predicate IsBlank(s: string) {
    forall i | 0 <= i < |s| :: IsWhitespace(s[i])
  }

  /** A string with a digit in it is not blank. */
  lemma DigitNotBlank(s: string, i: nat)
    requires i < |s| && IsDigit(s[i])
    ensures !IsBlank(s)
  {
  }

  /** Every character of `s` from `lo` (inclusive) to `hi` (exclusive) is whitespace. */
  predicate BlankBetween(s: string, lo: nat, hi: nat)
    requires lo <= hi <= |s|
  {
    forall i | lo <= i < hi :: IsWhitespace(s[i])
  }

  /** End of the run of whitespace that starts at `i`. */
  function BlankRunEnd(s: string, i: nat): (k: nat)
    requires i <= |s|
    ensures i <= k <= |s|
    ensures BlankBetween(s, i, k)
    ensures k == |s| || !IsWhitespace(s[k])
    decreases |s| - i
  {
    if i < |s| && IsWhitespace(s[i]) then BlankRunEnd(s, i + 1) else i
  }

  /** Start of the run of whitespace that ends at `j`, not going below `lo`. */
  function BlankRunStart(s: string, lo: nat, j: nat): (k: nat)
    requires lo <= j <= |s|
    ensures lo <= k <= j
    ensures BlankBetween(s, k, j)
    ensures k == lo || !IsWhitespace(s[k - 1])
    decreases j
  {
    if j > lo && IsWhitespace(s[j - 1]) then BlankRunStart(s, lo, j - 1) else j
  }

  /**
   * Kotlin's `trim()`: the infix of `s` left once the leading and the trailing
   * whitespace are cut away.
   */
  function Trim(s: string): (r: string)
    ensures IsBlank(s) <==> r == []
    ensures r != [] ==> !IsWhitespace(r[0]) && !IsWhitespace(r[|r| - 1])
    ensures var a := BlankRunEnd(s, 0);
              && a + |r| <= |s|
              && r == s[a..a + |r|]
              && BlankBetween(s, 0, a)
              && BlankBetween(s, a + |r|, |s|)
  {
    var a := BlankRunEnd(s, 0);
    var b := BlankRunStart(s, a, |s|);
    s[a..b]
  }

  /** Trimming keeps a text blank or non-blank. */
  lemma TrimBlank(s: string)
    ensures IsBlank(Trim(s)) <==> IsBlank(s)
  {
    var r := Trim(s);
    if r != [] {
      assert !IsWhitespace(r[0]);
    }
  }

  /** No whitespace at either end: what `trim()` returns. */
  predicate Trimmed(s: string) {
    s == [] || (!IsWhitespace(s[0]) && !IsWhitespace(s[|s| - 1]))
  }

  /** A text with no whitespace at either end trims to itself. */
  lemma TrimTrimmed(s: string)
    requires Trimmed(s)
    ensures Trim(s) == s
  {
    if s != [] {
      assert BlankRunEnd(s, 0) == 0;
      assert BlankRunStart(s, 0, |s|) == |s|;
      assert s[0..|s|] == s;
    }
  }

  /** Trimming twice is trimming once. */
  lemma TrimIdempotent(s: string)
    ensures Trim(Trim(s)) == Trim(s)
  {
    TrimTrimmed(Trim(s));
  }

  // ---------------------------------------------------------------------------
  // Decimal digits and integer rendering

  predicate IsDigit(c: char) {
    '0' <= c <= '9'
  }

  predicate AllDigits(s: string) {
    forall i | 0 <= i < |s| :: IsDigit(s[i])
  }

  function DigitValue(c: char): nat
    requires IsDigit(c)
  {
    (c as int) - ('0' as int)
  }

  function DigitChar(d: nat): (c: char)
    requires d < 10
    ensures IsDigit(c) && DigitValue(c) == d
  {
    (('0' as int) + d) as char
  }

  /** The value of a string of decimal digits, most significant first. */
  function DigitsValue(s: string): nat
    requires AllDigits(s)
    decreases |s|
  {
    if s == [] then 0 else DigitsValue(s[..|s| - 1]) * 10 + DigitValue(s[|s| - 1])
  }

  /**
   * `Int.toString()` of a non-negative value: decimal digits with no leading
   * zero, reading back as `n`.
   */
  function NatToString(n: nat): (r: string)
    ensures AllDigits(r) && |r| >= 1
    ensures DigitsValue(r) == n
    ensures |r| > 1 ==> r[0] != '0'
    ensures n < 10 <==> |r| == 1
    decreases n
  {
    if n < 10 then [DigitChar(n)]
    else
      var prefix := NatToString(n / 10);
      var r := prefix + [DigitChar(n % 10)];
      assert r[..|r| - 1] == prefix;
      r
  }

  function Pow10(k: nat): (p: nat)
    ensures p >= 1
  {
    if k == 0 then 1 else 10 * Pow10(k - 1)
  }

  /** A string of `k` digits has a value below `10^k`. */
  lemma {:induction false} DigitsValueBound(s: string)
    requires AllDigits(s)
    ensures DigitsValue(s) < Pow10(|s|)
    decreases |s|
  {
    if s != [] {
      DigitsValueBound(s[..|s| - 1]);
    }
  }

  /** `toString` of a value in `[10^(w-1), 10^w)` has exactly `w` digits. */
  lemma {:induction false} NatToStringWidth(n: nat, w: nat)
    requires w >= 1 && Pow10(w - 1) <= n < Pow10(w)
    ensures |NatToString(n)| == w
    decreases w
  {
    if w > 1 {
      NatToStringWidth(n / 10, w - 1);
    }
  }

  /** `Int.toString()`: a leading minus for negative values. */
  function IntToString(i: int): (r: string)
    ensures r != []
    ensures i >= 0 ==> r == NatToString(i)
    ensures i < 0 ==> r == "-" + NatToString(-i)
  {
    if i < 0 then "-" + NatToString(-i) else NatToString(i)
  }

  function Repeat(c: char, n: nat): (r: string)
    ensures |r| == n
    ensures forall i | 0 <= i < n :: r[i] == c
  {
    seq(n, _ => c)
  }

  /** Kotlin's `padStart(width, c)`: left-pads `s` with `c` up to `width`. */
  function PadStart(s: string, width: nat, c: char): (r: string)
    ensures |r| == if |s| >= width then |s| else width
    ensures r[|r| - |s|..] == s
    ensures forall i | 0 <= i < |r| - |s| :: r[i] == c
  {
    if |s| >= width then s else Repeat(c, width - |s|) + s
  }

  /** Zero-padding a value below 100 to two places yields its two digits. */
  lemma PadTwoDigits(n: nat)
    requires n < 100
    ensures PadStart(NatToString(n), 2, '0') == [DigitChar(n / 10), DigitChar(n % 10)]
  {
    if n >= 10 {
      assert NatToString(n / 10) == [DigitChar(n / 10)];
    }
  }

  // ---------------------------------------------------------------------------
  // Kotlin `Int` and `String.toIntOrNull()` / `String.toInt()`

  const MinInt: int := -0x8000_0000
  const MaxInt: int := 0x7FFF_FFFF

  predicate InInt(x: int) {
    MinInt <= x <= MaxInt
  }

  /** Two's-complement wrap-around of an unbounded result into Kotlin's `Int`. */
  function WrapInt(x: int): (r: int)
    ensures InInt(r)
    ensures InInt(x) ==> r == x
  {
    if InInt(x) then x else (x - MinInt) % 0x1_0000_0000 + MinInt
  }

  /** The wrapped value differs from the exact one by a multiple of 2^32. */
  lemma WrapIntCongruent(x: int)
    ensures (WrapInt(x) - x) % 0x1_0000_0000 == 0
  {
  }

  /** The digits of a numeral: what follows a leading `+` or `-`, if any. */
  function Magnitude(s: string): string {
    if s != [] && (s[0] == '-' || s[0] == '+') then s[1..] else s
  }

  /** An optional sign followed by at least one ASCII digit. */
  predicate SignedNumeral(s: string) {
    Magnitude(s) != [] && AllDigits(Magnitude(s))
  }

  /** The exact value of a signed numeral, leading zeros and all. */
  function NumeralValue(s: string): int
    requires SignedNumeral(s)
  {
    if s[0] == '-' then -(DigitsValue(Magnitude(s)) as int) else DigitsValue(Magnitude(s))
  }

  /**
   * `toIntOrNull()` (and, with `None` read as a thrown NumberFormatException,
   * `toInt()`): an optional `+` or `-` followed by at least one digit, whose
   * value fits an `Int` (see `ParseIntExact`).
   */
  function ParseInt(s: string): (r: Option<int>)
    ensures r.Some? ==> InInt(r.value)
  {
    if s == [] then None
    else if s[0] == '-' || s[0] == '+' then
      var body := s[1..];
      if body != [] && AllDigits(body) then
        var v: int := if s[0] == '-' then -(DigitsValue(body) as int) else DigitsValue(body);
        if InInt(v) then Some(v) else None
      else None
    else if AllDigits(s) && DigitsValue(s) <= MaxInt then Some(DigitsValue(s))
    else None
  }

  /**
   * Exactly the signed numerals whose value fits an `Int` are read, each as
   * its value: a sign is optional, leading zeros are allowed, and a numeral
   * out of range is refused rather than wrapped.
   */
  lemma ParseIntExact(s: string)
    ensures ParseInt(s).Some? <==> SignedNumeral(s) && InInt(NumeralValue(s))
    ensures ParseInt(s).Some? ==> ParseInt(s).value == NumeralValue(s)
  {
  }

  /**
   * What `toInt` accepts: a digit string, maybe after one sign, whose value
   * carries the sign.
   */
  lemma ParseIntShape(s: string)
    requires ParseInt(s).Some?
    ensures s != [] && AllDigits(if s[0] == '-' || s[0] == '+' then s[1..] else s)
    ensures s[0] == '-' ==> ParseInt(s).value <= 0
    ensures s[0] != '-' ==> ParseInt(s).value >= 0
  {
  }

  /** A non-empty digit string parses to its value when that value fits. */
  lemma ParseDigits(s: string)
    requires s != [] && AllDigits(s) && DigitsValue(s) <= MaxInt
    ensures ParseInt(s) == Some(DigitsValue(s))
  {
  }

  /**
   * Signs and leading zeros are read as Kotlin reads them; a sign alone
   * and the empty text are not numbers.
   */
  lemma ParseIntExamples()
    ensures ParseInt("+7") == Some(7)
    ensures ParseInt("-007") == Some(-7)
    ensures ParseInt("+") == None && ParseInt("") == None
  {
    ParseIntExact("+7");
    ParseIntExact("-007");
    assert Magnitude("-007") == "007";
    assert DigitsValue("007") == 7 by {
      assert "007"[..2] == "00" && "00"[..1] == "0";
    }
  }

  /**
   * A decimal numeral beyond the `Int` range is refused, with or without a
   * sign: `toIntOrNull` does not wrap.
   */
  lemma ParseIntRefusesOverflow(n: nat)
    requires n > MaxInt
    ensures ParseInt(NatToString(n)) == None
    ensures ParseInt("+" + NatToString(n)) == None
    ensures n > MaxInt + 1 ==> ParseInt("-" + NatToString(n)) == None
  {
    var s := NatToString(n);
    ParseIntExact(s);
    ParseIntExact("+" + s);
    ParseIntExact("-" + s);
    assert Magnitude("+" + s) == s && Magnitude("-" + s) == s;
  }

  /** `toInt` undoes `toString` on every `Int`. */
  lemma ParseIntToString(i: int)
    requires InInt(i)
    ensures ParseInt(IntToString(i)) == Some(i)
  {
    if i < 0 {
      var s := IntToString(i);
      assert s[1..] == NatToString(-i);
    } else {
      assert NatToString(i)[0] != '-' && NatToString(i)[0] != '+';
    }
  }

  // ---------------------------------------------------------------------------
  // `split` on a single-character delimiter

  /** Position of the first `c` in `s`. */
  function IndexOfChar(s: string, c: char): (r: Option<nat>)
    ensures r.Some? ==> r.value < |s| && s[r.value] == c
    decreases |s|
  {
    if s == [] then None
    else if s[0] == c then Some(0)
    else
      match IndexOfChar(s[1..], c)
      case None => None
      case Some(i) => Some(i + 1)
  }

  /** `IndexOfChar` finds the first `c`, and finds none exactly when there is none. */
  lemma {:induction false} IndexOfCharFirst(s: string, c: char)
    ensures IndexOfChar(s, c).None? <==> c !in s
    ensures IndexOfChar(s, c).Some? ==> c !in s[..IndexOfChar(s, c).value]
    decreases |s|
  {
    if s != [] && s[0] != c {
      IndexOfCharFirst(s[1..], c);
      assert s == [s[0]] + s[1..];
      match IndexOfChar(s[1..], c)
      case None =>
      case Some(i) =>
        assert s[..i + 1] == [s[0]] + s[1..][..i];
    }
  }

  /** Kotlin's `split(c)`: every piece between delimiters, empty ones included. */
  function Split(s: string, c: char): (r: seq<string>)
    ensures |r| >= 1
    decreases |s|
  {
    match IndexOfChar(s, c)
    case None => [s]
    case Some(i) => [s[..i]] + Split(s[i + 1..], c)
  }

  /** No piece of a split contains the delimiter. */
  lemma {:induction false} SplitPieces(s: string, c: char)
    ensures forall i | 0 <= i < |Split(s, c)| :: c !in Split(s, c)[i]
    decreases |s|
  {
    IndexOfCharFirst(s, c);
    match IndexOfChar(s, c)
    case None =>
    case Some(i) =>
      SplitPieces(s[i + 1..], c);
  }

  /** A string without `c` splits into itself alone. */
  lemma SplitNone(s: string, c: char)
    requires c !in s
    ensures Split(s, c) == [s]
  {
    IndexOfCharFirst(s, c);
  }

  /** Joins pieces with `c` between them. */
  function Join(parts: seq<string>, c: char): string
    requires |parts| >= 1
    decreases |parts|
  {
    if |parts| == 1 then parts[0] else parts[0] + [c] + Join(parts[1..], c)
  }

  /** `split` loses nothing: joining the pieces gives back the string. */
  lemma {:induction false} JoinSplit(s: string, c: char)
    ensures Join(Split(s, c), c) == s
    decreases |s|
  {
    match IndexOfChar(s, c)
    case None =>
    case Some(i) =>
      var a, rest := s[..i], s[i + 1..];
      var tail := Split(rest, c);
      JoinSplit(rest, c);
      var parts := [a] + tail;
      assert Split(s, c) == parts;
      assert parts[0] == a && parts[1..] == tail;
      assert Join(parts, c) == a + [c] + rest;
      assert s == a + [c] + rest;
  }

  /** In `a + [c] + b` with no `c` in `a`, the first `c` is the one after `a`. */
  lemma {:induction false} IndexOfCharAfter(a: string, c: char, b: string)
    requires c !in a
    ensures IndexOfChar(a + [c] + b, c) == Some(|a|)
    decreases |a|
  {
    var s := a + [c] + b;
    if a != [] {
      assert s[1..] == a[1..] + [c] + b;
      IndexOfCharAfter(a[1..], c, b);
    }
  }

  /** Splitting `a + [c] + b`, where `a` has no `c`, yields `a` first. */
  lemma SplitAt(a: string, c: char, b: string)
    requires c !in a
    ensures Split(a + [c] + b, c) == [a] + Split(b, c)
  {
    var s := a + [c] + b;
    IndexOfCharAfter(a, c, b);
    assert s[..|a|] == a;
    assert s[|a| + 1..] == b;
  }
}
