/** Character classes and number text used by the URL canonicalizer. */
module UrlChars {

  type Byte = x: int | 0 <= x < 256

  /** A piece of a larger text; `len == -1` means the piece is absent. */
  datatype Component = Component(begin: int, len: int) {
    function End(): int { begin + len }
    predicate IsValid() { len != -1 }
    predicate IsNonempty() { len > 0 }

    /** The component lies inside a text of `n` characters. */
    predicate Within(n: nat) { 0 <= begin && -1 <= len && begin + len <= n }

    function Of(spec: string): string
      requires Within(|spec|)
    {
      if len <= 0 then "" else spec[begin..begin + len]
    }
  }

  const NO_COMPONENT := Component(0, -1)

  datatype Base = Oct | Dec | Hex {
    function Radix(): int { if Hex? then 16 else if Dec? then 10 else 8 }
  }

  predicate IsHexChar(c: char) { '0' <= c <= '9' || 'a' <= c <= 'f' || 'A' <= c <= 'F' }

  predicate IsIPv4Char(c: char) { IsHexChar(c) || c == '.' || c == 'x' || c == 'X' }

  predicate IsCharOfBase(c: char, base: Base) {
    match base
    case Oct => '0' <= c <= '7'
    case Dec => '0' <= c <= '9'
    case Hex => IsHexChar(c)
  }

  predicate AllOfBase(s: string, base: Base) {
    forall i :: 0 <= i < |s| ==> IsCharOfBase(s[i], base)
  }

  function DigitValue(c: char): (v: int)
    ensures 0 <= v < 16
    ensures forall base: Base :: IsCharOfBase(c, base) ==> v < base.Radix()
  {
    if '0' <= c <= '9' then c as int - '0' as int
    else if 'a' <= c <= 'f' then c as int - 'a' as int + 10
    else if 'A' <= c <= 'F' then c as int - 'A' as int + 10
    else 0
  }

  /** The exact, unbounded number written by the digits of `s`. */
  function Value(s: string, base: Base): (v: nat)
  {
    if s == "" then 0
    else Value(s[..|s| - 1], base) * base.Radix() + DigitValue(s[|s| - 1])
  }

  function Pow(b: nat, e: nat): nat {
    if e == 0 then 1 else b * Pow(b, e - 1)
  }

  // ---- cutting texts ------------------------------------------------------

  lemma CutAt(s: string, i: nat, j: nat, k: nat)
    requires i <= j <= k <= |s|
    ensures s[i..k] == s[i..j] + s[j..k]
  {}

  lemma CutNext(s: string, i: nat, j: nat)
    requires i <= j < |s|
    ensures s[i..j + 1] == s[i..j] + [s[j]]
  {}

  // ---- powers and values --------------------------------------------------

  lemma MulMono(a: int, b: int, k: int)
    requires a <= b && 0 <= k
    ensures a * k <= b * k
  {}

  lemma Regroup(v: int, p: int, w: int, r: int)
    ensures (v * p + w) * r == v * (r * p) + w * r
  {}

  /** Splitting a digit text: the front weighs one power of the base per digit behind it. */
  lemma {:induction false} ValueSplit(s: string, k: nat, base: Base)
    requires k <= |s|
    ensures Value(s, base) == Value(s[..k], base) * Pow(base.Radix(), |s| - k) + Value(s[k..], base)
    decreases |s|
  {
    hide Value, Pow, DigitValue;
    PowStep(base.Radix(), |s| - k);
    if k == |s| {
      assert s[..k] == s;
      ValueStep(s[k..], base);
    } else {
      var t := s[..|s| - 1];
      ValueSplit(t, k, base);
      assert t[..k] == s[..k];
      assert s[k..][..|s[k..]| - 1] == t[k..];
      ValueStep(s, base);
      ValueStep(s[k..], base);
      Regroup(Value(s[..k], base), Pow(base.Radix(), |t| - k), Value(t[k..], base), base.Radix());
    }
  }

  lemma ValueStep(s: string, base: Base)
    ensures Value(s, base) ==
      if s == "" then 0 else Value(s[..|s| - 1], base) * base.Radix() + DigitValue(s[|s| - 1])
  {}

  lemma PowStep(b: nat, e: nat)
    ensures Pow(b, e) == if e == 0 then 1 else b * Pow(b, e - 1)
  {}

  lemma {:induction false} ValueUpperBound(s: string, base: Base)
    requires AllOfBase(s, base)
    ensures Value(s, base) < Pow(base.Radix(), |s|)
  {
    if s != "" {
      ValueUpperBound(s[..|s| - 1], base);
      MulMono(Value(s[..|s| - 1], base) + 1, Pow(base.Radix(), |s| - 1), base.Radix());
    }
  }

  lemma {:induction false} ZerosValue(s: string, base: Base)
    requires forall i :: 0 <= i < |s| ==> s[i] == '0'
    ensures Value(s, base) == 0
  {
    if s != "" { ZerosValue(s[..|s| - 1], base); }
  }

  lemma {:induction false} PowMono(b: nat, m: nat, n: nat)
    requires 1 <= b && m <= n
    ensures 1 <= Pow(b, m) <= Pow(b, n)
    decreases n
  {
    if n > m {
      PowMono(b, m, n - 1);
      MulMono(1, b, Pow(b, n - 1));
    } else if m > 0 {
      PowMono(b, m - 1, n - 1);
      MulMono(1, Pow(b, m - 1), b);
    }
  }

  lemma {:induction false} PowAdd(b: nat, m: nat, n: nat)
    ensures Pow(b, m + n) == Pow(b, m) * Pow(b, n)
    decreases m
  {
    if m > 0 {
      PowAdd(b, m - 1, n);
      assert b * (Pow(b, m - 1) * Pow(b, n)) == b * Pow(b, m - 1) * Pow(b, n);
    }
  }

  lemma {:induction false} PowBase(a: nat, b: nat, n: nat)
    requires a <= b
    ensures Pow(a, n) <= Pow(b, n)
    decreases n
  {
    if n > 0 {
      PowBase(a, b, n - 1);
      MulMono(a, b, Pow(a, n - 1));
      MulMono(Pow(a, n - 1), Pow(b, n - 1), b);
    }
  }

  /** A text whose first digit is not zero is at least the base to the number of later digits. */
  lemma ValueLowerBound(s: string, base: Base)
    requires s != "" && IsCharOfBase(s[0], base) && s[0] != '0'
    ensures Value(s, base) >= Pow(base.Radix(), |s| - 1)
  {
    ValueSplit(s, 1, base);
    assert s[..1] == [s[0]];
    assert s[..1][..0] == "";
    assert Value(s[..1], base) == DigitValue(s[0]);
    MulMono(1, DigitValue(s[0]), Pow(base.Radix(), |s| - 1));
  }

  /** Value of the first character dropped when it is zero. */
  lemma LeadingZeros(s: string, k: nat, base: Base)
    requires k <= |s| && forall i :: 0 <= i < k ==> s[i] == '0'
    ensures Value(s, base) == Value(s[k..], base)
  {
    ValueSplit(s, k, base);
    ZerosValue(s[..k], base);
  }

  // ---- number to text -----------------------------------------------------

  predicate IsLowerDigit(c: char) { '0' <= c <= '9' || 'a' <= c <= 'f' }

  function DigitChar(d: int): (c: char)
    requires 0 <= d < 16
    ensures DigitValue(c) == d && IsHexChar(c) && (d < 10 ==> '0' <= c <= '9') && (c == '0' <==> d == 0)
    ensures IsLowerDigit(c)
  {
    if d < 10 then ('0' as int + d) as char else ('a' as int + d - 10) as char
  }

  /** The text `snprintf` writes with "%d" (decimal) or "%x" (lower-case hexadecimal). */
  function NumberText(n: nat, base: Base): (s: string)
    requires base != Oct
    ensures s != "" && AllOfBase(s, base) && Value(s, base) == n
    ensures s[0] == '0' ==> n == 0 && s == "0"
    decreases n
  {
    var r := base.Radix();
    if n < r then
      var s := [DigitChar(n)];
      assert s[..0] == "";
      s
    else
      var front := NumberText(n / r, base);
      var s := front + [DigitChar(n % r)];
      assert s[..|s| - 1] == front;
      s
  }

  /** No digit is written in upper case. */
  lemma {:induction false} NumberTextIsLower(n: nat, base: Base, i: nat)
    requires base != Oct && i < |NumberText(n, base)|
    ensures IsLowerDigit(NumberText(n, base)[i])
    decreases n
  {
    hide Value, AllOfBase;
    var r, s := base.Radix(), NumberText(n, base);
    if n >= r && i < |s| - 1 { NumberTextIsLower(n / r, base, i); }
  }

  /** The shortest way to write a number: no leading zero, no upper-case digit. */
  predicate IsMinimal(t: string, base: Base) {
    && t != "" && AllOfBase(t, base) && (t[0] == '0' ==> t == "0")
    && forall i :: 0 <= i < |t| ==> IsLowerDigit(t[i])
  }

  /** Each digit stands for its place in the list of digits, in either case. */
  lemma DigitValueExactly(c: char)
    requires IsHexChar(c)
    ensures var v := DigitValue(c); "0123456789abcdef"[v] == c || "0123456789ABCDEF"[v] == c
  {}

  lemma LowerDigit(c: char)
    requires IsLowerDigit(c)
    ensures DigitChar(DigitValue(c)) == c
  {}

  lemma QuotientAndRest(v: nat, r: nat, d: nat)
    requires d < r && (r == 10 || r == 16)
    ensures (v * r + d) / r == v && (v * r + d) % r == d
  {}

  /** The printed text is the one and only minimal text that reads as the number. */
  lemma NumberTextExactly(t: string, n: nat, base: Base)
    requires base != Oct
    ensures t == NumberText(n, base) <==> IsMinimal(t, base) && Value(t, base) == n
  {
    if t == NumberText(n, base) {
      forall i | 0 <= i < |t| ensures IsLowerDigit(t[i]) { NumberTextIsLower(n, base, i); }
    }
    if IsMinimal(t, base) && Value(t, base) == n { MinimalIsPrinted(t, n, base); }
  }

  lemma NumberTextStep(n: nat, base: Base)
    requires base != Oct
    ensures
      var r := base.Radix();
      NumberText(n, base) == if n < r then [DigitChar(n)] else NumberText(n / r, base) + [DigitChar(n % r)]
  {}

  lemma {:induction false} MinimalIsPrinted(t: string, n: nat, base: Base)
    requires base != Oct && IsMinimal(t, base) && Value(t, base) == n
    ensures t == NumberText(n, base)
    decreases |t|
  {
    hide Value, Pow, NumberText;
    var r, front, c := base.Radix(), t[..|t| - 1], t[|t| - 1];
    NumberTextStep(n, base);
    ValueStep(t, base);
    ValueStep(front, base);
    LowerDigit(c);
    assert IsCharOfBase(c, base);
    if |t| == 1 {
      assert t == [c];
    } else {
      ValueLowerBound(front, base);
      PowMono(r, 0, |front| - 1);
      QuotientAndRest(Value(front, base), r, DigitValue(c));
      MulMono(1, Value(front, base), r);
      MinimalIsPrinted(front, n / r, base);
      assert t == front + [c];
    }
  }

  lemma DivBound(n: nat, r: nat, p: nat)
    requires 0 < r && n < r * p
    ensures n / r < p
  {}

  /** How many characters a number needs: fewer than the base to the e needs at most e. */
  lemma {:induction false} NumberTextLength(n: nat, base: Base, e: nat)
    requires base != Oct && 1 <= e && n < Pow(base.Radix(), e)
    ensures |NumberText(n, base)| <= e
    decreases e
  {
    var r := base.Radix();
    if n >= r {
      DivBound(n, r, Pow(r, e - 1));
      NumberTextLength(n / r, base, e - 1);
    }
  }
}
