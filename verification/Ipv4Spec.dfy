/** What the IPv4 reader promises, stated on whole strings and exact numbers. */
module Ipv4Spec {
  import opened UrlChars

  datatype Family = Neutral | Broken | IPv4 | IPv6

  const MAX_UINT32: nat := 0xFFFF_FFFF

  // ---- one dotted part ------------------------------------------------------

  /** "0x" starts a hexadecimal part, any other "0" followed by more an octal one. */
  function PartBase(p: string): Base {
    if |p| < 2 || p[0] != '0' then Dec
    else if p[1] == 'x' || p[1] == 'X' then Hex
    else Oct
  }

  function PrefixLen(p: string): (k: nat)
    ensures k <= |p|
  {
    if PartBase(p) == Hex then 2 else if PartBase(p) == Oct then 1 else 0
  }

  function PartDigits(p: string): string { p[PrefixLen(p)..] }

  predicate IsNumeric(p: string) { AllOfBase(PartDigits(p), PartBase(p)) }

  function PartValue(p: string): nat { Value(PartDigits(p), PartBase(p)) }

  // ---- the parts of a host --------------------------------------------------

  /** The pieces between the dots; one more piece than there are dots. */
  function SplitDots(s: string): (r: seq<string>)
    ensures |r| >= 1
  {
    if s == "" then [""]
    else
      var r, c := SplitDots(s[..|s| - 1]), s[|s| - 1];
      if c == '.' then r + [""] else r[..|r| - 1] + [r[|r| - 1] + [c]]
  }

  /** The pieces, without the empty one that a final dot leaves. */
  function Parts(s: string): (ps: seq<string>)
    ensures |ps| >= 1
  {
    var r := SplitDots(s);
    if |r| > 1 && r[|r| - 1] == "" then r[..|r| - 1] else r
  }

  predicate IPv4Chars(s: string) { forall i :: 0 <= i < |s| ==> IsIPv4Char(s[i]) }

  /** One to four nonempty parts made only of characters an IPv4 host may hold. */
  predicate LooksLikeIPv4(s: string) {
    && IPv4Chars(s)
    && |Parts(s)| <= 4
    && forall i :: 0 <= i < |Parts(s)| ==> Parts(s)[i] != ""
  }

  predicate AllNumeric(ps: seq<string>) { forall i :: 0 <= i < |ps| ==> IsNumeric(ps[i]) }

  function Values(ps: seq<string>): seq<nat> { seq(|ps|, i requires 0 <= i < |ps| => PartValue(ps[i])) }

  // ---- the address ----------------------------------------------------------

  /** All but the last value fill one byte each; the last one fills the rest. */
  predicate Fits(vs: seq<nat>)
    requires 1 <= |vs| <= 4
  {
    && (forall i :: 0 <= i < |vs| - 1 ==> vs[i] <= 255)
    && vs[|vs| - 1] < Pow(256, 5 - |vs|)
  }

  /** The big-endian number of a byte string. */
  function FromBytes(b: seq<Byte>): nat {
    if b == [] then 0 else FromBytes(b[..|b| - 1]) * 256 + b[|b| - 1]
  }

  /** The low k bytes of n, most significant first. */
  function ToBytes(n: nat, k: nat): (b: seq<Byte>)
    ensures |b| == k
  {
    if k == 0 then [] else ToBytes(n / 256, k - 1) + [n % 256]
  }

  function LeadingBytes(vs: seq<nat>): (b: seq<Byte>)
    requires forall i :: 0 <= i < |vs| ==> vs[i] <= 255
    ensures |b| == |vs| && forall i :: 0 <= i < |b| ==> b[i] == vs[i]
  {
    seq(|vs|, i requires 0 <= i < |vs| => vs[i])
  }

  function AddressBytes(vs: seq<nat>): (b: seq<Byte>)
    requires 1 <= |vs| <= 4 && Fits(vs)
    ensures |b| == 4
  {
    LeadingBytes(vs[..|vs| - 1]) + ToBytes(vs[|vs| - 1], 5 - |vs|)
  }

  /** The 32-bit number a list of values denotes: every leading value weighs its own byte. */
  function AddressNumber(vs: seq<nat>): nat
    requires 1 <= |vs| <= 4
  {
    LeadingNumber(vs[..|vs| - 1]) * Pow(256, 5 - |vs|) + vs[|vs| - 1]
  }

  function LeadingNumber(vs: seq<nat>): nat {
    if vs == [] then 0 else LeadingNumber(vs[..|vs| - 1]) * 256 + vs[|vs| - 1]
  }

  /** The verdict on a host text. */
  function Verdict(s: string): (f: Family)
    ensures f != IPv6
  {
    if !LooksLikeIPv4(s) || !AllNumeric(Parts(s)) then Neutral
    else if Fits(Values(Parts(s))) then IPv4
    else Broken
  }

  // ---- facts ----------------------------------------------------------------

  lemma {:induction false} FromToBytes(n: nat, k: nat)
    requires n < Pow(256, k)
    ensures FromBytes(ToBytes(n, k)) == n
  {
    if k > 0 {
      DivBound(n, 256, Pow(256, k - 1));
      FromToBytes(n / 256, k - 1);
      var b := ToBytes(n, k);
      assert b[..|b| - 1] == ToBytes(n / 256, k - 1);
    }
  }

  lemma {:induction false} ToFromBytes(b: seq<Byte>)
    ensures ToBytes(FromBytes(b), |b|) == b
  {
    if b != [] {
      ToFromBytes(b[..|b| - 1]);
      var n := FromBytes(b);
      assert n / 256 == FromBytes(b[..|b| - 1]) && n % 256 == b[|b| - 1];
    }
  }

  lemma {:induction false} FromBytesBound(b: seq<Byte>)
    ensures FromBytes(b) < Pow(256, |b|)
  {
    if b != [] {
      FromBytesBound(b[..|b| - 1]);
      MulMono(FromBytes(b[..|b| - 1]) + 1, Pow(256, |b| - 1), 256);
    }
  }

  lemma {:induction false} FromBytesAppend(a: seq<Byte>, b: seq<Byte>)
    ensures FromBytes(a + b) == FromBytes(a) * Pow(256, |b|) + FromBytes(b)
  {
    if b == [] {
      assert a + b == a;
    } else {
      var c := b[..|b| - 1];
      FromBytesAppend(a, c);
      assert (a + b)[..|a + b| - 1] == a + c;
      Regroup(FromBytes(a), Pow(256, |c|), FromBytes(c), 256);
    }
  }

  lemma {:induction false} LeadingBytesNumber(vs: seq<nat>)
    requires forall i :: 0 <= i < |vs| ==> vs[i] <= 255
    ensures FromBytes(LeadingBytes(vs)) == LeadingNumber(vs)
  {
    if vs != [] {
      LeadingBytesNumber(vs[..|vs| - 1]);
      assert LeadingBytes(vs)[..|vs| - 1] == LeadingBytes(vs[..|vs| - 1]);
    }
  }

  /** The stored bytes are exactly the number the text denotes. */
  lemma AddressBytesExact(vs: seq<nat>)
    requires 1 <= |vs| <= 4 && Fits(vs)
    ensures FromBytes(AddressBytes(vs)) == AddressNumber(vs) <= MAX_UINT32
  {
    var n := |vs|;
    LeadingBytesNumber(vs[..n - 1]);
    FromToBytes(vs[n - 1], 5 - n);
    FromBytesAppend(LeadingBytes(vs[..n - 1]), ToBytes(vs[n - 1], 5 - n));
    FromBytesBound(AddressBytes(vs));
    assert Pow(256, 4) == 0x1_0000_0000;
  }

  /** Splitting a longer text only extends the piece in progress and adds pieces after it. */
  lemma {:induction false} SplitExtends(s: string, i: nat)
    requires i <= |s|
    ensures var a, b := SplitDots(s[..i]), SplitDots(s);
      |a| <= |b| && a[..|a| - 1] == b[..|a| - 1] && a[|a| - 1] <= b[|a| - 1]
    decreases |s|
  {
    if i == |s| {
      assert s[..i] == s;
    } else {
      SplitExtends(s[..|s| - 1], i);
      assert s[..|s| - 1][..i] == s[..i];
    }
  }

  lemma SplitSnoc(s: string, c: char)
    requires c != '.'
    ensures var r := SplitDots(s); SplitDots(s + [c]) == r[..|r| - 1] + [r[|r| - 1] + [c]]
  {
    assert (s + [c])[..|s|] == s;
  }

  /** A dot-free text behind another one extends its last piece. */
  lemma {:induction false} SplitAppend(s: string, p: string)
    requires forall i :: 0 <= i < |p| ==> p[i] != '.'
    ensures var r := SplitDots(s); SplitDots(s + p) == r[..|r| - 1] + [r[|r| - 1] + p]
    decreases |p|
  {
    hide SplitDots;
    var r := SplitDots(s);
    if p == "" {
      assert s + p == s && r[|r| - 1] + p == r[|r| - 1];
    } else {
      SplitSnoc(s, p[0]);
      SplitAppend(s + [p[0]], p[1..]);
      assert s + [p[0]] + p[1..] == s + p;
      assert r[|r| - 1] + [p[0]] + p[1..] == r[|r| - 1] + p;
    }
  }

  lemma SplitAfterDot(s: string, p: string)
    requires forall i :: 0 <= i < |p| ==> p[i] != '.'
    ensures SplitDots(s + "." + p) == SplitDots(s) + [p]
  {
    var t := s + ".";
    assert t[..|t| - 1] == s;
    SplitAppend(t, p);
    assert "" + p == p;
    assert (SplitDots(s) + [""])[..|SplitDots(s)|] == SplitDots(s);
  }

  lemma SplitOne(p: string)
    requires forall i :: 0 <= i < |p| ==> p[i] != '.'
    ensures SplitDots(p) == [p]
  {
    SplitAppend("", p);
    assert "" + p == p;
    assert SplitDots("") == [""];
  }
}
