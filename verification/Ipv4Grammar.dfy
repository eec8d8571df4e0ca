/** The IPv4 hosts as a grammar, stated without the reader: dotted numbers in three bases. */
module Ipv4Grammar {
  import opened UrlChars
  import opened Ipv4Spec

  /** A number: hexadecimal behind "0x" or "0X", octal behind any other leading zero, else decimal. */
  predicate Spells(p: string, v: nat) {
    || (("0x" <= p || "0X" <= p) && AllOfBase(p[2..], Hex) && v == Value(p[2..], Hex))
    || ("0" < p && AllOfBase(p[1..], Oct) && v == Value(p[1..], Oct))
    || (p != "" && AllOfBase(p, Dec) && (p[0] == '0' ==> p == "0") && v == Value(p, Dec))
  }

  function JoinDots(ps: seq<string>): string {
    if ps == [] then ""
    else if |ps| == 1 then ps[0]
    else JoinDots(ps[..|ps| - 1]) + "." + ps[|ps| - 1]
  }

  /** One to four numbers with dots between them, and perhaps one more dot at the end. */
  predicate Spelled(s: string, ps: seq<string>, vs: seq<nat>) {
    && 1 <= |ps| == |vs| <= 4
    && (s == JoinDots(ps) || s == JoinDots(ps) + ".")
    && forall i :: 0 <= i < |ps| ==> Spells(ps[i], vs[i])
  }

  /** The host is made of these numbers. */
  ghost predicate Denotes(s: string, vs: seq<nat>) { exists ps :: Spelled(s, ps, vs) }

  // ---- one number ------------------------------------------------------------------------

  lemma SpellsExactly(p: string, v: nat)
    ensures Spells(p, v) <==> p != "" && IsNumeric(p) && v == PartValue(p)
  {
    hide Value;
    if p == "0" { assert PartDigits(p) == p; }
    if |p| >= 2 && p[0] == '0' && AllOfBase(p[1..], Oct) { assert p[1..][0] == p[1]; }
    if p != "" && AllOfBase(p, Dec) && p[0] != '0' { assert PartDigits(p) == p; }
    if p != "" && PartBase(p) == Dec { assert PartDigits(p) == p; }
  }

  predicate NoDots(p: string) { forall i :: 0 <= i < |p| ==> p[i] != '.' }

  lemma NumbersLook(p: string)
    requires IsNumeric(p)
    ensures NoDots(p) && IPv4Chars(p)
  {
    var k, d := PrefixLen(p), PartDigits(p);
    forall i | 0 <= i < |p| ensures p[i] != '.' && IsIPv4Char(p[i]) {
      if i >= k { assert p[i] == d[i - k]; }
    }
  }

  // ---- the parts ---------------------------------------------------------------------------

  predicate AllWithoutDots(ps: seq<string>) { forall i :: 0 <= i < |ps| ==> NoDots(ps[i]) }

  lemma JoinSnoc(ps: seq<string>, p: string)
    requires ps != []
    ensures JoinDots(ps + [p]) == JoinDots(ps) + "." + p
  {
    assert (ps + [p])[..|ps|] == ps;
  }

  /** Splitting undoes joining. */
  lemma {:induction false} SplitJoin(ps: seq<string>)
    requires ps != [] && AllWithoutDots(ps)
    ensures SplitDots(JoinDots(ps)) == ps
    decreases |ps|
  {
    hide SplitDots;
    var front, p := ps[..|ps| - 1], ps[|ps| - 1];
    if |ps| == 1 {
      SplitOne(p);
    } else {
      SplitJoin(front);
      SplitAfterDot(JoinDots(front), p);
    }
    assert ps == front + [p];
  }

  /** Joining undoes splitting. */
  lemma {:induction false} JoinSplit(s: string)
    ensures JoinDots(SplitDots(s)) == s
    decreases |s|
  {
    if s != "" {
      hide SplitDots, JoinDots;
      var t, c := s[..|s| - 1], s[|s| - 1];
      JoinSplit(t);
      var r := SplitDots(t);
      assert s == t + [c];
      SplitStep(s);
      if c == '.' {
        JoinSnoc(r, "");
        assert t + "." + "" == s;
      } else {
        assert r == r[..|r| - 1] + [r[|r| - 1]];
        JoinLonger(r[..|r| - 1], r[|r| - 1], c);
      }
    }
  }

  lemma {:induction false} NoDotsInPieces(s: string)
    ensures AllWithoutDots(SplitDots(s))
    decreases |s|
  {
    if s != "" {
      NoDotsInPieces(s[..|s| - 1]);
      hide SplitDots;
      SplitStep(s);
    }
  }

  lemma SplitStep(s: string)
    requires s != ""
    ensures
      var r, c := SplitDots(s[..|s| - 1]), s[|s| - 1];
      SplitDots(s) == if c == '.' then r + [""] else r[..|r| - 1] + [r[|r| - 1] + [c]]
  {}

  lemma JoinOne(p: string)
    ensures JoinDots([p]) == p
  {}

  lemma OneMore(x: string, last: string, c: char)
    ensures x + "." + (last + [c]) == x + "." + last + [c]
  {}

  lemma JoinLonger(front: seq<string>, last: string, c: char)
    ensures JoinDots(front + [last + [c]]) == JoinDots(front + [last]) + [c]
  {
    hide JoinDots;
    if front == [] {
      JoinOne(last);
      JoinOne(last + [c]);
      assert front + [last] == [last] && front + [last + [c]] == [last + [c]];
    } else {
      JoinSnoc(front, last);
      JoinSnoc(front, last + [c]);
      OneMore(JoinDots(front), last, c);
    }
  }

  /** The parts of a host are the pieces whose joining, or joining with a final dot, gives it back. */
  lemma PartsJoin(s: string)
    ensures s == JoinDots(Parts(s)) || s == JoinDots(Parts(s)) + "."
    ensures AllWithoutDots(Parts(s))
  {
    hide SplitDots, JoinDots;
    JoinSplit(s);
    NoDotsInPieces(s);
    var r := SplitDots(s);
    if |r| > 1 && r[|r| - 1] == "" {
      var front := r[..|r| - 1];
      assert r == front + [""];
      JoinSnoc(front, "");
      assert JoinDots(front) + "." + "" == JoinDots(front) + ".";
    }
  }

  lemma JoinedParts(s: string, ps: seq<string>)
    requires ps != [] && AllWithoutDots(ps) && ps[|ps| - 1] != ""
    requires s == JoinDots(ps) || s == JoinDots(ps) + "."
    ensures Parts(s) == ps
  {
    hide SplitDots, JoinDots;
    SplitJoin(ps);
    if s == JoinDots(ps) + "." {
      SplitAfterDot(JoinDots(ps), "");
      assert JoinDots(ps) + "." + "" == s;
      assert (ps + [""])[..|ps|] == ps;
    }
  }

  lemma {:induction false} JoinedChars(ps: seq<string>)
    requires forall i :: 0 <= i < |ps| ==> IPv4Chars(ps[i])
    ensures IPv4Chars(JoinDots(ps))
    decreases |ps|
  {
    if |ps| > 1 { JoinedChars(ps[..|ps| - 1]); }
  }

  // ---- the reader against the grammar ---------------------------------------------------------

  lemma DenotedIsRead(s: string, ps: seq<string>, vs: seq<nat>)
    requires Spelled(s, ps, vs)
    ensures Parts(s) == ps && LooksLikeIPv4(s) && AllNumeric(ps) && vs == Values(ps)
  {
    hide Spells, IsNumeric, PartValue, Parts, JoinDots;
    forall i | 0 <= i < |ps| ensures IsNumeric(ps[i]) && vs[i] == PartValue(ps[i]) && ps[i] != "" && NoDots(ps[i])
      ensures IPv4Chars(ps[i])
    {
      SpellsExactly(ps[i], vs[i]);
      NumbersLook(ps[i]);
    }
    JoinedParts(s, ps);
    JoinedChars(ps);
  }

  /** A host is not neutral exactly if it is made of numbers, and then of one list of them only. */
  lemma NumbersExactly(s: string, vs: seq<nat>)
    ensures Denotes(s, vs) <==> Verdict(s) != Neutral && vs == Values(Parts(s))
  {
    hide Spells, IsNumeric, PartValue, Parts, JoinDots, Fits;
    if Denotes(s, vs) {
      var ps :| Spelled(s, ps, vs);
      DenotedIsRead(s, ps, vs);
    }
    if Verdict(s) != Neutral && vs == Values(Parts(s)) {
      var ps := Parts(s);
      PartsJoin(s);
      forall i | 0 <= i < |ps| ensures Spells(ps[i], vs[i]) { SpellsExactly(ps[i], vs[i]); }
      assert Spelled(s, ps, vs);
    }
  }

  lemma NeutralExactly(s: string)
    ensures Verdict(s) == Neutral <==> forall vs :: !Denotes(s, vs)
  {
    hide Denotes, Verdict;
    NumbersExactly(s, Values(Parts(s)));
    forall vs ensures Denotes(s, vs) ==> Verdict(s) != Neutral { NumbersExactly(s, vs); }
  }

  /** The numbers fill four bytes: one each, and the last one all that remain. */
  predicate FillFourBytes(vs: seq<nat>) {
    && 1 <= |vs| <= 4
    && (forall i :: 0 <= i < |vs| - 1 ==> vs[i] < 256)
    && (|vs| == 1 ==> vs[0] < 0x1_0000_0000) && (|vs| == 2 ==> vs[1] < 0x100_0000)
    && (|vs| == 3 ==> vs[2] < 0x1_0000) && (|vs| == 4 ==> vs[3] < 0x100)
  }

  /** The address: every number but the last a byte of its own, from the top. */
  function Address(vs: seq<nat>): nat
    requires 1 <= |vs| <= 4
  {
    vs[|vs| - 1] + (if |vs| > 1 then vs[0] * 0x100_0000 else 0) + (if |vs| > 2 then vs[1] * 0x1_0000 else 0) +
    if |vs| > 3 then vs[2] * 0x100 else 0
  }

  lemma FitsExactly(vs: seq<nat>)
    requires 1 <= |vs| <= 4
    ensures Fits(vs) <==> FillFourBytes(vs)
    ensures AddressNumber(vs) == Address(vs)
  {
    assert Pow(256, 1) == 0x100;
    assert Pow(256, 2) == 0x1_0000;
    assert Pow(256, 3) == 0x100_0000;
    assert Pow(256, 4) == 0x1_0000_0000;
    var front := vs[..|vs| - 1];
    LeadingNumberIs(front);
  }

  lemma LeadingNumberIs(vs: seq<nat>)
    requires |vs| <= 3
    ensures |vs| == 0 ==> LeadingNumber(vs) == 0
    ensures |vs| == 1 ==> LeadingNumber(vs) == vs[0]
    ensures |vs| == 2 ==> LeadingNumber(vs) == vs[0] * 0x100 + vs[1]
    ensures |vs| == 3 ==> LeadingNumber(vs) == vs[0] * 0x1_0000 + vs[1] * 0x100 + vs[2]
  {
    if |vs| > 0 { LeadingNumberIs(vs[..|vs| - 1]); }
  }

  /** A host is an IPv4 address exactly if its numbers fill four bytes, and these bytes are then its number. */
  lemma AddressExactly(s: string, vs: seq<nat>)
    requires Denotes(s, vs)
    ensures Verdict(s) == (if FillFourBytes(vs) then IPv4 else Broken) && |Parts(s)| == |vs|
    ensures FillFourBytes(vs) ==> FromBytes(AddressBytes(Values(Parts(s)))) == Address(vs)
  {
    hide Parts, Fits, AddressBytes, FillFourBytes, AddressNumber, Address;
    NumbersExactly(s, vs);
    Counted(s, vs);
    FitsExactly(vs);
    if Fits(vs) { AddressBytesExact(vs); }
  }

  lemma Counted(s: string, vs: seq<nat>)
    requires Verdict(s) != Neutral && vs == Values(Parts(s))
    ensures 1 <= |vs| <= 4
  {}
}
