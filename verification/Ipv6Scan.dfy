/**
 * The scan that finds the groups, the gap and the IPv4 tail of a literal, one component
 * at a time, and its agreement with the grammar in both directions.
 */
module Ipv6Scan {
  import opened Wrappers
  import opened UrlChars
  import opened Ipv4Spec
  import opened Ipv6Grammar

  /** Length of the hexadecimal run at the front. */
  function HexRun(s: string): (n: nat)
    ensures n <= |s| && AllHex(s[..n]) && (n < |s| ==> !IsHexChar(s[n]))
  {
    if s == "" || !IsHexChar(s[0]) then 0
    else
      var n := 1 + HexRun(s[1..]);
      assert s[..n] == [s[0]] + s[1..][..n - 1];
      n
  }

  /**
   * Scans from the start of a component. `first` says nothing was consumed yet; `groups`
   * and `gap` are what was found so far.
   */
  function Scan(rest: string, first: bool, groups: seq<string>, gap: Option<nat>): (r: Option<Literal>)
    decreases |rest|
  {
    var e := HexRun(rest);
    if e < |rest| && rest[e] != ':' then
      if IsIPv4Char(rest[e]) then Some(Literal(groups, gap, Some(rest))) else None
    else
      var colon := e < |rest|;
      var pair := e + 1 < |rest| && rest[e + 1] == ':';
      if e > 4 then None
      else if e == 0 && !((pair && first) || (!colon && gap == Some(|groups|))) then None
      else if e > 0 && |groups| >= 8 then None
      else
        var found := if e > 0 then groups + [rest[..e]] else groups;
        if !colon then Some(Literal(found, gap, None))
        else if pair then
          if gap.Some? then None else Scan(rest[e + 2..], false, found, Some(|found|))
        else Scan(rest[e + 1..], false, found, gap)
  }

  /** What a component of length e at a colon or at the end of the text must satisfy. */
  predicate Acceptable(rest: string, e: nat, first: bool, groups: seq<string>, gap: Option<nat>)
    requires e <= |rest|
  {
    && e <= 4
    && (e == 0 ==> (e + 1 < |rest| && rest[e + 1] == ':' && first) || (e == |rest| && gap == Some(|groups|)))
    && (e > 0 ==> |groups| < 8)
  }

  /** One step of the scan at a component of length e that ends at a colon or at the end of the text. */
  lemma ScanStep(rest: string, e: nat, first: bool, groups: seq<string>, gap: Option<nat>)
    requires e <= |rest| && HexRun(rest) == e && (e == |rest| || rest[e] == ':')
    ensures var found := if e > 0 then groups + [rest[..e]] else groups;
      Scan(rest, first, groups, gap) ==
      if !Acceptable(rest, e, first, groups, gap) then None
      else if e == |rest| then Some(Literal(found, gap, None))
      else if e + 1 < |rest| && rest[e + 1] == ':' then
        if gap.Some? then None else Scan(rest[e + 2..], false, found, Some(|found|))
      else Scan(rest[e + 1..], false, found, gap)
  {
    hide HexRun;
  }

  /** The scan at any other character. */
  lemma ScanOther(rest: string, first: bool, groups: seq<string>, gap: Option<nat>)
    requires var e := HexRun(rest); e < |rest| && rest[e] != ':'
    ensures Scan(rest, first, groups, gap) ==
      if IsIPv4Char(rest[HexRun(rest)]) then Some(Literal(groups, gap, Some(rest))) else None
    ensures IsIPv4Char(rest[HexRun(rest)]) ==> IsTail(rest)
  {
    hide HexRun;
  }

  lemma HexRunGroup(rest: string)
    ensures var e := HexRun(rest); 0 < e <= 4 ==> IsGroup(rest[..e])
  {
    hide HexRun;
  }

  /** The whole text between the brackets. */
  function ScanAll(s: string): Option<Literal> {
    if s == "" then None else Scan(s, true, [], None)
  }

  // ---- what the scan finds is in the grammar --------------------------------------

  /** The part of a literal that lies after what was found before. */
  function After(lit: Literal, groups: seq<string>, gap: Option<nat>): (r: (seq<string>, Option<nat>))
    requires groups <= lit.groups
  {
    (Items(lit)[|groups|..],
     if gap.Some? || lit.gap.None? || lit.gap.value < |groups| then None else Some(lit.gap.value - |groups|))
  }

  /** `lit` extends what was found so far, and `rest` is exactly the text of the extension. */
  predicate Extends(lit: Literal, rest: string, groups: seq<string>, gap: Option<nat>) {
    && groups <= lit.groups && |lit.groups| <= 8
    && AllGroups(lit.groups[|groups|..])
    && (lit.v4.Some? ==> IsTail(lit.v4.value))
    && (gap.Some? ==> lit.gap == gap)
    && (gap.None? && lit.gap.Some? ==> |groups| <= lit.gap.value <= |lit.groups|)
    && rest == Text(After(lit, groups, gap).0, After(lit, groups, gap).1)
  }

  predicate Progress(first: bool, groups: seq<string>, gap: Option<nat>) {
    && |groups| <= 8
    && (gap.Some? ==> gap.value <= |groups|)
    && (first ==> groups == [] && gap.None?)
  }

  lemma JoinCons(x: string, items: seq<string>)
    requires items != []
    ensures Join([x] + items) == x + ":" + Join(items)
  {
    assert ([x] + items)[1..] == items;
  }

  lemma TextAfterColon(x: string, items: seq<string>, gap: Option<nat>)
    requires items != [] && (gap.Some? ==> 0 < gap.value <= |items|)
    ensures Text([x] + items, if gap.Some? then Some(gap.value + 1) else None) == x + ":" + Text(items, gap)
  {
    if gap.None? {
      JoinCons(x, items);
    } else {
      var k := gap.value;
      JoinCons(x, items[..k]);
      assert ([x] + items)[..k + 1] == [x] + items[..k] && ([x] + items)[k + 1..] == items[k..];
    }
  }

  lemma TextAfterPair(found: seq<string>, items: seq<string>)
    requires |found| <= 1
    ensures Text(found + items, Some(|found|)) == (if found == [] then "" else found[0]) + "::" + Join(items)
  {
    assert (found + items)[..|found|] == found && (found + items)[|found|..] == items;
  }

  /** A gap right after a colon is refused, and so is a literal that stops there. */
  predicate Continues(lit: Literal, first: bool, groups: seq<string>, gap: Option<nat>) {
    && (!first && gap.None? && lit.gap.Some? ==> lit.gap.value > |groups|)
    && (|Items(lit)| == |groups| ==> gap == Some(|groups|) || (first && lit.gap == Some(0)))
  }

  /** One more group, a single colon, and then the rest. */
  lemma SoundAfterColon(lit: Literal, x: string, rest: string, first: bool, groups: seq<string>, gap: Option<nat>)
    requires Progress(first, groups, gap) && |groups| < 8 && IsGroup(x)
    requires Extends(lit, rest, groups + [x], gap) && Continues(lit, false, groups + [x], gap)
    ensures Extends(lit, x + ":" + rest, groups, gap) && Continues(lit, first, groups, gap)
  {
    var found := groups + [x];
    assert lit.groups[..|found|] == found && Items(lit)[|groups|] == x;
    assert Items(lit)[|groups|..] == [x] + Items(lit)[|found|..];
    assert lit.groups[|groups|..] == [x] + lit.groups[|found|..];
    TextAfterColon(x, After(lit, found, gap).0, After(lit, found, gap).1);
  }

  /** At most one more group, the gap, and then the rest. */
  lemma SoundAfterPair(lit: Literal, added: seq<string>, rest: string, first: bool, groups: seq<string>)
    requires Progress(first, groups, None) && |groups + added| <= 8
    requires |added| <= 1 && AllGroups(added) && (added == [] ==> first)
    requires Extends(lit, rest, groups + added, Some(|groups + added|))
    ensures Extends(lit, (if added == [] then "" else added[0]) + "::" + rest, groups, None)
    ensures Continues(lit, first, groups, None)
  {
    var found := groups + added;
    assert lit.groups[..|found|] == found;
    assert lit.groups[|groups|..] == added + lit.groups[|found|..];
    assert Items(lit)[|groups|..] == added + Items(lit)[|found|..];
    TextAfterPair(added, Items(lit)[|found|..]);
  }

  lemma SoundTail(rest: string, first: bool, groups: seq<string>, gap: Option<nat>)
    requires Progress(first, groups, gap) && IsTail(rest)
    ensures Extends(Literal(groups, gap, Some(rest)), rest, groups, gap)
    ensures Continues(Literal(groups, gap, Some(rest)), first, groups, gap)
  {
    var lit := Literal(groups, gap, Some(rest));
    assert Items(lit)[|groups|..] == [rest];
  }

  lemma SoundEnd(rest: string, first: bool, groups: seq<string>, gap: Option<nat>)
    requires Progress(first, groups, gap)
    requires if rest == "" then gap == Some(|groups|) else IsGroup(rest) && |groups| < 8
    ensures var found := if rest == "" then groups else groups + [rest];
      Extends(Literal(found, gap, None), rest, groups, gap) && Continues(Literal(found, gap, None), first, groups, gap)
  {
    var found := if rest == "" then groups else groups + [rest];
    var lit := Literal(found, gap, None);
    assert Items(lit) == found;
    assert Items(lit)[|groups|..] == if rest == "" then [] else [rest];
    assert lit.groups[|groups|..] == if rest == "" then [] else [rest];
  }

  /** Whatever the scan returns is a literal that spells exactly the scanned text. */
  lemma {:induction false} ScanSound(rest: string, first: bool, groups: seq<string>, gap: Option<nat>)
    requires Progress(first, groups, gap)
    ensures var r := Scan(rest, first, groups, gap);
      r.Some? ==> Extends(r.value, rest, groups, gap) && Continues(r.value, first, groups, gap)
    decreases |rest|
  {
    hide Extends, Continues, HexRun, Scan, IsTail, IsGroup, IsIPv4Char;
    var e := HexRun(rest);
    HexRunGroup(rest);
    var x := rest[..e];
    if e < |rest| && rest[e] != ':' {
      ScanOther(rest, first, groups, gap);
      if IsIPv4Char(rest[e]) { SoundTail(rest, first, groups, gap); }
    } else if Scan(rest, first, groups, gap).Some? {
      ScanStep(rest, e, first, groups, gap);
      var found := if e > 0 then groups + [x] else groups;
      if e == |rest| {
        assert x == rest;
        SoundEnd(rest, first, groups, gap);
      } else if e + 1 < |rest| && rest[e + 1] == ':' {
        var more := rest[e + 2..];
        ScanSound(more, false, found, Some(|found|));
        var added := if e > 0 then [x] else [];
        assert found == groups + added;
        SoundAfterPair(Scan(more, false, found, Some(|found|)).value, added, more, first, groups);
        assert rest == x + "::" + more;
      } else {
        var more := rest[e + 1..];
        ScanSound(more, false, found, gap);
        SoundAfterColon(Scan(more, false, found, gap).value, x, more, first, groups, gap);
        assert rest == x + ":" + more;
      }
    }
  }

  // ---- everything in the grammar is found ---------------------------------------

  lemma {:induction false} HexRunEnds(x: string, y: string)
    requires AllHex(x) && (y == "" || !IsHexChar(y[0]))
    ensures HexRun(x + y) == |x|
    decreases |x|
  {
    if x == "" {
      assert x + y == y;
    } else {
      assert (x + y)[1..] == x[1..] + y;
      HexRunEnds(x[1..], y);
    }
  }

  lemma TextStart(items: seq<string>, gap: Option<nat>)
    requires items != [] && items[0] != "" && (gap.Some? ==> 0 < gap.value <= |items|)
    ensures Text(items, gap) != "" && Text(items, gap)[0] == items[0][0]
  {
    if gap.Some? { assert items[..gap.value][0] == items[0]; }
  }

  lemma ColonIsNeither()
    ensures !IsHexChar(':') && !IsIPv4Char(':')
  {}

  lemma HexStart(x: string)
    ensures AllHex(x) && x != "" ==> x[0] != ':'
  {}

  lemma TailStart(t: string)
    requires IsTail(t)
    ensures t != "" && t[0] != ':'
    ensures var e := HexRun(t); e < |t| && t[e] != ':' && IsIPv4Char(t[e])
  {
    hide HexRun, IsHexChar, IsIPv4Char, AllHex;
    ColonIsNeither();
    var k :| 0 <= k < |t| && AllHex(t[..k]) && !IsHexChar(t[k]) && IsIPv4Char(t[k]);
    var x, y := t[..k], t[k..];
    assert t == x + y && y[0] == t[k];
    HexRunEnds(x, y);
    assert k > 0 ==> t[0] == x[0];
    HexStart(x);
  }

  lemma Around(x: string, sep: string, rest: string)
    ensures var t := x + sep + rest;
      && t == x + (sep + rest) && t[..|x|] == x && t[|x| + |sep|..] == rest
      && (forall i :: 0 <= i < |sep| ==> t[|x| + i] == sep[i])
      && (rest != "" ==> t[|x| + |sep|] == rest[0])
  {}

  lemma ScanGroupThenColon(x: string, rest: string, first: bool, groups: seq<string>, gap: Option<nat>)
    requires IsGroup(x) && |groups| < 8 && rest != "" && rest[0] != ':'
    ensures Scan(x + ":" + rest, first, groups, gap) == Scan(rest, false, groups + [x], gap)
  {
    hide Scan, HexRun, IsHexChar, IsIPv4Char, AllHex;
    var t := x + ":" + rest;
    Around(x, ":", rest);
    ColonIsNeither();
    HexRunEnds(x, ":" + rest);
    ScanStep(t, |x|, first, groups, gap);
  }

  lemma ScanThenPair(x: string, rest: string, first: bool, groups: seq<string>)
    requires x == "" ==> first
    requires x != "" ==> IsGroup(x) && |groups| < 8
    ensures var found := if x == "" then groups else groups + [x];
      Scan(x + "::" + rest, first, groups, None) == Scan(rest, false, found, Some(|found|))
  {
    hide Scan, HexRun, IsHexChar, IsIPv4Char, AllHex;
    var t := x + "::" + rest;
    Around(x, "::", rest);
    ColonIsNeither();
    HexRunEnds(x, "::" + rest);
    ScanStep(t, |x|, first, groups, None);
  }

  lemma ScanLastGroup(x: string, first: bool, groups: seq<string>, gap: Option<nat>)
    requires IsGroup(x) && |groups| < 8
    ensures Scan(x, first, groups, gap) == Some(Literal(groups + [x], gap, None))
  {
    HexRunEnds(x, "");
    assert x + "" == x && x[..|x|] == x;
  }

  /** The next group is taken: what the literal is made of from there on. */
  lemma TakeGroup(lit: Literal, rest: string, groups: seq<string>, gap: Option<nat>)
    requires |groups| < |lit.groups| && Extends(lit, rest, groups, gap)
    ensures var x := lit.groups[|groups|];
      && IsGroup(x) && |groups| < 8 && groups + [x] <= lit.groups
      && AllGroups(lit.groups[|groups| + 1..])
      && Items(lit)[|groups|..] == [x] + Items(lit)[|groups| + 1..]
  {
    var n := |groups|;
    assert lit.groups[n..][0] == lit.groups[n];
    assert groups + [lit.groups[n]] == lit.groups[..n + 1];
    assert lit.groups[n + 1..] == lit.groups[n..][1..];
  }

  /** A group with the gap right behind it. */
  lemma TakeGroupAndGap(lit: Literal, rest: string, groups: seq<string>)
    requires |groups| < |lit.groups| && Extends(lit, rest, groups, None) && lit.gap == Some(|groups| + 1)
    ensures var x, more := lit.groups[|groups|], Join(Items(lit)[|groups| + 1..]);
      rest == x + "::" + more && Extends(lit, more, groups + [x], lit.gap)
  {
    TakeGroup(lit, rest, groups, None);
    TextAfterPair([lit.groups[|groups|]], Items(lit)[|groups| + 1..]);
  }

  /** A group with no gap behind it: the last item, or one followed by a colon and more. */
  lemma TakeGroupAndColon(lit: Literal, rest: string, groups: seq<string>, gap: Option<nat>)
    requires |groups| < |lit.groups| && Extends(lit, rest, groups, gap)
    requires gap.Some? || (lit.gap != Some(|groups|) && lit.gap != Some(|groups| + 1))
    ensures |Items(lit)| == |groups| + 1 ==> rest == lit.groups[|groups|] && lit.gap == gap && lit.v4.None?
    ensures |Items(lit)| > |groups| + 1 ==>
      var x := lit.groups[|groups|];
      var more := Text(After(lit, groups + [x], gap).0, After(lit, groups + [x], gap).1);
      rest == x + ":" + more && Extends(lit, more, groups + [x], gap) && After(lit, groups + [x], gap).1 != Some(0)
  {
    TakeGroup(lit, rest, groups, gap);
    var x := lit.groups[|groups|];
    if |Items(lit)| > |groups| + 1 {
      TextAfterColon(x, Items(lit)[|groups| + 1..], After(lit, groups + [x], gap).1);
    }
  }

  /** The item after a colon is not empty and does not start with a colon. */
  lemma NextStart(lit: Literal, rest: string, groups: seq<string>, gap: Option<nat>)
    requires Extends(lit, rest, groups, gap) && After(lit, groups, gap).1 != Some(0)
    requires |groups| < |Items(lit)|
    ensures rest != "" && rest[0] != ':'
  {
    var items := After(lit, groups, gap).0;
    if |groups| < |lit.groups| {
      assert items[0] == lit.groups[|groups|..][0];
    } else {
      assert items[0] == lit.v4.value;
      TailStart(lit.v4.value);
    }
    TextStart(items, After(lit, groups, gap).1);
  }

  /** Every literal that spells the text is the one the scan returns. */
  lemma {:induction false} ScanComplete(lit: Literal, rest: string, first: bool, groups: seq<string>, gap: Option<nat>)
    requires Progress(first, groups, gap)
    requires Extends(lit, rest, groups, gap) && Continues(lit, first, groups, gap)
    ensures Scan(rest, first, groups, gap) == Some(lit)
    decreases |rest|
  {
    var n := |groups|;
    if gap.None? && lit.gap == Some(n) {
      // The text starts with the gap.
      TextAfterPair([], Items(lit)[n..]);
      assert [] + Items(lit)[n..] == Items(lit)[n..];
      var more := Join(Items(lit)[n..]);
      assert rest == "" + "::" + more;
      ScanComplete(lit, more, false, groups, lit.gap);
      ScanThenPair("", more, first, groups);
    } else if |Items(lit)| == n {
      assert lit.groups == groups && rest == "";
    } else if |lit.groups| == n {
      assert lit.groups == groups && Items(lit)[n..] == [lit.v4.value];
      TailStart(rest);
    } else {
      CompleteGroup(lit, rest, first, groups, gap);
    }
  }

  lemma {:induction false} CompleteGroup(lit: Literal, rest: string, first: bool, groups: seq<string>, gap: Option<nat>)
    requires Progress(first, groups, gap) && |groups| < |lit.groups|
    requires Extends(lit, rest, groups, gap) && Continues(lit, first, groups, gap)
    requires After(lit, groups, gap).1 != Some(0)
    ensures Scan(rest, first, groups, gap) == Some(lit)
    decreases |rest|, 0
  {
    var x, found := lit.groups[|groups|], groups + [lit.groups[|groups|]];
    TakeGroup(lit, rest, groups, gap);
    hide Extends, Scan;
    if lit.gap == Some(|found|) && gap.None? {
      TakeGroupAndGap(lit, rest, groups);
      var more := Join(Items(lit)[|found|..]);
      ScanComplete(lit, more, false, found, lit.gap);
      ScanThenPair(x, more, first, groups);
    } else {
      TakeGroupAndColon(lit, rest, groups, gap);
      if |Items(lit)| == |found| {
        ScanLastGroup(x, first, groups, gap);
        assert lit.groups == found;
        assert lit == Literal(found, gap, None);
      } else {
        var more := Text(After(lit, found, gap).0, After(lit, found, gap).1);
        NextStart(lit, more, found, gap);
        ScanComplete(lit, more, false, found, gap);
        ScanGroupThenColon(x, more, first, groups, gap);
      }
    }
  }

  // ---- the two together ------------------------------------------------------------

  /** The scan returns `lit` exactly when `lit` has the right shape and spells `s`. */
  lemma ScanExact(s: string, lit: Literal)
    ensures ScanAll(s) == Some(lit) <==> Shaped(lit) && s == Text(Items(lit), lit.gap)
  {
    if ScanAll(s) == Some(lit) {
      ScanSound(s, true, [], None);
      assert Items(lit)[0..] == Items(lit) && lit.groups[0..] == lit.groups;
    }
    if Shaped(lit) && s == Text(Items(lit), lit.gap) {
      assert Items(lit)[0..] == Items(lit) && lit.groups[0..] == lit.groups;
      ScanComplete(lit, s, true, [], None);
      TextNotEmpty(lit);
    }
  }

  lemma TextNotEmpty(lit: Literal)
    requires Shaped(lit)
    ensures Text(Items(lit), lit.gap) != ""
  {
    if lit.gap.None? {
      var items := Items(lit);
      if lit.groups == [] { TailStart(lit.v4.value); }
      TextStart(items, None);
    }
  }

  /** The address a text denotes, if the scan succeeds and the sizes and the IPv4 tail are right. */
  function Parse(s: string): (r: Option<seq<Byte>>)
    ensures r.Some? ==> |r.value| == 16
  {
    match ScanAll(s)
    case None => None
    case Some(lit) =>
      if Shaped(lit) && Sized(lit) && (lit.v4.Some? ==> Verdict(lit.v4.value) == IPv4) then Some(Meaning(lit)) else None
  }

  /** The reader accepts exactly the grammar, and gives each text its one meaning. */
  lemma ParseExact(s: string, b: seq<Byte>)
    ensures Parse(s) == Some(b) <==> Denotes(s, b)
  {
    hide Sized, Meaning, Text, ScanAll;
    if Parse(s) == Some(b) {
      var lit := ScanAll(s).value;
      ScanExact(s, lit);
      assert WellFormed(lit);
    }
    if Denotes(s, b) {
      var lit :| WellFormed(lit) && s == Text(Items(lit), lit.gap) && b == Meaning(lit);
      ScanExact(s, lit);
    }
  }
}
