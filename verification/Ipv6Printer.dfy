/** Printing an IPv6 address with its leftmost longest run of zero groups contracted, and reading it back. */
module Ipv6Printer {
  import opened Wrappers
  import opened UrlChars
  import opened Ipv6Grammar
  import opened Ipv6Scan
  import CanonOutput

  function GroupAt(a: seq<Byte>, g: nat): (v: nat)
    requires g < 8 && |a| == 16
    ensures v < 0x1_0000
  {
    var hi: int, lo: int := a[2 * g], a[2 * g + 1];
    hi * 256 + lo
  }

  // ---- which groups are contracted ------------------------------------------------

  predicate ZeroRun(a: seq<Byte>, i: int, n: int)
    requires |a| == 16
  {
    0 <= i && 0 <= n && i + n <= 8 && forall g :: i <= g < i + n ==> GroupAt(a, g) == 0
  }

  /** Run (i, n) is preferred to run (j, m): longer, or as long and not further right. */
  predicate Preferred(i: int, n: int, j: int, m: int) { m < n || (m == n && i <= j) }

  /** The run to contract: two groups at least, no run longer, none as long further left. */
  ghost predicate IsBestRun(a: seq<Byte>, i: int, n: int)
    requires |a| == 16
  {
    ZeroRun(a, i, n) && n >= 2 && forall j, m :: ZeroRun(a, j, m) ==> Preferred(i, n, j, m) || m < 2
  }

  /** The choice as a byte range of the address, absent when no two groups in a row are zero. */
  ghost predicate IsChosen(a: seq<Byte>, r: Component)
    requires |a| == 16
  {
    if r.IsValid() then r.begin % 2 == 0 && r.len % 2 == 0 && IsBestRun(a, r.begin / 2, r.len / 2)
    else r == NO_COMPONENT && forall j, m :: ZeroRun(a, j, m) ==> m < 2
  }

  lemma ChosenIsUnique(a: seq<Byte>, r: Component, q: Component)
    requires |a| == 16 && IsChosen(a, r) && IsChosen(a, q)
    ensures r == q
  {
    if r.IsValid() { assert ZeroRun(a, r.begin / 2, r.len / 2); }
    if q.IsValid() { assert ZeroRun(a, q.begin / 2, q.len / 2); }
  }

  /** All runs that end by group g: none of two groups, or `best` preferred to each. */
  ghost predicate BestUpTo(a: seq<Byte>, best: Component, g: int)
    requires |a| == 16
  {
    && (best.IsValid() ==>
      best.begin % 2 == 0 && best.len % 2 == 0 && best.len >= 4 && best.End() <= 2 * g &&
      ZeroRun(a, best.begin / 2, best.len / 2))
    && (!best.IsValid() ==> best == NO_COMPONENT)
    && forall j, m :: ZeroRun(a, j, m) && j + m <= g && m >= 2 ==>
      best.IsValid() && Preferred(best.begin / 2, best.len / 2, j, m)
  }

  /** The run in progress before group g: zero groups from its start, and no zero group in front of it. */
  ghost predicate Current(a: seq<Byte>, cur: Component, g: int)
    requires |a| == 16
  {
    && 0 <= g <= 8
    && if cur.IsValid() then
      && cur.begin % 2 == 0 && cur.len > 0 && cur.End() == 2 * g && ZeroRun(a, cur.begin / 2, g - cur.begin / 2)
      && (cur.begin > 0 ==> GroupAt(a, cur.begin / 2 - 1) != 0)
    else cur == NO_COMPONENT && (g > 0 ==> GroupAt(a, g - 1) != 0)
  }

  lemma NonzeroSplits(a: seq<Byte>, j: int, m: int, k: int)
    requires |a| == 16 && ZeroRun(a, j, m) && 0 <= k < 8 && GroupAt(a, k) != 0
    ensures k < j || j + m <= k
  {}

  /** A run that ends by g either ends before the current run or lies inside it. */
  lemma FinishRun(a: seq<Byte>, best: Component, cur: Component, g: int)
    requires |a| == 16 && Current(a, cur, g)
    requires BestUpTo(a, best, if cur.IsValid() then cur.begin / 2 else g)
    requires g == 8 || GroupAt(a, g) != 0
    ensures BestUpTo(a, if cur.len > 2 && cur.len > best.len then cur else best, g)
    ensures g < 8 ==> BestUpTo(a, if cur.len > 2 && cur.len > best.len then cur else best, g + 1)
  {
    var r := if cur.len > 2 && cur.len > best.len then cur else best;
    forall j, m | ZeroRun(a, j, m) && j + m <= g + 1 && j + m <= 8 && m >= 2
      ensures r.IsValid() && Preferred(r.begin / 2, r.len / 2, j, m)
    {
      RunPreferred(a, best, cur, g, j, m);
    }
  }

  lemma RunPreferred(a: seq<Byte>, best: Component, cur: Component, g: int, j: int, m: int)
    requires |a| == 16 && Current(a, cur, g) && (g == 8 || GroupAt(a, g) != 0)
    requires BestUpTo(a, best, if cur.IsValid() then cur.begin / 2 else g)
    requires ZeroRun(a, j, m) && j + m <= g + 1 && j + m <= 8 && m >= 2
    ensures var r := if cur.len > 2 && cur.len > best.len then cur else best;
      r.IsValid() && Preferred(r.begin / 2, r.len / 2, j, m)
  {
    if g < 8 { NonzeroSplits(a, j, m, g); }
    if cur.IsValid() && cur.begin > 0 { NonzeroSplits(a, j, m, cur.begin / 2 - 1); }
  }

  method ChooseIPv6ContractionRange(address: seq<Byte>) returns (range: Component)
    requires |address| == 16
    ensures IsChosen(address, range)
  {
    hide ZeroRun, GroupAt;
    var maxRange := NO_COMPONENT;
    var curRange := NO_COMPONENT;
    var i := 0;
    StartRuns(address);
    while i < 16
      invariant 0 <= i <= 16 && i % 2 == 0
      invariant i < 16 ==> Current(address, curRange, i / 2)
      invariant BestUpTo(address, maxRange, if curRange.IsValid() then curRange.begin / 2 else i / 2)
      invariant i == 16 ==> curRange == NO_COMPONENT
    {
      GroupIsZero(address, i);
      var isZero := address[i] == 0 && address[i + 1] == 0;
      if isZero {
        ghost var before := curRange;
        if !curRange.IsValid() {
          curRange := Component(i, 0);
        }
        curRange := Component(curRange.begin, curRange.len + 2);
        ExtendRun(address, before, i / 2);
      }
      if !isZero || i == 14 {
        FinishRun(address, maxRange, curRange, if isZero then i / 2 + 1 else i / 2);
        if curRange.len > 2 && curRange.len > maxRange.len {
          maxRange := curRange;
        }
        curRange := NO_COMPONENT;
      }
      i := i + 2;
    }
    range := maxRange;
    BestOfAll(address, range);
  }

  lemma StartRuns(a: seq<Byte>)
    requires |a| == 16
    ensures Current(a, NO_COMPONENT, 0) && BestUpTo(a, NO_COMPONENT, 0)
  {}

  lemma GroupIsZero(a: seq<Byte>, i: nat)
    requires |a| == 16 && i < 16 && i % 2 == 0
    ensures GroupAt(a, i / 2) == 0 <==> a[i] == 0 && a[i + 1] == 0
  {}

  lemma ExtendRun(a: seq<Byte>, cur: Component, g: int)
    requires |a| == 16 && Current(a, cur, g) && g < 8 && GroupAt(a, g) == 0
    ensures Current(a, if cur.IsValid() then Component(cur.begin, cur.len + 2) else Component(2 * g, 2), g + 1)
  {}

  lemma BestOfAll(a: seq<Byte>, r: Component)
    requires |a| == 16 && BestUpTo(a, r, 8)
    ensures IsChosen(a, r)
  {}

  /** A byte range of whole groups, two at least. */
  predicate EvenRange(r: Component) {
    0 <= r.begin && r.begin % 2 == 0 && r.len % 2 == 0 && 4 <= r.len && r.End() <= 16
  }

  // ---- the choice as a function ------------------------------------------------------

  /** Length of the run of zero groups that starts at g. */
  function RunLen(a: seq<Byte>, g: nat): (n: nat)
    requires |a| == 16 && g <= 8
    ensures ZeroRun(a, g, n) && (g + n < 8 ==> GroupAt(a, g + n) != 0)
    decreases 8 - g
  {
    if g == 8 || GroupAt(a, g) != 0 then 0 else 1 + RunLen(a, g + 1)
  }

  /** Start of the leftmost longest run among those that start at g or later. */
  function LongestFrom(a: seq<Byte>, g: nat): (i: nat)
    requires |a| == 16 && g <= 8
    ensures g <= i <= 8
    ensures forall j, m :: g <= j && ZeroRun(a, j, m) ==> Preferred(i, RunLen(a, i), j, m) || m == 0
    decreases 8 - g
  {
    if g == 8 then 8
    else
      var i := LongestFrom(a, g + 1);
      assert forall m :: ZeroRun(a, g, m) ==> m <= RunLen(a, g) by {
        forall m | ZeroRun(a, g, m) ensures m <= RunLen(a, g) {
          if g + RunLen(a, g) < 8 { NonzeroSplits(a, g, m, g + RunLen(a, g)); }
        }
      }
      if RunLen(a, g) >= RunLen(a, i) then g else i
  }

  function Chosen(a: seq<Byte>): (r: Component)
    requires |a| == 16
  {
    var i := LongestFrom(a, 0);
    if RunLen(a, i) >= 2 then Component(2 * i, 2 * RunLen(a, i)) else NO_COMPONENT
  }

  lemma ChosenIsChosen(a: seq<Byte>)
    requires |a| == 16
    ensures IsChosen(a, Chosen(a))
    ensures Chosen(a).IsValid() ==>
      var r := Chosen(a);
      EvenRange(r) && ZeroRun(a, r.begin / 2, r.len / 2)
  {
    hide RunLen, LongestFrom, GroupAt;
    var i := LongestFrom(a, 0);
    var n := RunLen(a, i);
    assert forall j, m :: ZeroRun(a, j, m) ==> Preferred(i, n, j, m) || m == 0;
  }

  // ---- the text ------------------------------------------------------------------------

  function GroupText(a: seq<Byte>, g: nat): string
    requires |a| == 16 && g < 8
  {
    NumberText(GroupAt(a, g), Hex)
  }

  function GroupTexts(a: seq<Byte>, i: nat, j: nat): (r: seq<string>)
    requires |a| == 16 && i <= j <= 8
    ensures |r| == j - i && forall k :: 0 <= k < |r| ==> r[k] == GroupText(a, i + k)
  {
    seq(j - i, k requires 0 <= k < j - i => GroupText(a, i + k))
  }

  /** The literal that is printed: the groups outside the contracted run, with the gap in its place. */
  function CanonicalLiteral(a: seq<Byte>): Literal
    requires |a| == 16
  {
    ChosenIsChosen(a);
    var r := Chosen(a);
    if r.IsValid() then
      Literal(GroupTexts(a, 0, r.begin / 2) + GroupTexts(a, r.End() / 2, 8), Some(r.begin / 2), None)
    else Literal(GroupTexts(a, 0, 8), None, None)
  }

  function IPv6Text(a: seq<Byte>): string
    requires |a| == 16
  {
    Text(CanonicalLiteral(a).groups, CanonicalLiteral(a).gap)
  }

  // ---- reading it back -------------------------------------------------------------------

  lemma GroupTextReads(a: seq<Byte>, g: nat)
    requires |a| == 16 && g < 8
    ensures IsGroup(GroupText(a, g)) && GroupBytes(GroupText(a, g)) == a[2 * g..2 * g + 2]
  {
    hide NumberText, Pow, Value;
    FourHexDigits(GroupAt(a, g));
    var t := GroupText(a, g);
    assert forall i :: 0 <= i < |t| ==> IsCharOfBase(t[i], Hex);
    TwoBytes(a[2 * g], a[2 * g + 1]);
    assert a[2 * g..2 * g + 2] == [a[2 * g], a[2 * g + 1]];
  }

  lemma TwoBytes(hi: Byte, lo: Byte)
    ensures var v := hi * 256 + lo; 0 <= v < 0x1_0000 && v / 256 == hi && v % 256 == lo
  {}

  lemma FourHexDigits(n: nat)
    requires n < 0x1_0000
    ensures |NumberText(n, Hex)| <= 4
  {
    assert Pow(16, 4) == 0x1_0000;
    NumberTextLength(n, Hex, 4);
  }

  lemma {:induction false} GroupTextsRead(a: seq<Byte>, i: nat, j: nat)
    requires |a| == 16 && i <= j <= 8
    ensures AllGroups(GroupTexts(a, i, j)) && GroupsBytes(GroupTexts(a, i, j)) == a[2 * i..2 * j]
    decreases j
  {
    hide GroupText, GroupBytes, IsGroup, GroupsBytes;
    if i == j {
      assert GroupTexts(a, i, j) == [];
      NoGroups();
    } else {
      var ts, t := GroupTexts(a, i, j - 1), GroupText(a, j - 1);
      GroupTextsRead(a, i, j - 1);
      GroupTextReads(a, j - 1);
      assert GroupTexts(a, i, j) == ts + [t];
      OneGroupMore(ts, t);
      assert a[2 * i..2 * j] == a[2 * i..2 * (j - 1)] + a[2 * (j - 1)..2 * j];
    }
  }

  lemma OneGroupMore(ts: seq<string>, t: string)
    ensures GroupsBytes(ts + [t]) == GroupsBytes(ts) + GroupBytes(t)
  {
    assert (ts + [t])[..|ts|] == ts;
  }

  lemma ZeroGroupsAreZeros(a: seq<Byte>, i: nat, n: nat)
    requires |a| == 16 && ZeroRun(a, i, n)
    ensures a[2 * i..2 * (i + n)] == Zeros(2 * n)
  {
    var s := a[2 * i..2 * (i + n)];
    forall k | 0 <= k < |s| ensures s[k] == 0 {
      assert GroupAt(a, i + k / 2) == 0;
    }
  }

  /** The printed literal is well formed and means the address it was printed from. */
  lemma CanonicalLiteralMeans(a: seq<Byte>)
    requires |a| == 16
    ensures WellFormed(CanonicalLiteral(a)) && Meaning(CanonicalLiteral(a)) == a
  {
    hide GroupTexts, AllGroups, ZeroRun, Chosen, GroupsBytes;
    var r := Chosen(a);
    ChosenIsChosen(a);
    if r.IsValid() {
      ContractedMeans(a, r.begin / 2, r.len / 2);
    } else {
      GroupTextsRead(a, 0, 8);
      assert a[2 * 0..2 * 8] == a;
    }
  }

  /** The same for a literal that contracts a run of zero groups. */
  lemma ContractedMeans(a: seq<Byte>, i: nat, n: nat)
    requires |a| == 16 && n > 0 && i + n <= 8 && ZeroRun(a, i, n)
    ensures var lit := Literal(GroupTexts(a, 0, i) + GroupTexts(a, i + n, 8), Some(i), None);
      WellFormed(lit) && Meaning(lit) == a
  {
    hide GroupTexts, AllGroups, ZeroRun, GroupsBytes, Zeros, WellFormed, Meaning;
    var x, y := GroupTexts(a, 0, i), GroupTexts(a, i + n, 8);
    GroupTextsRead(a, 0, i);
    GroupTextsRead(a, i + n, 8);
    ZeroGroupsAreZeros(a, i, n);
    TwoSides(x, y);
    CutInThree(a, 2 * i, 2 * (i + n));
  }

  /** Groups on both sides of a gap, and what they mean. */
  lemma TwoSides(x: seq<string>, y: seq<string>)
    requires AllGroups(x) && AllGroups(y) && |x| + |y| < 8
    ensures var lit := Literal(x + y, Some(|x|), None);
      WellFormed(lit) && Meaning(lit) == GroupsBytes(x) + Zeros(16 - 2 * (|x| + |y|)) + GroupsBytes(y)
  {
    hide AllGroups, GroupsBytes, Zeros;
    AllGroupsAppend(x, y);
    assert (x + y)[..|x|] == x && (x + y)[|x|..] == y;
  }

  lemma CutInThree(a: seq<Byte>, i: nat, j: nat)
    requires i <= j <= |a|
    ensures a == a[0..i] + a[i..j] + a[j..|a|]
  {}

  lemma AllGroupsAppend(a: seq<string>, b: seq<string>)
    requires AllGroups(a) && AllGroups(b)
    ensures AllGroups(a + b)
  {}

  /** Every address survives being printed and read again. */
  lemma IPv6RoundTrip(a: seq<Byte>)
    requires |a| == 16
    ensures Parse(IPv6Text(a)) == Some(a)
  {
    hide WellFormed, Meaning, CanonicalLiteral, Text, Parse;
    CanonicalLiteralMeans(a);
    var lit := CanonicalLiteral(a);
    CanonicalItems(a);
    assert Denotes(IPv6Text(a), a) by {
      assert WellFormed(lit) && IPv6Text(a) == Text(Items(lit), lit.gap) && a == Meaning(lit);
    }
    ParseExact(IPv6Text(a), a);
  }

  lemma CanonicalItems(a: seq<Byte>)
    requires |a| == 16
    ensures var lit := CanonicalLiteral(a);
      Items(lit) == lit.groups && (lit.gap.Some? ==> lit.gap.value <= |lit.groups|)
  {}

  // ---- the printing loop ------------------------------------------------------------------

  /** Each item followed by a colon. */
  function Colons(items: seq<string>): string {
    if items == [] then "" else Colons(items[..|items| - 1]) + items[|items| - 1] + ":"
  }

  lemma {:induction false} ColonsAreJoined(items: seq<string>)
    ensures items != [] ==> Colons(items) == Join(items) + ":"
    ensures items != [] ==> Colons(items[..|items| - 1]) + items[|items| - 1] == Join(items)
  {
    if |items| > 1 {
      ColonsAreJoined(items[..|items| - 1]);
      JoinSnoc(items[..|items| - 1], items[|items| - 1]);
      assert items == items[..|items| - 1] + [items[|items| - 1]];
    } else if |items| == 1 {
      assert Colons([]) == "" && items[..0] == [];
      assert "" + items[0] == items[0];
    }
  }

  lemma {:induction false} JoinSnoc(items: seq<string>, last: string)
    requires items != []
    ensures Join(items + [last]) == Join(items) + ":" + last
  {
    if |items| == 1 {
      assert items == [items[0]];
      JoinCons(items[0], [last]);
    } else {
      JoinSnoc(items[1..], last);
      JoinCons(items[0], items[1..] + [last]);
      assert items + [last] == [items[0]] + (items[1..] + [last]);
    }
  }

  /** What has been printed when the next group to look at is g. */
  function Printed(a: seq<Byte>, r: Component, g: nat): string
    requires |a| == 16 && g <= 8
    requires r.IsValid() ==> EvenRange(r)
    requires r.IsValid() ==> g <= r.begin / 2 || r.End() / 2 <= g
  {
    if g == 0 then ""
    else if r.IsValid() && g == r.End() / 2 then Printed(a, r, r.begin / 2) + if r.begin == 0 then "::" else ":"
    else Printed(a, r, g - 1) + GroupText(a, g - 1) + if g < 8 then ":" else ""
  }

  lemma PrintedNext(a: seq<Byte>, r: Component, g: nat)
    requires |a| == 16 && g < 8
    requires r.IsValid() ==> EvenRange(r)
    requires r.IsValid() ==> g < r.begin / 2 || r.End() / 2 <= g
    ensures Printed(a, r, g + 1) == Printed(a, r, g) + GroupText(a, g) + if g < 7 then ":" else ""
  {}

  lemma GroupTextsSnoc(a: seq<Byte>, i: nat, j: nat)
    requires |a| == 16 && i <= j < 8
    ensures GroupTexts(a, i, j + 1) == GroupTexts(a, i, j) + [GroupText(a, j)]
  {
    hide GroupText;
  }

  lemma ColonsSnoc(items: seq<string>, x: string)
    ensures Colons(items + [x]) == Colons(items) + x + ":"
  {
    assert (items + [x])[..|items|] == items;
  }

  /** From group i on, where nothing is contracted, groups are printed with a colon each. */
  lemma {:induction false} PrintedGroups(a: seq<Byte>, r: Component, i: nat, g: nat)
    requires |a| == 16 && i <= g < 8
    requires r.IsValid() ==> EvenRange(r)
    requires r.IsValid() ==> g <= r.begin / 2 || r.End() / 2 <= i
    ensures Printed(a, r, g) == Printed(a, r, i) + Colons(GroupTexts(a, i, g))
    decreases g
  {
    hide Printed, GroupText, Colons;
    if g > i {
      PrintedGroups(a, r, i, g - 1);
      PrintedNext(a, r, g - 1);
      GroupTextsSnoc(a, i, g - 1);
      ColonsSnoc(GroupTexts(a, i, g - 1), GroupText(a, g - 1));
    } else {
      NoColons();
    }
  }

  lemma NoColons()
    ensures Colons([]) == "" && Join([]) == ""
  {}

  /** From group i to the end, the last group without a colon. */
  lemma PrintedToEnd(a: seq<Byte>, r: Component, i: nat)
    requires |a| == 16 && i < 8
    requires r.IsValid() ==> EvenRange(r) && r.End() / 2 <= i
    ensures Printed(a, r, 8) == Printed(a, r, i) + Join(GroupTexts(a, i, 8))
  {
    hide Printed, GroupText, Colons, Join;
    PrintedGroups(a, r, i, 7);
    PrintedNext(a, r, 7);
    GroupTextsSnoc(a, i, 7);
    var ts, t := GroupTexts(a, i, 7), GroupText(a, 7);
    ColonsAreJoined(ts + [t]);
    assert (ts + [t])[..|ts|] == ts;
    assert Printed(a, r, i) + Colons(ts) + t == Printed(a, r, i) + (Colons(ts) + t);
  }

  lemma PrintedContraction(a: seq<Byte>, r: Component)
    requires |a| == 16 && r.IsValid() && EvenRange(r)
    ensures Printed(a, r, 0) == ""
    ensures Printed(a, r, r.End() / 2) == Printed(a, r, r.begin / 2) + if r.begin == 0 then "::" else ":"
  {}

  lemma PrintedWithRun(a: seq<Byte>, r: Component)
    requires |a| == 16 && r.IsValid() && EvenRange(r)
    ensures Printed(a, r, 8) == Join(GroupTexts(a, 0, r.begin / 2)) + "::" + Join(GroupTexts(a, r.End() / 2, 8))
  {
    hide Printed, GroupText, Colons, Join;
    var b, e := r.begin / 2, r.End() / 2;
    PrintedContraction(a, r);
    PrintedGroups(a, r, 0, b);
    ColonsAreJoined(GroupTexts(a, 0, b));
    NoColons();
    if e < 8 { PrintedToEnd(a, r, e); }
    assert GroupTexts(a, 8, 8) == [];
  }

  /** At the end the loop has printed the canonical text. */
  lemma PrintedAll(a: seq<Byte>, r: Component)
    requires |a| == 16 && r == Chosen(a)
    ensures r.IsValid() ==> EvenRange(r)
    ensures Printed(a, r, 8) == IPv6Text(a)
  {
    hide Chosen, Printed, GroupTexts, Join;
    ChosenIsChosen(a);
    var lit := CanonicalLiteral(a);
    if r.IsValid() {
      PrintedWithRun(a, r);
      assert lit.groups[..r.begin / 2] == GroupTexts(a, 0, r.begin / 2);
      assert lit.groups[r.begin / 2..] == GroupTexts(a, r.End() / 2, 8);
    } else {
      PrintedToEnd(a, r, 0);
      PrintedStart(a, r);
    }
  }

  method AppendIPv6Address(address: seq<Byte>, output: CanonOutput.Output)
    requires |address| == 16 && output.Valid()
    modifies output, output.buffer
    ensures output.Valid() && output.Contents() == CanonOutput.PushAll(old(output.Contents()), IPv6Text(address))
    ensures output.buffer == old(output.buffer) || fresh(output.buffer)
  {
    hide Printed, IPv6Text, Chosen, GroupText, IsChosen, CanonOutput.PushAll;
    var range := ChooseIPv6ContractionRange(address);
    ChosenIsChosen(address);
    ChosenIsUnique(address, range, Chosen(address));
    PrintedAll(address, range);
    ghost var start := output.Contents();
    PrintedNothing(address, range, start);
    var i := 0;
    while i <= 14
      invariant 0 <= i <= 16 && i % 2 == 0 && output.Valid()
      invariant range.IsValid() ==> i <= range.begin || range.End() <= i
      invariant output.Contents() == CanonOutput.PushAll(start, Printed(address, range, i / 2))
      invariant output.buffer == old(output.buffer) || fresh(output.buffer)
    {
      if i == range.begin && range.len > 0 {
        PrintedGap(address, range, start);
        AppendGap(i == 0, output);
        i := range.End();
      } else {
        PrintedGroup(address, range, i / 2, start);
        AppendGroup(address, i, output);
        i := i + 2;
      }
    }
  }

  /** Appends the colon of the gap, and the one in front of it where no group has left one. */
  method AppendGap(first: bool, output: CanonOutput.Output)
    requires output.Valid()
    modifies output, output.buffer
    ensures output.Valid() && (output.buffer == old(output.buffer) || fresh(output.buffer))
    ensures var o := old(output.Contents());
      output.Contents() == CanonOutput.Push(if first then CanonOutput.Push(o, ':') else o, ':')
  {
    if first {
      output.PushBack(':');
    }
    output.PushBack(':');
  }

  /** Appends a group, and the colon behind it unless it is the last. */
  method AppendGroup(address: seq<Byte>, i: nat, output: CanonOutput.Output)
    requires |address| == 16 && i <= 14 && i % 2 == 0 && output.Valid()
    modifies output, output.buffer
    ensures output.Valid() && (output.buffer == old(output.buffer) || fresh(output.buffer))
    ensures var p := CanonOutput.PushAll(old(output.Contents()), GroupText(address, i / 2));
      output.Contents() == if i / 2 < 7 then CanonOutput.Push(p, ':') else p
  {
    hide GroupText, CanonOutput.PushAll;
    var str := HexText(address, i);
    output.PushText(str);
    if i + 2 < 16 {
      output.PushBack(':');
    }
  }

  /** Stringifies two bytes as a hexadecimal number; five characters are room enough. */
  method HexText(address: seq<Byte>, i: nat) returns (str: string)
    requires |address| == 16 && i <= 14 && i % 2 == 0
    ensures str == GroupText(address, i / 2) && |str| < 5
  {
    var hi: int, lo: int := address[i], address[i + 1];
    var x := hi * 256 + lo;
    FourHexDigits(x);
    str := NumberText(x, Hex);
  }

  lemma PrintedStart(a: seq<Byte>, r: Component)
    requires |a| == 16
    requires r.IsValid() ==> EvenRange(r)
    ensures Printed(a, r, 0) == ""
  {}

  lemma PrintedNothing(a: seq<Byte>, r: Component, o: CanonOutput.Content)
    requires |a| == 16
    requires r.IsValid() ==> EvenRange(r)
    ensures CanonOutput.PushAll(o, Printed(a, r, 0)) == o
  {}

  lemma PrintedGap(a: seq<Byte>, r: Component, o: CanonOutput.Content)
    requires |a| == 16 && r.IsValid()
    requires EvenRange(r)
    ensures var p := CanonOutput.PushAll(o, Printed(a, r, r.begin / 2));
      CanonOutput.PushAll(o, Printed(a, r, r.End() / 2)) ==
      CanonOutput.Push(if r.begin == 0 then CanonOutput.Push(p, ':') else p, ':')
  {
    var s := Printed(a, r, r.begin / 2);
    if r.begin == 0 {
      assert (s + "::")[..|s| + 1] == s + ":" && (s + ":")[..|s|] == s;
    } else {
      assert (s + ":")[..|s|] == s;
    }
  }

  lemma PrintedGroup(a: seq<Byte>, r: Component, g: nat, o: CanonOutput.Content)
    requires |a| == 16 && g < 8
    requires r.IsValid() ==> EvenRange(r)
    requires r.IsValid() ==> g < r.begin / 2 || r.End() / 2 <= g
    ensures var p := CanonOutput.PushAll(CanonOutput.PushAll(o, Printed(a, r, g)), GroupText(a, g));
      CanonOutput.PushAll(o, Printed(a, r, g + 1)) == if g < 7 then CanonOutput.Push(p, ':') else p
  {
    hide GroupText, Printed;
    PrintedNext(a, r, g);
    var s, t := Printed(a, r, g), GroupText(a, g);
    CanonOutput.PushAllAppend(o, s, t);
    if g < 7 {
      assert (s + t + ":")[..|s + t|] == s + t;
    } else {
      assert s + t + "" == s + t;
    }
  }
}
