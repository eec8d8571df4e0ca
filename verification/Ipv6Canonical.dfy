/** The printed IPv6 text told from the address alone: there is one such text, and it is the one printed. */
module Ipv6Canonical {
  import opened Wrappers
  import opened UrlChars
  import opened Ipv6Grammar
  import opened Ipv6Printer

  /** A group is printed in lower case without leading zeros, and reads as its two bytes. */
  lemma GroupTextExactly(a: seq<Byte>, g: nat, t: string)
    requires |a| == 16 && g < 8
    ensures t == GroupText(a, g) <==> IsMinimal(t, Hex) && Value(t, Hex) == GroupAt(a, g)
  {
    NumberTextExactly(t, GroupAt(a, g), Hex);
  }

  /** The bytes the gap of a literal stands for. */
  function GapRange(lit: Literal): Component
    requires Size(lit) <= 16
  {
    if lit.gap.Some? then Component(2 * lit.gap.value, 16 - Size(lit)) else NO_COMPONENT
  }

  predicate AllMinimal(gs: seq<string>) { forall i :: 0 <= i < |gs| ==> IsMinimal(gs[i], Hex) }

  /**
   * The literal is written in the canonical way: it means the address, every group is as short
   * as can be, and the gap is the leftmost longest run of zero groups, if one has two or more.
   */
  ghost predicate IsCanonical(lit: Literal, a: seq<Byte>)
    requires |a| == 16
  {
    WellFormed(lit) && Meaning(lit) == a && lit.v4.None? && AllMinimal(lit.groups) && IsChosen(a, GapRange(lit))
  }

  lemma GroupIsPrinted(lit: Literal, a: seq<Byte>, i: nat)
    requires |a| == 16 && WellFormed(lit) && Meaning(lit) == a && i < |lit.groups| && IsMinimal(lit.groups[i], Hex)
    ensures PlaceOf(lit, i) < 8 && lit.groups[i] == GroupText(a, PlaceOf(lit, i))
  {
    hide IsMinimal, Meaning, GroupText, Value, Shaped, PlaceOf;
    MeaningExactly(lit);
    GroupTextExactly(a, PlaceOf(lit, i), lit.groups[i]);
    assert Pair(a, PlaceOf(lit, i)) == GroupAt(a, PlaceOf(lit, i));
  }

  lemma Places(lit: Literal, i: nat)
    requires Shaped(lit) && Sized(lit) && lit.v4.None? && i < |lit.groups|
    ensures PlaceOf(lit, i) == if lit.gap.Some? && lit.gap.value <= i then i + (8 - |lit.groups|) else i
  {
    hide AllGroups;
  }

  /** Groups in a row on one side of the gap, the first of them at place `at`. */
  lemma GroupsArePrinted(lit: Literal, a: seq<Byte>, from: nat, to: nat, at: nat)
    requires |a| == 16 && WellFormed(lit) && Meaning(lit) == a && lit.v4.None? && AllMinimal(lit.groups)
    requires from <= to <= |lit.groups| && at + (to - from) <= 8
    requires from < to ==>
      if lit.gap.Some? && lit.gap.value <= from then at == from + (8 - |lit.groups|)
      else at == from && (lit.gap.Some? ==> to <= lit.gap.value)
    ensures lit.groups[from..to] == GroupTexts(a, at, at + (to - from))
  {
    hide IsMinimal, AllGroups, Meaning, GroupText, PlaceOf, GroupTexts;
    var x, y := lit.groups[from..to], GroupTexts(a, at, at + (to - from));
    forall k | 0 <= k < |x| ensures x[k] == y[k] {
      GroupIsPrinted(lit, a, from + k);
      Places(lit, from + k);
    }
  }

  lemma GroupsWithoutGap(lit: Literal, a: seq<Byte>)
    requires |a| == 16 && WellFormed(lit) && Meaning(lit) == a && lit.v4.None? && AllMinimal(lit.groups)
    requires lit.gap.None?
    ensures |lit.groups| == 8 && lit.groups == GroupTexts(a, 0, 8)
  {
    hide AllMinimal, AllGroups, Meaning, GroupTexts;
    GroupsArePrinted(lit, a, 0, 8, 0);
    assert lit.groups[0..8] == lit.groups;
  }

  lemma GroupsWithGap(lit: Literal, a: seq<Byte>, n: nat)
    requires |a| == 16 && WellFormed(lit) && Meaning(lit) == a && lit.v4.None? && AllMinimal(lit.groups)
    requires lit.gap == Some(n)
    ensures n <= |lit.groups| <= 7
    ensures lit.groups == GroupTexts(a, 0, n) + GroupTexts(a, n + (8 - |lit.groups|), 8)
  {
    hide AllMinimal, AllGroups, Meaning, GroupTexts;
    var gs := lit.groups;
    GroupsArePrinted(lit, a, 0, n, 0);
    GroupsArePrinted(lit, a, n, |gs|, n + (8 - |gs|));
    CutInTwo(gs, n);
  }

  lemma CutInTwo(gs: seq<string>, n: nat)
    requires n <= |gs|
    ensures gs == gs[0..n] + gs[n..|gs|]
  {}

  lemma CanonicalGroups(lit: Literal, a: seq<Byte>)
    requires |a| == 16 && IsCanonical(lit, a)
    ensures
      var n := |lit.groups|;
      if lit.gap.None? then n == 8 && lit.groups == GroupTexts(a, 0, 8)
      else
        && lit.gap.value <= n <= 7
        && lit.groups == GroupTexts(a, 0, lit.gap.value) + GroupTexts(a, lit.gap.value + (8 - n), 8)
  {
    hide IsChosen, AllMinimal, WellFormed, Meaning, GroupTexts;
    if lit.gap.None? { GroupsWithoutGap(lit, a); } else { GroupsWithGap(lit, a, lit.gap.value); }
  }

  lemma CanonicalGap(lit: Literal, a: seq<Byte>)
    requires |a| == 16 && IsCanonical(lit, a)
    ensures Chosen(a) == if lit.gap.None? then NO_COMPONENT else Component(2 * lit.gap.value, 16 - 2 * |lit.groups|)
  {
    hide IsChosen, Chosen, AllMinimal, AllGroups, Meaning;
    ChosenIsChosen(a);
    ChosenIsUnique(a, GapRange(lit), Chosen(a));
  }

  lemma CanonicalIsUnique(lit: Literal, a: seq<Byte>)
    requires |a| == 16 && IsCanonical(lit, a)
    ensures lit == CanonicalLiteral(a)
  {
    hide IsCanonical, Chosen, GroupTexts, CanonicalLiteral;
    NoTail(lit, a);
    CanonicalGap(lit, a);
    CanonicalGroups(lit, a);
    LiteralIs(a);
  }

  lemma NoTail(lit: Literal, a: seq<Byte>)
    requires |a| == 16 && IsCanonical(lit, a)
    ensures lit.v4 == None
  {
    hide WellFormed, Meaning, IsChosen, AllMinimal;
  }

  lemma LiteralIs(a: seq<Byte>)
    requires |a| == 16
    ensures
      var r := Chosen(a);
      if r.IsValid() then
        EvenRange(r) && CanonicalLiteral(a) ==
          Literal(GroupTexts(a, 0, r.begin / 2) + GroupTexts(a, r.End() / 2, 8), Some(r.begin / 2), None)
      else r == NO_COMPONENT && CanonicalLiteral(a) == Literal(GroupTexts(a, 0, 8), None, None)
  {
    hide IsChosen, ZeroRun, GroupTexts;
    ChosenIsChosen(a);
  }

  /** The groups outside an even range, and the bytes they leave to it. */
  lemma EvenGap(r: Component)
    requires EvenRange(r)
    ensures 2 * (r.begin / 2) == r.begin && 16 - 2 * (r.begin / 2 + (8 - r.End() / 2)) == r.len
  {}

  lemma MinimalTexts(a: seq<Byte>, i: nat, j: nat)
    requires |a| == 16 && i <= j <= 8
    ensures AllMinimal(GroupTexts(a, i, j))
  {
    hide IsMinimal, GroupText, GroupTexts;
    var gs := GroupTexts(a, i, j);
    forall k | 0 <= k < |gs| ensures IsMinimal(gs[k], Hex) { GroupTextExactly(a, i + k, gs[k]); }
  }

  lemma BothMinimal(x: seq<string>, y: seq<string>)
    requires AllMinimal(x) && AllMinimal(y)
    ensures AllMinimal(x + y)
  {
    hide IsMinimal;
  }

  lemma CanonicalShape(a: seq<Byte>)
    requires |a| == 16
    ensures
      var lit := CanonicalLiteral(a);
      Size(lit) <= 16 && GapRange(lit) == Chosen(a) && lit.v4.None? && AllMinimal(lit.groups)
  {
    hide Chosen, AllMinimal, CanonicalLiteral, GroupTexts;
    LiteralIs(a);
    var r := Chosen(a);
    if r.IsValid() {
      EvenGap(r);
      MinimalTexts(a, 0, r.begin / 2);
      MinimalTexts(a, r.End() / 2, 8);
      BothMinimal(GroupTexts(a, 0, r.begin / 2), GroupTexts(a, r.End() / 2, 8));
    } else {
      MinimalTexts(a, 0, 8);
    }
  }

  lemma CanonicalIsCanonical(a: seq<Byte>)
    requires |a| == 16
    ensures IsCanonical(CanonicalLiteral(a), a)
  {
    hide AllMinimal, IsChosen, Chosen, WellFormed, Meaning, CanonicalLiteral, GapRange;
    ChosenIsChosen(a);
    CanonicalLiteralMeans(a);
    CanonicalShape(a);
  }

  /** The text printed for an address is the text of its canonical literal, and no other text is. */
  lemma IPv6TextExactly(a: seq<Byte>, s: string)
    requires |a| == 16
    ensures s == IPv6Text(a) <==> exists lit :: IsCanonical(lit, a) && s == Text(lit.groups, lit.gap)
  {
    hide IsCanonical, CanonicalLiteral, Text;
    CanonicalIsCanonical(a);
    CanonicalItems(a);
    forall lit | IsCanonical(lit, a) ensures lit == CanonicalLiteral(a) { CanonicalIsUnique(lit, a); }
  }
}
