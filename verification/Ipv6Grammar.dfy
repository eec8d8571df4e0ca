/**
 * The IPv6 literals the reader accepts, as a grammar: colon-separated groups of one to
 * four hexadecimal digits, at most one "::", and possibly an IPv4 host at the end.
 */
module Ipv6Grammar {
  import opened Wrappers
  import opened UrlChars
  import opened Ipv4Spec

  /**
   * `groups` are the hexadecimal groups in order, `gap` the number of groups before the
   * "::", and `v4` the embedded IPv4 host.
   */
  datatype Literal = Literal(groups: seq<string>, gap: Option<nat>, v4: Option<string>)

  // ---- text -------------------------------------------------------------------

  function Join(items: seq<string>): string {
    if items == [] then ""
    else if |items| == 1 then items[0]
    else items[0] + ":" + Join(items[1..])
  }

  /** The items joined by colons, with the colon pair at the gap. */
  function Text(items: seq<string>, gap: Option<nat>): string
    requires gap.Some? ==> gap.value <= |items|
  {
    if gap.None? then Join(items) else Join(items[..gap.value]) + "::" + Join(items[gap.value..])
  }

  function Items(lit: Literal): seq<string> {
    lit.groups + if lit.v4.Some? then [lit.v4.value] else []
  }

  // ---- well-formedness ----------------------------------------------------------

  predicate AllHex(s: string) { forall i :: 0 <= i < |s| ==> IsHexChar(s[i]) }

  predicate IsGroup(s: string) { 1 <= |s| <= 4 && AllHex(s) }

  predicate AllGroups(gs: seq<string>) { forall i :: 0 <= i < |gs| ==> IsGroup(gs[i]) }

  /** Host text that can only be the IPv4 tail: its first character that is not hexadecimal is an IPv4 one. */
  predicate IsTail(t: string) {
    exists k :: 0 <= k < |t| && AllHex(t[..k]) && !IsHexChar(t[k]) && IsIPv4Char(t[k])
  }

  /** The shape of a literal, before its size and its IPv4 tail are examined. */
  predicate Shaped(lit: Literal) {
    && AllGroups(lit.groups) && |lit.groups| <= 8
    && (lit.gap.Some? ==> lit.gap.value <= |lit.groups|)
    && (lit.v4.Some? ==> IsTail(lit.v4.value))
    && (lit.gap.None? ==> Items(lit) != [])
  }

  function Size(lit: Literal): nat { 2 * |lit.groups| + if lit.v4.Some? then 4 else 0 }

  /** Sixteen bytes in all; a gap stands for at least two of them. */
  predicate Sized(lit: Literal) {
    if lit.gap.Some? then Size(lit) <= 14 else Size(lit) == 16
  }

  predicate WellFormed(lit: Literal) {
    Shaped(lit) && Sized(lit) && (lit.v4.Some? ==> Verdict(lit.v4.value) == IPv4)
  }

  // ---- meaning --------------------------------------------------------------------

  function GroupBytes(g: string): (b: seq<Byte>)
    ensures |b| == 2
  {
    var v := Value(g, Hex) % 0x1_0000;
    [v / 256, v % 256]
  }

  function GroupsBytes(gs: seq<string>): (b: seq<Byte>)
    ensures |b| == 2 * |gs|
  {
    if gs == [] then [] else GroupsBytes(gs[..|gs| - 1]) + GroupBytes(gs[|gs| - 1])
  }

  lemma NoGroups()
    ensures GroupsBytes([]) == []
  {}

  function Zeros(n: nat): (b: seq<Byte>)
    ensures |b| == n && forall i :: 0 <= i < n ==> b[i] == 0
  {
    seq(n, _ => 0)
  }

  function TailBytes(v4: Option<string>): (b: seq<Byte>)
    requires v4.Some? ==> Verdict(v4.value) == IPv4
    ensures |b| == if v4.Some? then 4 else 0
  {
    if v4.Some? then AddressBytes(Values(Parts(v4.value))) else []
  }

  /** The sixteen bytes: the groups in order, zeros in place of the gap, the IPv4 bytes last. */
  function Meaning(lit: Literal): (b: seq<Byte>)
    requires WellFormed(lit)
    ensures |b| == 16
  {
    if lit.gap.Some? then
      GroupsBytes(lit.groups[..lit.gap.value]) + Zeros(16 - Size(lit)) +
      GroupsBytes(lit.groups[lit.gap.value..]) + TailBytes(lit.v4)
    else
      GroupsBytes(lit.groups) + TailBytes(lit.v4)
  }

  /** `s` (without its brackets) is a literal for the address `b`. */
  ghost predicate Denotes(s: string, b: seq<Byte>) {
    exists lit :: WellFormed(lit) && s == Text(Items(lit), lit.gap) && b == Meaning(lit)
  }

  // ---- the meaning, place by place -----------------------------------------------------

  /** The two bytes at an even place, as a number. */
  function Pair(b: seq<Byte>, g: nat): nat
    requires 2 * g + 2 <= |b|
  {
    var hi: int, lo: int := b[2 * g], b[2 * g + 1];
    hi * 256 + lo
  }

  /** Where a group stands among the eight: behind the gap, counted from the end. */
  function PlaceOf(lit: Literal, i: nat): nat
    requires Size(lit) <= 16
  {
    if lit.gap.Some? && lit.gap.value <= i then i + (16 - Size(lit)) / 2 else i
  }

  lemma GroupIsItsValue(g: string)
    requires IsGroup(g)
    ensures Pair(GroupBytes(g), 0) == Value(g, Hex)
  {
    hide Value, Pow;
    assert AllOfBase(g, Hex);
    ValueUpperBound(g, Hex);
    PowMono(16, |g|, 4);
    FourDigits();
    TwoHalves(Value(g, Hex));
  }

  lemma TwoHalves(v: nat)
    requires v < 0x1_0000
    ensures v % 0x1_0000 == v && v / 256 * 256 + v % 256 == v
  {}

  lemma FourDigits()
    ensures Pow(16, 4) == 0x1_0000
  {}

  lemma {:induction false} GroupsBytesAt(gs: seq<string>, i: nat)
    requires i < |gs|
    ensures GroupsBytes(gs)[2 * i..2 * i + 2] == GroupBytes(gs[i])
    decreases |gs|
  {
    var front := gs[..|gs| - 1];
    if i < |front| {
      GroupsBytesAt(front, i);
      hide GroupBytes;
      assert GroupsBytes(gs)[2 * i..2 * i + 2] == GroupsBytes(front)[2 * i..2 * i + 2];
    }
  }

  /** A piece of a text of bytes, seen from the whole. */
  lemma PieceAt(a: seq<Byte>, m: seq<Byte>, z: seq<Byte>, i: nat)
    requires i + 2 <= |m|
    ensures (a + m + z)[|a| + i..|a| + i + 2] == m[i..i + 2]
  {}

  lemma PairOf(b: seq<Byte>, g: nat, c: seq<Byte>)
    requires 2 * g + 2 <= |b| && |c| == 2 && b[2 * g..2 * g + 2] == c
    ensures Pair(b, g) == Pair(c, 0)
  {
    assert b[2 * g] == b[2 * g..2 * g + 2][0] && b[2 * g + 1] == b[2 * g..2 * g + 2][1];
  }

  lemma AmongFirst(gs: seq<string>, rest: seq<Byte>, i: nat)
    requires i < |gs|
    ensures (GroupsBytes(gs) + rest)[2 * i..2 * i + 2] == GroupBytes(gs[i])
  {
    hide GroupsBytes, GroupBytes;
    GroupsBytesAt(gs, i);
    PieceAt([], GroupsBytes(gs), rest, 2 * i);
    assert [] + GroupsBytes(gs) == GroupsBytes(gs);
  }

  lemma AmongLater(front: seq<Byte>, gs: seq<string>, rest: seq<Byte>, i: nat)
    requires i < |gs|
    ensures (front + GroupsBytes(gs) + rest)[|front| + 2 * i..|front| + 2 * i + 2] == GroupBytes(gs[i])
  {
    hide GroupsBytes, GroupBytes;
    GroupsBytesAt(gs, i);
    PieceAt(front, GroupsBytes(gs), rest, 2 * i);
  }

  lemma Regrouped(a: seq<Byte>, b: seq<Byte>, c: seq<Byte>, d: seq<Byte>)
    ensures a + b + c + d == a + (b + c + d)
  {}

  lemma PlaceTwice(lit: Literal, i: nat)
    requires Shaped(lit) && Sized(lit) && i < |lit.groups|
    ensures PlaceOf(lit, i) < 8
    ensures 2 * PlaceOf(lit, i) == if lit.gap.Some? && lit.gap.value <= i then 2 * i + (16 - Size(lit)) else 2 * i
  {
    hide AllGroups, IsTail;
  }

  lemma PlacedWithoutGap(lit: Literal, i: nat)
    requires WellFormed(lit) && lit.gap.None? && i < |lit.groups|
    ensures 2 * i + 2 <= 16 && Meaning(lit)[2 * i..2 * i + 2] == GroupBytes(lit.groups[i])
  {
    hide GroupsBytes, GroupBytes, Verdict, AllGroups, IsTail, TailBytes;
    AmongFirst(lit.groups, TailBytes(lit.v4), i);
  }

  lemma PlacedWithGap(lit: Literal, i: nat)
    requires WellFormed(lit) && lit.gap.Some? && i < |lit.groups|
    ensures
      var at := if i < lit.gap.value then 2 * i else 2 * i + (16 - Size(lit));
      at + 2 <= 16 && Meaning(lit)[at..at + 2] == GroupBytes(lit.groups[i])
  {
    hide GroupsBytes, GroupBytes, Verdict, AllGroups, IsTail, TailBytes, Zeros;
    var gs, n := lit.groups, lit.gap.value;
    AroundGap(gs[..n], Zeros(16 - Size(lit)), gs[n..], TailBytes(lit.v4), i);
  }

  lemma GroupPlaced(lit: Literal, i: nat)
    requires WellFormed(lit) && i < |lit.groups|
    ensures PlaceOf(lit, i) < 8
    ensures Meaning(lit)[2 * PlaceOf(lit, i)..2 * PlaceOf(lit, i) + 2] == GroupBytes(lit.groups[i])
  {
    PlaceTwice(lit, i);
    hide GroupBytes, Verdict, AllGroups, IsTail, PlaceOf, Size, Meaning;
    if lit.gap.None? { PlacedWithoutGap(lit, i); } else { PlacedWithGap(lit, i); }
  }

  lemma BeforeGap(x: seq<string>, z: seq<Byte>, y: seq<string>, t: seq<Byte>, i: nat)
    requires i < |x|
    ensures (GroupsBytes(x) + z + GroupsBytes(y) + t)[2 * i..2 * i + 2] == GroupBytes(x[i])
  {
    hide GroupsBytes, GroupBytes;
    AmongFirst(x, z + GroupsBytes(y) + t, i);
    Regrouped(GroupsBytes(x), z, GroupsBytes(y), t);
  }

  lemma AroundGap(x: seq<string>, z: seq<Byte>, y: seq<string>, t: seq<Byte>, i: nat)
    requires i < |x| + |y|
    ensures
      var at := if i < |x| then 2 * i else 2 * i + |z|;
      (GroupsBytes(x) + z + GroupsBytes(y) + t)[at..at + 2] == GroupBytes(if i < |x| then x[i] else y[i - |x|])
  {
    hide GroupsBytes, GroupBytes;
    if i < |x| {
      BeforeGap(x, z, y, t, i);
    } else {
      AmongLater(GroupsBytes(x) + z, y, t, i - |x|);
    }
  }

  /**
   * The meaning of a literal, read off place by place: each group is the number at its place,
   * the gap is at least one place and all of it zero, and the IPv4 tail is the last four bytes.
   */
  lemma MeaningExactly(lit: Literal)
    requires WellFormed(lit)
    ensures forall i :: 0 <= i < |lit.groups| ==> PlaceOf(lit, i) < 8
    ensures forall i :: 0 <= i < |lit.groups| ==> Pair(Meaning(lit), PlaceOf(lit, i)) == Value(lit.groups[i], Hex)
    ensures lit.gap.Some? ==>
      var n := (16 - Size(lit)) / 2;
      && 1 <= n && lit.gap.value + n <= 8
      && forall g :: lit.gap.value <= g < lit.gap.value + n ==> Pair(Meaning(lit), g) == 0
    ensures lit.v4.Some? ==> Meaning(lit)[12..] == AddressBytes(Values(Parts(lit.v4.value)))
  {
    hide GroupsBytes, GroupBytes, Verdict, IsTail, AddressBytes, Meaning, Value;
    forall i | 0 <= i < |lit.groups|
      ensures PlaceOf(lit, i) < 8 && Pair(Meaning(lit), PlaceOf(lit, i)) == Value(lit.groups[i], Hex)
    {
      GroupPlaced(lit, i);
      PairOf(Meaning(lit), PlaceOf(lit, i), GroupBytes(lit.groups[i]));
      GroupIsItsValue(lit.groups[i]);
    }
    if lit.gap.Some? {
      forall g | lit.gap.value <= g < lit.gap.value + (16 - Size(lit)) / 2 ensures Pair(Meaning(lit), g) == 0 {
        GapIsZero(lit, g);
      }
    }
    TailIsLast(lit);
  }

  lemma GapIsZero(lit: Literal, g: nat)
    requires WellFormed(lit) && lit.gap.Some? && lit.gap.value <= g < lit.gap.value + (16 - Size(lit)) / 2
    ensures g < 8 && Pair(Meaning(lit), g) == 0
  {
    hide GroupsBytes, Verdict, AllGroups, IsTail, TailBytes;
    var n, z, t := lit.gap.value, Zeros(16 - Size(lit)), TailBytes(lit.v4);
    PieceAt(GroupsBytes(lit.groups[..n]), z, GroupsBytes(lit.groups[n..]) + t, 2 * (g - n));
    assert GroupsBytes(lit.groups[..n]) + z + (GroupsBytes(lit.groups[n..]) + t) == Meaning(lit);
    PairOf(Meaning(lit), g, z[2 * (g - n)..2 * (g - n) + 2]);
  }

  lemma TailIsLast(lit: Literal)
    requires WellFormed(lit)
    ensures lit.v4.Some? ==> Meaning(lit)[12..] == AddressBytes(Values(Parts(lit.v4.value)))
  {
    hide GroupsBytes, Verdict, AllGroups, IsTail, AddressBytes, Zeros;
  }
}
