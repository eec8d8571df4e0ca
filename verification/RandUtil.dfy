/** Random numbers in a range, by rejecting draws that would make some results likelier. */
module RandUtil {
  import opened Wrappers

  const TWO_64: int := 0x1_0000_0000_0000_0000
  const TWO_63: int := 0x8000_0000_0000_0000
  const TWO_32: int := 0x1_0000_0000
  const TWO_31: int := 0x8000_0000
  const MAX_UINT64: int := TWO_64 - 1

  type U64 = x: int | 0 <= x < TWO_64
  type I32 = x: int | -TWO_31 <= x < TWO_31

  // ---- one draw -------------------------------------------------------------------------

  /** Draws below this are accepted. */
  function Bound(range: U64): (b: int)
    requires range > 0
  {
    (MAX_UINT64 / range) * range
  }

  lemma BoundFits(range: U64)
    requires range > 0
    ensures range <= Bound(range) <= MAX_UINT64 && MAX_UINT64 - Bound(range) < range && MAX_UINT64 / range >= 1
  {
    MultipleBelow(MAX_UINT64, range);
  }

  lemma MultipleBelow(m: int, range: int)
    requires 0 < range <= m
    ensures range <= (m / range) * range <= m && m - (m / range) * range < range && m / range >= 1
  {
    QuotientRemainder(m, range);
    Multiply(m / range, range);
  }

  lemma Multiply(q: int, range: int)
    requires q >= 1 && range > 0
    ensures q * range >= range
  {}

  lemma QuotientRemainder(v: int, range: int)
    requires range > 0 && v >= 0
    ensures v == (v / range) * range + v % range && 0 <= v % range < range && v / range >= 0
    ensures v >= range ==> v / range >= 1
  {}

  /** At least half of all draws are accepted. */
  lemma HalfAccepted(range: U64)
    requires range > 0
    ensures Bound(range) >= TWO_63
  {
    BoundFits(range);
  }

  /** A number is fixed by its quotient and its remainder. */
  lemma QuotientUnique(q: int, r: int, range: int)
    requires range > 0 && 0 <= r < range && q >= 0
    ensures (q * range + r) / range == q && (q * range + r) % range == r
  {
    var v := q * range + r;
    assert v >= 0 by { assert q * range >= 0; }
    QuotientRemainder(v, range);
    var d := v / range - q;
    assert d * range == r - v % range by { assert d * range == (v / range) * range - q * range; }
    SmallMultiple(d, range);
  }

  lemma SmallMultiple(d: int, range: int)
    requires range > 0 && -range < d * range < range
    ensures d == 0
  {
    assert d >= 1 ==> d * range >= range;
    assert d <= -1 ==> d * range <= -range;
  }

  /** The numbers below q * range with a given remainder. */
  function Residues(q: nat, range: nat, r: nat): set<int>
    requires range > 0
  {
    set v | 0 <= v < q * range && v % range == r
  }

  lemma {:induction false} ResiduesCount(q: nat, range: nat, r: nat)
    requires r < range
    ensures |Residues(q, range, r)| == q
    decreases q
  {
    if q == 0 {
      assert Residues(q, range, r) == {};
    } else {
      var top := (q - 1) * range + r;
      ResiduesCount(q - 1, range, r);
      NextResidue(q, range, r);
      assert Residues(q, range, r) == Residues(q - 1, range, r) + {top};
      assert top !in Residues(q - 1, range, r);
    }
  }

  lemma NextResidue(q: nat, range: nat, r: nat)
    requires 0 < q && r < range
    ensures var top := (q - 1) * range + r; 0 <= top < q * range && top % range == r
    ensures (q - 1) * range <= q * range
    ensures forall v :: (q - 1) * range <= v < q * range && v % range == r ==> v == (q - 1) * range + r
  {
    QuotientUnique(q - 1, r, range);
    assert q * range == (q - 1) * range + range;
    assert (q - 1) * range >= 0;
    forall v | (q - 1) * range <= v < q * range && v % range == r ensures v == (q - 1) * range + r {
      var low := v - (q - 1) * range;
      QuotientUnique(q - 1, low, range);
      assert (q - 1) * range + low == v;
    }
  }

  /** Every result has exactly as many accepted draws as every other. */
  lemma EveryResidueAlike(range: U64, r: nat)
    requires r < range
    ensures |set v | 0 <= v < Bound(range) && v % range == r| == MAX_UINT64 / range
  {
    BoundFits(range);
    ResiduesCount(MAX_UINT64 / range, range, r);
    assert (set v | 0 <= v < Bound(range) && v % range == r) == Residues(MAX_UINT64 / range, range, r);
  }

  // ---- any number of draws ----------------------------------------------------------------

  /** The result of a series of draws: the first accepted one decides. */
  function Outcome(range: U64, draws: seq<U64>): (r: Option<int>)
    requires range > 0
    ensures r.Some? ==> 0 <= r.value < range
    decreases |draws|
  {
    if draws == [] then None
    else if draws[0] < Bound(range) then Some(draws[0] % range)
    else Outcome(range, draws[1..])
  }

  /** This draw is the first that the bound accepts. */
  predicate Decides(range: U64, draws: seq<U64>, i: nat)
    requires range > 0
  {
    i < |draws| && draws[i] < Bound(range) && forall j :: 0 <= j < i ==> draws[j] >= Bound(range)
  }

  /** The result is the remainder of the first accepted draw. */
  lemma {:induction false} OutcomeExactly(range: U64, draws: seq<U64>, i: nat)
    requires range > 0 && Decides(range, draws, i)
    ensures Outcome(range, draws) == Some(draws[i] % range)
    decreases |draws|
  {
    hide Bound;
    if i > 0 { OutcomeExactly(range, draws[1..], i - 1); }
  }

  /** There is none exactly if no draw is accepted. */
  lemma {:induction false} NoOutcomeExactly(range: U64, draws: seq<U64>)
    requires range > 0
    ensures Outcome(range, draws) == None <==> forall i :: 0 <= i < |draws| ==> draws[i] >= Bound(range)
    decreases |draws|
  {
    hide Bound;
    if draws != [] { NoOutcomeExactly(range, draws[1..]); }
  }

  /** Two results change places. */
  function Exchanged(a: int, b: int, r: int): int { if r == a then b else if r == b then a else r }

  /** The draw that stands where this one stands, with the two results in each other's place. */
  function SwapDraw(range: U64, a: nat, b: nat, v: U64): (w: U64)
    requires a < range && b < range
    ensures w < Bound(range) <==> v < Bound(range)
    ensures v < Bound(range) ==> w % range == Exchanged(a, b, v % range) && w / range == v / range
    ensures v >= Bound(range) ==> w == v
  {
    if v < Bound(range) then
      BoundFits(range);
      SwapFits(range, a, b, v);
      (v / range) * range + Exchanged(a, b, v % range)
    else v
  }

  lemma SwapFits(range: U64, a: nat, b: nat, v: U64)
    requires a < range && b < range && v < Bound(range)
    ensures
      var w := (v / range) * range + Exchanged(a, b, v % range);
      0 <= w < Bound(range) && w % range == Exchanged(a, b, v % range) && w / range == v / range
  {
    QuotientRemainder(v, range);
    var r := Exchanged(a, b, v % range);
    QuotientUnique(v / range, r, range);
    assert (v / range) * range >= 0;
    Below(v / range, v % range, r, MAX_UINT64 / range, range);
  }

  lemma Below(q: int, r: int, r': int, m: int, range: int)
    requires range > 0 && q >= 0 && 0 <= r < range && 0 <= r' < range && q * range + r < m * range
    ensures q * range + r' < m * range
  {
    assert q >= m ==> q * range >= m * range;
    assert q + 1 <= m;
    assert (q + 1) * range <= m * range;
  }

  lemma SwapTwice(range: U64, a: nat, b: nat, v: U64)
    requires a < range && b < range
    ensures SwapDraw(range, a, b, SwapDraw(range, a, b, v)) == v
  {
    if v < Bound(range) {
      var w := SwapDraw(range, a, b, v);
      var x := SwapDraw(range, a, b, w);
      QuotientRemainder(v, range);
      QuotientRemainder(w, range);
      QuotientRemainder(x, range);
    }
  }

  function Swap(range: U64, a: nat, b: nat, draws: seq<U64>): (r: seq<U64>)
    requires a < range && b < range
    ensures |r| == |draws|
    decreases |draws|
  {
    if draws == [] then [] else [SwapDraw(range, a, b, draws[0])] + Swap(range, a, b, draws[1..])
  }

  /**
   * Exact uniformity over draws of any length: exchanging two results is a one-to-one exchange
   * of draw series of the same length, so neither result has more of them than the other.
   */
  lemma {:induction false} OutcomesAlike(range: U64, a: nat, b: nat, draws: seq<U64>)
    requires a < range && b < range
    ensures Swap(range, a, b, Swap(range, a, b, draws)) == draws
    ensures Outcome(range, Swap(range, a, b, draws)).Some? <==> Outcome(range, draws).Some?
    ensures Outcome(range, draws).Some? ==>
      Outcome(range, Swap(range, a, b, draws)).value == Exchanged(a, b, Outcome(range, draws).value)
    decreases |draws|
  {
    if draws != [] {
      var v, rest := draws[0], draws[1..];
      SwapTwice(range, a, b, v);
      OutcomesAlike(range, a, b, rest);
      var s := Swap(range, a, b, draws);
      assert s[0] == SwapDraw(range, a, b, v) && s[1..] == Swap(range, a, b, rest);
    }
  }

  // ---- counting them -----------------------------------------------------------------------

  /** All series of n draws. */
  ghost function AllDraws(n: nat): set<seq<U64>> {
    if n == 0 then {[]} else set v: U64, d | d in AllDraws(n - 1) :: [v] + d
  }

  lemma {:induction false} AllDrawsExactly(n: nat, d: seq<U64>)
    ensures d in AllDraws(n) <==> |d| == n
    decreases n
  {
    if n > 0 {
      if |d| > 0 {
        AllDrawsExactly(n - 1, d[1..]);
        assert d == [d[0]] + d[1..];
      }
      if d in AllDraws(n) {
        var v: U64, e :| e in AllDraws(n - 1) && d == [v] + e;
        AllDrawsExactly(n - 1, e);
      }
    }
  }

  /** The series of n draws that lead to r. */
  ghost function Series(range: U64, n: nat, r: int): set<seq<U64>>
    requires range > 0
  {
    set d | d in AllDraws(n) && Outcome(range, d) == Some(r)
  }

  /** A one-to-one image is as large as the set. */
  lemma {:induction false} ImageSize<T>(a: set<T>, b: set<T>, f: T -> T)
    requires forall x :: x in a ==> f(x) in b && f(f(x)) == x
    requires forall y :: y in b ==> f(y) in a && f(f(y)) == y
    ensures |a| == |b|
    decreases |a|
  {
    if a == {} {
      if y :| y in b { assert f(y) in a; }
    } else {
      var x :| x in a;
      assert |b| == |b - {f(x)}| + 1;
      ImageSize(a - {x}, b - {f(x)}, f);
    }
  }

  /** Of the series of n draws, exactly as many lead to one result as to any other. */
  lemma EqualCounts(range: U64, a: nat, b: nat, n: nat)
    requires a < range && b < range
    ensures |Series(range, n, a)| == |Series(range, n, b)|
  {
    hide Outcome, Swap, AllDraws;
    var f: seq<U64> -> seq<U64> := d => Swap(range, a, b, d);
    forall d: seq<U64>
      ensures d in Series(range, n, a) ==> f(d) in Series(range, n, b) && f(f(d)) == d
      ensures d in Series(range, n, b) ==> f(d) in Series(range, n, a) && f(f(d)) == d
    {
      OutcomesAlike(range, a, b, d);
      AllDrawsExactly(n, d);
      AllDrawsExactly(n, f(d));
    }
    ImageSize(Series(range, n, a), Series(range, n, b), f);
  }

  /** Draws until one is accepted; the draws are given, and may run out. */
  method RandGenerator(range: U64, draws: seq<U64>) returns (r: Option<int>)
    requires range > 0
    ensures r == Outcome(range, draws)
  {
    BoundFits(range);
    var maxAcceptable: U64 := (MAX_UINT64 / range) * range - 1;
    var i := 0;
    while i < |draws| && draws[i] > maxAcceptable
      invariant i <= |draws| && Outcome(range, draws) == Outcome(range, draws[i..])
    {
      assert draws[i..][1..] == draws[i + 1..];
      i := i + 1;
    }
    if i == |draws| {
      return None;
    }
    return Some(draws[i] % range);
  }

  // ---- integers ------------------------------------------------------------------------------

  function ToU64(x: int): U64 { x % TWO_64 }

  function ToI64(x: int): int { if ToU64(x) < TWO_63 then ToU64(x) else ToU64(x) - TWO_64 }

  function ToI32(x: int): I32 {
    var u := x % TWO_32;
    if u < TWO_31 then u else u - TWO_32
  }

  /** The length of the interval, in the machine's unsigned arithmetic. */
  function RangeOf(min: I32, max: I32): U64 { ToU64(ToU64(ToU64(max) - ToU64(min)) + 1) }

  /** The unsigned arithmetic gives the true length of the interval. */
  lemma RangeExact(min: I32, max: I32)
    requires min <= max
    ensures RangeOf(min, max) == max - min + 1
  {
    var a: int := ToU64(max);
    var b: int := ToU64(min);
    assert a == if max >= 0 then max else max + TWO_64;
    assert b == if min >= 0 then min else min + TWO_64;
    assert ToU64(a - b) == max - min;
  }

  /** A result of the generator, added to the lower end, stays in the interval and fits an int. */
  lemma SumExact(min: I32, max: I32, r: int)
    requires min <= max && 0 <= r <= max - min
    ensures ToI32(min + ToI64(r)) == min + r
  {
    assert ToU64(r) == r;
    assert ToI64(r) == r;
    var x := min + r;
    assert x % TWO_32 == if x >= 0 then x else x + TWO_32;
  }

  /** The integer a series of draws leads to. */
  function IntOutcome(min: I32, max: I32, draws: seq<U64>): (r: Option<I32>)
    requires min <= max
    ensures r.Some? ==> min <= r.value <= max
  {
    match Outcome(max - min + 1, draws)
    case None => None
    case Some(r) => Some(min + r)
  }

  /** The integer is as far above the lower end as the remainder of the first accepted draw says. */
  lemma IntOutcomeExactly(min: I32, max: I32, draws: seq<U64>, i: nat)
    requires min <= max && Decides(max - min + 1, draws, i)
    ensures IntOutcome(min, max, draws) == Some(min + draws[i] % (max - min + 1))
  {
    hide Outcome;
    OutcomeExactly(max - min + 1, draws, i);
  }

  method RandInt(min: I32, max: I32, draws: seq<U64>) returns (result: Option<I32>)
    requires min <= max
    ensures result == IntOutcome(min, max, draws)
  {
    hide Outcome, RangeOf, ToI32, ToI64;
    RangeExact(min, max);
    var range := RangeOf(min, max);
    var r := RandGenerator(range, draws);
    if r.None? {
      return None;
    }
    SumExact(min, max, r.value);
    return Some(ToI32(min + ToI64(r.value)));
  }

  /** The series of n draws that lead to x. */
  ghost function IntSeries(min: I32, max: I32, n: nat, x: I32): set<seq<U64>>
    requires min <= max
  {
    set d | d in AllDraws(n) && IntOutcome(min, max, d) == Some(x)
  }

  /** Of the series of n draws, exactly as many lead to one integer of the interval as to any other. */
  lemma IntegersAlike(min: I32, max: I32, x: I32, y: I32, n: nat)
    requires min <= x <= max && min <= y <= max
    ensures |IntSeries(min, max, n, x)| == |IntSeries(min, max, n, y)|
  {
    hide Outcome, AllDraws;
    var range := max - min + 1;
    EqualCounts(range, x - min, y - min, n);
    assert IntSeries(min, max, n, x) == Series(range, n, x - min);
    assert IntSeries(min, max, n, y) == Series(range, n, y - min);
  }
}
