/**
 * What growing and shrinking cost. The capacity follows the size by fixed rules; every
 * reallocation moves all elements. Over pushes and pops the moves stay linear.
 */
module DequeCost {

  const INITIAL_CAPACITY: nat := 3

  /** Size, capacity, and the number of element moves by reallocations so far. */
  datatype Cost = Cost(size: nat, capacity: nat, moved: nat)

  function Max(a: nat, b: nat): nat { if a < b then b else a }

  function Expanded(c: Cost, extra: nat): Cost {
    if c.capacity >= c.size + extra then c
    else
      var least := Max(c.size + extra, INITIAL_CAPACITY);
      Cost(c.size, Max(least, c.capacity + c.capacity / 4), c.moved + c.size)
  }

  function Shrunk(c: Cost): Cost {
    if c.capacity <= INITIAL_CAPACITY || c.capacity - c.size < c.size then c
    else
      var wanted := Max(INITIAL_CAPACITY, c.size + c.size / 4);
      if wanted < c.capacity then Cost(c.size, wanted, c.moved + c.size) else c
  }

  function Pushed(c: Cost): Cost { var e := Expanded(c, 1); e.(size := e.size + 1) }

  function Popped(c: Cost): Cost
    requires c.size > 0
  {
    Shrunk(c.(size := c.size - 1))
  }

  /** A capacity with room for `size` elements that is not below the minimum or the last one and a quarter. */
  predicate Allowed(size: nat, last: nat, n: nat) { size <= n && INITIAL_CAPACITY <= n && last + last / 4 <= n }

  /** Growing happens only for want of room, to the least capacity allowed, and moves every element once. */
  lemma ExpandedExactly(c: Cost, extra: nat, n: nat)
    ensures
      var e := Expanded(c, extra);
      if c.size + extra <= c.capacity then e == c
      else
        && e.size == c.size && e.moved == c.moved + c.size
        && Allowed(c.size + extra, c.capacity, e.capacity)
        && (Allowed(c.size + extra, c.capacity, n) ==> e.capacity <= n)
  {}

  /** Shrinking happens only with half or more unused, to the least capacity that leaves a quarter of slack. */
  lemma ShrunkExactly(c: Cost, n: nat)
    requires c.size <= c.capacity
    ensures
      var d, half := Shrunk(c), c.capacity > INITIAL_CAPACITY && 2 * c.size <= c.capacity;
      && d.size == c.size && d.capacity <= c.capacity
      && d.moved == c.moved + (if d.capacity < c.capacity then c.size else 0)
      && (d.capacity < c.capacity ==> half)
      && (half ==> Allowed(0, c.size, d.capacity) && (Allowed(0, c.size, n) ==> d.capacity <= n))
  {}

  // ---- amortised cost ------------------------------------------------------------------

  datatype Op = Push | Pop

  /** The state after a run of pushes and pops; a pop of an empty deque does not happen. */
  function Run(ops: seq<Op>): (c: Cost) {
    if ops == [] then Cost(0, 0, 0)
    else
      var c := Run(ops[..|ops| - 1]);
      if ops[|ops| - 1].Push? then Pushed(c)
      else if c.size == 0 then c
      else Popped(c)
  }

  /** How far the deque is from the shape a reallocation leaves: size to capacity as 4 to 5. */
  function Potential(c: Cost): int {
    if 4 * c.capacity < 5 * c.size then 5 * c.size - 4 * c.capacity else 4 * c.capacity - 5 * c.size
  }

  lemma PushIsCheap(c: Cost)
    requires c.size <= c.capacity
    ensures var d := Pushed(c);
      d.size <= d.capacity && d.moved + Potential(d) <= c.moved + Potential(c) + 17
  {}

  lemma PopIsCheap(c: Cost)
    requires 0 < c.size <= c.capacity
    ensures var d := Popped(c);
      d.size <= d.capacity && d.moved + Potential(d) <= c.moved + Potential(c) + 17
  {}

  lemma {:induction false} RunPotential(ops: seq<Op>)
    ensures var c := Run(ops); c.size <= c.capacity && c.moved + Potential(c) <= 17 * |ops|
  {
    if ops != [] {
      var c := Run(ops[..|ops| - 1]);
      RunPotential(ops[..|ops| - 1]);
      if ops[|ops| - 1].Push? { PushIsCheap(c); } else if c.size > 0 { PopIsCheap(c); }
    }
  }

  /** Any n pushes and pops from an empty deque move at most 17 n elements between buffers. */
  lemma AmortisedMoves(ops: seq<Op>)
    ensures Run(ops).moved <= 17 * |ops|
  {
    RunPotential(ops);
  }

  /** Over such a run, unless the capacity is minimal, less than half of it is ever unused. */
  lemma {:induction false} WasteIsBounded(ops: seq<Op>)
    ensures var c := Run(ops); c.capacity <= INITIAL_CAPACITY || c.capacity < 2 * c.size
  {
    if ops != [] {
      WasteIsBounded(ops[..|ops| - 1]);
      RunPotential(ops[..|ops| - 1]);
    }
  }
}
