/**
 * The growable output buffer of the canonicalizer. Growth doubles the buffer and is
 * refused once it holds 2^30 characters; a refused character is dropped.
 */
module CanonOutput {
  import opened Wrappers

  const MAX_GROWABLE: nat := 0x4000_0000
  const MIN_BUFFER_LEN: nat := 16

  /** What an output holds: its text and the size of the buffer behind it. */
  datatype Content = Content(text: string, room: nat)

  /** Doubles `len` at least once until it reaches `need`; None when it may not double again. */
  function GrownLen(len: nat, need: nat): (r: Option<nat>)
    requires len > 0
    ensures r.Some? ==> need <= r.value && len < r.value < 2 * MAX_GROWABLE
    ensures need <= 2 * len ==> (r.Some? <==> len < MAX_GROWABLE)
    decreases if len >= MAX_GROWABLE then 0 else MAX_GROWABLE - len
  {
    if len >= MAX_GROWABLE then None
    else if 2 * len < need then GrownLen(2 * len, need)
    else Some(2 * len)
  }

  /** Doubled a number of times. */
  function Doubled(len: nat, times: nat): nat { if times == 0 then len else 2 * Doubled(len, times - 1) }

  /** The new length is the first that doubling reaches at or above the need, from below 2^30. */
  predicate Reached(len: nat, need: nat, n: nat, times: nat) {
    && times >= 1 && n == Doubled(len, times) && need <= n && Doubled(len, times - 1) < MAX_GROWABLE
    && (times == 1 || Doubled(len, times - 1) < need)
  }

  lemma {:induction false} DoubledLater(len: nat, times: nat)
    ensures Doubled(2 * len, times) == Doubled(len, times + 1)
  {
    if times > 0 { DoubledLater(len, times - 1); }
  }

  lemma {:induction false} DoubledGrows(len: nat, times: nat)
    ensures len <= Doubled(len, times)
  {
    if times > 0 { DoubledGrows(len, times - 1); }
  }

  lemma {:induction false} GrownReaches(len: nat, need: nat) returns (times: nat)
    requires len > 0 && GrownLen(len, need).Some?
    ensures Reached(len, need, GrownLen(len, need).value, times)
    decreases if len >= MAX_GROWABLE then 0 else MAX_GROWABLE - len
  {
    if 2 * len < need {
      var k := GrownReaches(2 * len, need);
      DoubledLater(len, k);
      DoubledLater(len, k - 1);
      times := k + 1;
    } else {
      times := 1;
    }
  }

  lemma {:induction false} ReachedGrows(len: nat, need: nat, n: nat, times: nat)
    requires len > 0 && Reached(len, need, n, times)
    ensures GrownLen(len, need) == Some(n)
    decreases times
  {
    DoubledGrows(len, times - 1);
    if times > 1 {
      DoubledLater(len, times - 1);
      DoubledLater(len, times - 2);
      DoubledGrows(2 * len, times - 2);
      ReachedGrows(2 * len, need, n, times - 1);
    }
  }

  lemma GrownExactly(len: nat, need: nat, n: nat)
    requires len > 0
    ensures GrownLen(len, need) == Some(n) <==> exists times :: Reached(len, need, n, times)
  {
    hide GrownLen, Reached;
    if GrownLen(len, need) == Some(n) { var _ := GrownReaches(len, need); }
    forall times | Reached(len, need, n, times) ensures GrownLen(len, need) == Some(n) {
      ReachedGrows(len, need, n, times);
    }
  }

  function StartLen(room: nat): (n: nat)
    ensures n > 0
  {
    if room == 0 then MIN_BUFFER_LEN else room
  }

  function Push(o: Content, ch: char): Content {
    if |o.text| < o.room then Content(o.text + [ch], o.room)
    else
      match GrownLen(StartLen(o.room), o.room + 1)
      case None => o
      case Some(n) => Content(o.text + [ch], n)
  }

  function PushAll(o: Content, s: string): Content {
    if s == "" then o else Push(PushAll(o, s[..|s| - 1]), s[|s| - 1])
  }

  /** Up to 2^30 characters nothing is ever dropped. */
  lemma {:induction false} PushAllKeepsText(o: Content, s: string)
    requires |o.text| <= o.room && |o.text| + |s| <= MAX_GROWABLE
    ensures PushAll(o, s).text == o.text + s && |PushAll(o, s).text| <= PushAll(o, s).room
  {
    if s == "" {
      assert o.text + s == o.text;
    } else {
      PushAllKeepsText(o, s[..|s| - 1]);
      assert o.text + s == o.text + s[..|s| - 1] + [s[|s| - 1]];
    }
  }

  lemma {:induction false} PushAllAppend(o: Content, a: string, b: string)
    ensures PushAll(o, a + b) == PushAll(PushAll(o, a), b)
  {
    if b == "" {
      assert a + b == a;
    } else {
      PushAllAppend(o, a, b[..|b| - 1]);
      assert (a + b)[..|a + b| - 1] == a + b[..|b| - 1];
    }
  }

  class Output {
    var buffer: array<char>
    var curLen: nat

    ghost predicate Valid()
      reads this
    {
      curLen <= buffer.Length
    }

    ghost function Contents(): Content
      reads this, buffer
      requires Valid()
    {
      Content(buffer[..curLen], buffer.Length)
    }

    constructor (capacity: nat)
      ensures Valid() && Contents() == Content("", capacity) && fresh(buffer)
    {
      buffer := new char[capacity];
      curLen := 0;
    }

    /** Moves the text, or as much of it as there is room for, to a buffer of `size` characters. */
    method Resize(size: nat)
      requires Valid()
      modifies this
      ensures fresh(buffer) && buffer.Length == size && curLen == old(curLen)
      ensures var n := if curLen < size then curLen else size; buffer[..n] == old(buffer[..n])
      ensures curLen <= size ==> Valid() && Contents() == Content(old(Contents().text), size)
    {
      var moved := new char[size];
      for i := 0 to if curLen < size then curLen else size
        modifies moved
        invariant moved[..i] == buffer[..i]
      {
        moved[i] := buffer[i];
      }
      buffer := moved;
    }

    method Grow(minAdditional: nat) returns (ok: bool)
      requires Valid()
      modifies this
      ensures Valid() && curLen == old(curLen) && Contents().text == old(Contents().text)
      ensures var r := GrownLen(StartLen(old(buffer.Length)), old(buffer.Length) + minAdditional);
        ok == r.Some? && (if ok then fresh(buffer) && buffer.Length == r.value else buffer == old(buffer))
    {
      var newLen := StartLen(buffer.Length);
      var done := false;
      while !done
        invariant newLen > 0 && (done ==> newLen > buffer.Length)
        invariant newLen >= StartLen(buffer.Length)
        invariant GrownLen(StartLen(buffer.Length), buffer.Length + minAdditional)
          == if done then Some(newLen) else GrownLen(newLen, buffer.Length + minAdditional)
        decreases !done, MAX_GROWABLE - newLen
      {
        if newLen >= MAX_GROWABLE {
          return false;
        }
        newLen := newLen * 2;
        done := newLen >= buffer.Length + minAdditional;
      }
      Resize(newLen);
      return true;
    }

    method PushBack(ch: char)
      requires Valid()
      modifies this, buffer
      ensures Valid() && Contents() == Push(old(Contents()), ch)
      ensures buffer == old(buffer) || fresh(buffer)
    {
      if curLen < buffer.Length {
        buffer[curLen] := ch;
        curLen := curLen + 1;
        return;
      }
      var ok := Grow(1);
      if !ok {
        return;
      }
      ghost var text := buffer[..curLen];
      buffer[curLen] := ch;
      curLen := curLen + 1;
      assert buffer[..curLen] == text + [ch];
    }

    /** Pushes the characters of a text one by one, as the number printers do. */
    method PushText(s: string)
      requires Valid()
      modifies this, buffer
      ensures Valid() && Contents() == PushAll(old(Contents()), s)
      ensures buffer == old(buffer) || fresh(buffer)
    {
      for i := 0 to |s|
        invariant Valid() && Contents() == PushAll(old(Contents()), s[..i])
        invariant buffer == old(buffer) || fresh(buffer)
      {
        assert s[..i + 1][..i] == s[..i];
        PushBack(s[i]);
      }
      assert s[..|s|] == s;
    }
  }
}
