/** The tabu list: a fixed number of slots, each empty or holding the ordered
    pair of jobs of one past move, overwritten in a cycle. */
module TabuMemory {

  /** The ordered pair of job identities recorded for one move. */
  datatype Pair = Pair(first: nat, second: nat)

  /** One slot of the list; `Empty` is the null entry every slot starts with. */
  datatype Slot = Empty | Full(pair: Pair)

  function Min(x: int, y: int): int
  {
    if x <= y then x else y
  }

  /** The last `min(|h|, n)` entries of `h`, oldest first. */
  function Recent<T>(h: seq<T>, n: nat): (r: seq<T>)
    ensures |r| == Min(|h|, n)
    ensures forall k :: 0 <= k < |r| ==> r[k] == h[|h| - |r| + k]
  {
    h[|h| - Min(|h|, n)..]
  }

  /** The cursor step of the list: one slot on, from the last back to the first. */
  function Next(c: nat, n: nat): nat
  {
    if c == n - 1 then 0 else c + 1
  }

  /** The slot the cursor is on after `m` pairs were added to an empty list of
      `n` slots. */
  function Cursor(m: nat, n: nat): (c: nat)
    requires n > 0
    ensures c < n
  {
    if m == 0 then 0 else Next(Cursor(m - 1, n), n)
  }

  /** The slots of a list of `n` slots after the pairs `h` were added, in that
      order, to an empty one: each pair goes to the slot under the cursor. */
  ghost function Ring(h: seq<Pair>, n: nat): (r: seq<Slot>)
    ensures |r| == n
  {
    if h == [] || n == 0 then seq(n, _ => Empty)
    else Ring(h[..|h| - 1], n)[Cursor(|h| - 1, n) := Full(h[|h| - 1])]
  }

  /** `d <= n` further steps move the cursor `d` slots on, wrapping at most once. */
  lemma {:induction false} CursorAdvance(k: nat, d: nat, n: nat)
    requires 0 < n && d <= n
    ensures Cursor(k + d, n) == if Cursor(k, n) + d < n then Cursor(k, n) + d else Cursor(k, n) + d - n
  {
    if d > 0 {
      CursorAdvance(k, d - 1, n);
    }
  }

  /** The last `min(|h|, n)` pairs are in the slots, the k-th of them in slot
      `Cursor(k, n)`. */
  lemma {:induction false} RingWindow(h: seq<Pair>, n: nat, k: nat)
    requires n > 0 && k < |h| && |h| - n <= k
    ensures Ring(h, n)[Cursor(k, n)] == Full(h[k])
  {
    var m := |h| - 1;
    var h0 := h[..m];
    assert Ring(h, n) == Ring(h0, n)[Cursor(m, n) := Full(h[m])];
    if k < m {
      RingWindow(h0, n, k);
      CursorAdvance(k, m - k, n);
      assert h0[k] == h[k];
    }
  }

  /** Slots the cursor has not reached yet are empty. */
  lemma {:induction false} RingUnused(h: seq<Pair>, n: nat, i: nat)
    requires |h| <= i < n
    ensures Ring(h, n)[i] == Empty
  {
    if h != [] {
      var m := |h| - 1;
      RingUnused(h[..m], n, i);
      CursorAdvance(0, m, n);
    }
  }

  /** Every full slot holds one of the last `min(|h|, n)` pairs: the k-th of
      them, for the k with `Cursor(k, n)` that slot. */
  lemma {:induction false} RingFull(h: seq<Pair>, n: nat, i: nat) returns (k: nat)
    requires i < n && Ring(h, n)[i] != Empty
    ensures k < |h| && |h| - n <= k && Cursor(k, n) == i && Ring(h, n)[i] == Full(h[k])
  {
    var m := |h| - 1;
    var h0 := h[..m];
    var c := Cursor(m, n);
    var r0, r := Ring(h0, n), Ring(h, n);
    assert r == r0[c := Full(h[m])];
    if i == c {
      k := m;
    } else {
      assert r0[i] == r[i];
      k := RingFull(h0, n, i);
      if k == m - n {
        CursorAdvance(k, n, n);
        assert false;
      }
      assert h0[k] == h[k];
    }
  }

  /** A pair in some slot is one of the last `n` added. */
  lemma {:induction false} RingInRecent(h: seq<Pair>, n: nat, i: nat)
    requires i < n && Ring(h, n)[i] != Empty
    ensures Ring(h, n)[i].pair in Recent(h, n)
  {
    var k := RingFull(h, n, i);
    var w := Recent(h, n);
    assert w[k - (|h| - |w|)] == h[k];
  }

  /** Each of the last `n` pairs added is in some slot. */
  lemma {:induction false} RecentInRing(h: seq<Pair>, n: nat, k: nat)
    requires k < |Recent(h, n)|
    ensures Full(Recent(h, n)[k]) in Ring(h, n)
  {
    var w := Recent(h, n);
    var k' := |h| - |w| + k;
    RingWindow(h, n, k');
    assert Ring(h, n)[Cursor(k', n)] == Full(w[k]);
  }

  /** A pair is in some slot exactly when it is one of the last `n` added. */
  lemma {:induction false} RingHoldsRecent(h: seq<Pair>, n: nat, p: Pair)
    ensures Full(p) in Ring(h, n) <==> p in Recent(h, n)
  {
    var r, w := Ring(h, n), Recent(h, n);
    if Full(p) in r {
      var i :| 0 <= i < n && r[i] == Full(p);
      RingInRecent(h, n, i);
    }
    if p in w {
      var k :| 0 <= k < |w| && w[k] == p;
      RecentInRing(h, n, k);
    }
  }

  /** After the pairs `h` were added, the list holds exactly the last
      `min(|h|, n)` of them: each one is found, and so is nothing else. */
  lemma {:induction false} HoldsLastPairs(h: seq<Pair>, n: nat, a: nat, b: nat)
    ensures Full(Pair(a, b)) in Ring(h, n) <==> exists k :: |h| - Min(|h|, n) <= k < |h| && h[k] == Pair(a, b)
  {
    RingHoldsRecent(h, n, Pair(a, b));
    var w := Recent(h, n);
    var lo := |h| - |w|;
    assert lo == |h| - Min(|h|, n);
    if Pair(a, b) in w {
      var k :| 0 <= k < |w| && w[k] == Pair(a, b);
      assert h[lo + k] == Pair(a, b);
    }
    if exists k :: lo <= k < |h| && h[k] == Pair(a, b) {
      var k :| lo <= k < |h| && h[k] == Pair(a, b);
      assert w[k - lo] == Pair(a, b);
    }
  }

  /** The tabu list of the search: `slots` is the fixed array of pairs,
      `cursor` the slot the next pair goes to, and `History` every pair ever
      added, oldest first. */
  class TabuList {
    const slots: array<Slot>
    var cursor: nat
    ghost var History: seq<Pair>

    ghost predicate Valid()
      reads this, slots
    {
      && (slots.Length == 0 ==> cursor == 0)
      && (slots.Length > 0 ==> cursor == Cursor(|History|, slots.Length))
      && slots[..] == Ring(History, slots.Length)
    }

    /** A list of `length` slots, all empty, the cursor on the first. */
    constructor (length: nat)
      ensures Valid() && fresh(slots)
      ensures slots.Length == length && History == [] && cursor == 0
    {
      slots := new Slot[length](_ => Empty);
      cursor := 0;
      History := [];
    }

    /** Some slot holds exactly the ordered pair `(a, b)`. */
    ghost predicate InSlots(a: nat, b: nat)
      reads this, slots
    {
      exists i :: 0 <= i < slots.Length && slots[i] == Full(Pair(a, b))
    }

    /** The slots hold `(a, b)` exactly when it is among the last pairs added. */
    lemma {:induction false} SlotsHoldRecent(a: nat, b: nat)
      requires Valid()
      ensures InSlots(a, b) <==> Pair(a, b) in Recent(History, slots.Length)
    {
      RingHoldsRecent(History, slots.Length, Pair(a, b));
      if InSlots(a, b) {
        var i :| 0 <= i < slots.Length && slots[i] == Full(Pair(a, b));
        assert slots[..][i] == Full(Pair(a, b));
      }
      if Full(Pair(a, b)) in slots[..] {
        var i :| 0 <= i < slots.Length && slots[..][i] == Full(Pair(a, b));
        assert slots[i] == Full(Pair(a, b));
      }
    }

    /** Linear search of the slots for the ordered pair `(a, b)`: empty slots
        never match, nor does `(b, a)` unless it was itself added; the answer
        is whether `(a, b)` is among the last pairs added. */
    method Contains(a: nat, b: nat) returns (found: bool)
      requires Valid()
      ensures found == InSlots(a, b)
      ensures found <==> Pair(a, b) in Recent(History, slots.Length)
    {
      SlotsHoldRecent(a, b);
      var i := 0;
      while i < slots.Length
        invariant 0 <= i <= slots.Length
        invariant forall k :: 0 <= k < i ==> slots[k] != Full(Pair(a, b))
      {
        if slots[i] == Full(Pair(a, b)) {
          return true;
        }
        i := i + 1;
      }
      return false;
    }

    /** Writes `(a, b)` into the slot under the cursor and moves the cursor on
        by one, from the last slot back to the first; with no slots it does
        nothing. */
    method Add(a: nat, b: nat)
      requires Valid()
      modifies this, slots
      ensures Valid()
      ensures History == old(History) + [Pair(a, b)]
      ensures slots.Length > 0 ==> slots[..] == old(slots[..])[old(cursor) := Full(Pair(a, b))]
      ensures slots.Length == 0 ==> cursor == 0
      ensures slots.Length > 0 ==> cursor == if old(cursor) == slots.Length - 1 then 0 else old(cursor) + 1
      ensures slots.Length > 0 ==> InSlots(a, b)
    {
      History := History + [Pair(a, b)];
      if slots.Length > 0 {
        slots[cursor] := Full(Pair(a, b));
        assert History[..|History| - 1] == old(History);
        if cursor == slots.Length - 1 {
          cursor := 0;
        } else {
          cursor := cursor + 1;
        }
        assert slots[old(cursor)] == Full(Pair(a, b));
      }
    }
  }

  /** Pigeonhole: distinct values all found in `ys` are at most `|ys|` many. */
  lemma {:induction false} Pigeonhole<T>(xs: seq<T>, ys: seq<T>)
    requires forall k, l :: 0 <= k < l < |xs| ==> xs[k] != xs[l]
    requires forall k :: 0 <= k < |xs| ==> xs[k] in ys
    ensures |xs| <= |ys|
  {
    if xs != [] {
      var i :| 0 <= i < |ys| && ys[i] == xs[0];
      var rest := ys[..i] + ys[i + 1..];
      forall k | 0 <= k < |xs| - 1
        ensures xs[1..][k] in rest
      {
        var x := xs[k + 1];
        assert x != xs[0];
        var j :| 0 <= j < |ys| && ys[j] == x;
        if j < i {
          assert rest[j] == x;
        } else {
          assert rest[j - 1] == x;
        }
      }
      Pigeonhole(xs[1..], rest);
    }
  }

  /** In a schedule of distinct jobs the adjacent pairs are distinct, so fewer
      recorded pairs than adjacent positions cannot cover every position. */
  lemma {:induction false} AdmissiblePairExists(pairs: seq<Pair>, s: seq<nat>)
    requires forall k, l :: 0 <= k < l < |s| ==> s[k] != s[l]
    requires |pairs| < |s| - 1
    ensures exists j :: 0 <= j < |s| - 1 && Pair(s[j], s[j + 1]) !in pairs
  {
    if forall j :: 0 <= j < |s| - 1 ==> Pair(s[j], s[j + 1]) in pairs {
      var adjacent := seq(|s| - 1, j requires 0 <= j < |s| - 1 => Pair(s[j], s[j + 1]));
      forall k, l | 0 <= k < l < |adjacent|
        ensures adjacent[k] != adjacent[l]
      {
        assert s[k] != s[l];
      }
      Pigeonhole(adjacent, pairs);
    }
  }
}
