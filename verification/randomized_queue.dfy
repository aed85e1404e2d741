/**
 The randomized queue: a resizing array `a` that may have holes, a window
 `[head, tail]` holding every stored item, and the item count `n`. Items
 are removed and sampled at a random position, found by scanning down from
 a random index in the window and wrapping round to `tail` when the scan
 falls off the bottom of the array.

 Java's `null` is `None`. The random index is a nondeterministic choice in
 `[head, tail]`, the range `StdRandom.uniform(head, tail + 1)` promises, so
 every contract below holds whichever index is drawn.
 */
module RandomizedQueue {
  import opened Results

  /** The queue's fields: the backing array (`None` for an empty slot), the
      number of items, and the window of slots that may hold them. */
  datatype Queue<T> = Queue(a: seq<Option<T>>, n: int, head: int, tail: int)

  /** The items of an array, in slot order, holes skipped. */
  function Compact<T>(s: seq<Option<T>>): (r: seq<T>)
    ensures |r| <= |s|
  {
    if |s| == 0 then []
    else Compact(s[..|s| - 1]) + if s[|s| - 1].Some? then [s[|s| - 1].value] else []
  }

  /** The multiset of items stored in the queue. */
  function Items<T>(q: Queue<T>): multiset<T>
  {
    multiset(Compact(q.a))
  }

  /** The object invariant: a non-empty array, a window inside it holding
      every item (so every slot below `head` is empty), and `n` counting
      the items. */
  predicate Valid<T>(q: Queue<T>)
  {
    1 <= |q.a| && 0 <= q.head <= q.tail < |q.a|
    && (forall i :: 0 <= i < |q.a| && q.a[i].Some? ==> q.head <= i <= q.tail)
    && q.n == |Compact(q.a)|
  }

  // ---------------------------------------------------------------------
  // Facts about Compact
  // ---------------------------------------------------------------------

  lemma {:induction false} CompactAppend<T>(s: seq<Option<T>>, t: seq<Option<T>>)
    ensures Compact(s + t) == Compact(s) + Compact(t)
    decreases |t|
  {
    if |t| == 0 {
      assert s + t == s;
    } else {
      assert (s + t)[..|s + t| - 1] == s + t[..|t| - 1];
      CompactAppend(s, t[..|t| - 1]);
    }
  }

  lemma {:induction false} CompactAllNone<T>(s: seq<Option<T>>)
    requires forall i :: 0 <= i < |s| ==> s[i].None?
    ensures Compact(s) == []
    decreases |s|
  {
    if |s| > 0 {
      CompactAllNone(s[..|s| - 1]);
    }
  }

  /** A non-empty compaction comes from an occupied slot. */
  lemma CompactHasSlot<T>(s: seq<Option<T>>)
    requires |Compact(s)| > 0
    ensures exists i :: 0 <= i < |s| && s[i].Some?
  {
    if forall i :: 0 <= i < |s| ==> s[i].None? {
      CompactAllNone(s);
    }
  }

  /** The compaction splits around slot `i`. */
  lemma {:induction false} CompactSplit<T>(s: seq<Option<T>>, i: int)
    requires 0 <= i < |s|
    ensures Compact(s) == Compact(s[..i]) + Compact([s[i]]) + Compact(s[i + 1..])
  {
    var front, slot, back := s[..i], [s[i]], s[i + 1..];
    assert s == front + slot + back;
    CompactAppend(front + slot, back);
    CompactAppend(front, slot);
  }

  /** Filling an empty slot adds one item. */
  lemma CompactFill<T>(s: seq<Option<T>>, i: int, x: T)
    requires 0 <= i < |s| && s[i].None?
    ensures multiset(Compact(s[i := Some(x)])) == multiset(Compact(s)) + multiset{x}
    ensures |Compact(s[i := Some(x)])| == |Compact(s)| + 1
  {
    var t := s[i := Some(x)];
    CompactSplit(s, i);
    CompactSplit(t, i);
    assert t[..i] == s[..i] && t[i + 1..] == s[i + 1..];
    assert Compact([t[i]]) == [x] by {
      assert [t[i]][..0] == [];
    }
    assert Compact([s[i]]) == [] by {
      assert [s[i]][..0] == [];
    }
  }

  /** Emptying an occupied slot removes exactly its item. */
  lemma CompactClear<T>(s: seq<Option<T>>, i: int)
    requires 0 <= i < |s| && s[i].Some?
    ensures s[i].value in multiset(Compact(s))
    ensures multiset(Compact(s[i := None])) == multiset(Compact(s)) - multiset{s[i].value}
    ensures |Compact(s[i := None])| == |Compact(s)| - 1
  {
    var t := s[i := None];
    assert t[i := s[i]] == s;
    CompactFill(t, i, s[i].value);
  }

  /** Items live in the window `[lo, hi)`, so it holds the whole compaction. */
  lemma CompactWindow<T>(s: seq<Option<T>>, lo: int, hi: int)
    requires 0 <= lo <= hi <= |s|
    requires forall i :: 0 <= i < |s| && s[i].Some? ==> lo <= i < hi
    ensures Compact(s) == Compact(s[lo..hi])
    ensures |Compact(s)| <= hi - lo
  {
    assert s == s[..lo] + s[lo..hi] + s[hi..];
    CompactAppend(s[..lo] + s[lo..hi], s[hi..]);
    CompactAppend(s[..lo], s[lo..hi]);
    CompactAllNone(s[..lo]);
    CompactAllNone(s[hi..]);
  }

  // ---------------------------------------------------------------------
  // Construction and queries
  // ---------------------------------------------------------------------

  /** The source's constructor: an empty array of two slots. */
  function New<T>(): (q: Queue<T>)
    ensures Valid(q) && Items(q) == multiset{} && q.n == 0
  {
    var a: seq<Option<T>> := [None, None];
    CompactAllNone(a);
    Queue(a, 0, 0, 0)
  }

  /** The source's `isEmpty`. */
  function IsEmpty<T>(q: Queue<T>): (b: bool)
    requires Valid(q)
    ensures b <==> Items(q) == multiset{}
  {
    q.n == 0
  }

  /** The source's `size`. */
  function Size<T>(q: Queue<T>): (k: int)
    requires Valid(q)
    ensures k == |Items(q)|
  {
    q.n
  }

  // ---------------------------------------------------------------------
  // Resizing
  // ---------------------------------------------------------------------

  /** `xs` packed into the front of `capacity` slots, the rest empty. */
  function Packed<T>(xs: seq<T>, capacity: int): (s: seq<Option<T>>)
    requires |xs| <= capacity
    ensures |s| == capacity
  {
    seq(capacity, k requires 0 <= k < capacity => if k < |xs| then Some(xs[k]) else None)
  }

  /** Packing loses nothing: the packed array compacts back to `xs`. */
  lemma {:induction false} CompactPacked<T>(xs: seq<T>, capacity: int)
    requires |xs| <= capacity
    ensures Compact(Packed(xs, capacity)) == xs
    decreases capacity
  {
    var p := Packed(xs, capacity);
    if capacity > |xs| {
      assert p[..capacity - 1] == Packed(xs, capacity - 1);
      CompactPacked(xs, capacity - 1);
    } else if capacity > 0 {
      var init := xs[..|xs| - 1];
      assert p[..capacity - 1] == Packed(init, capacity - 1);
      CompactPacked(init, capacity - 1);
      assert init + [xs[|xs| - 1]] == xs;
    }
  }

  /** A slice grows by one slot at its end. */
  lemma CompactSliceSnoc<T>(s: seq<Option<T>>, lo: int, i: int)
    requires 0 <= lo <= i < |s|
    ensures Compact(s[lo..i + 1]) == Compact(s[lo..i]) + if s[i].Some? then [s[i].value] else []
  {
    assert s[lo..i + 1][..i - lo] == s[lo..i];
  }

  /** A slice holds no more items than a longer slice from the same start. */
  lemma CompactSliceBound<T>(s: seq<Option<T>>, lo: int, j: int, hi: int)
    requires 0 <= lo <= j <= hi <= |s|
    ensures |Compact(s[lo..j])| <= |Compact(s[lo..hi])|
  {
    assert s[lo..j] + s[j..hi] == s[lo..hi];
    CompactAppend(s[lo..j], s[j..hi]);
  }

  /** One more slot of the window read by `resize`'s loop. */
  lemma WindowStep<T>(q: Queue<T>, i: int)
    requires Valid(q) && q.head <= i <= q.tail
    ensures Compact(q.a[q.head..i + 1])
      == Compact(q.a[q.head..i]) + if q.a[i].Some? then [q.a[i].value] else []
    ensures |Compact(q.a[q.head..i + 1])| <= q.n
  {
    CompactSliceSnoc(q.a, q.head, i);
    CompactWindow(q.a, q.head, q.tail + 1);
    CompactSliceBound(q.a, q.head, i + 1, q.tail + 1);
  }

  /** Packing one more item into the next free slot. */
  lemma PackedSnoc<T>(xs: seq<T>, x: T, capacity: int)
    requires |xs| < capacity
    ensures Packed(xs, capacity)[|xs| := Some(x)] == Packed(xs + [x], capacity)
  {
    var l, r := Packed(xs, capacity)[|xs| := Some(x)], Packed(xs + [x], capacity);
    forall k | 0 <= k < capacity
      ensures l[k] == r[k]
    {
      if k < |xs| {
        assert (xs + [x])[k] == xs[k];
      }
    }
  }

  /** The queue `resize` builds from the items of `q`. */
  lemma PackedQueue<T>(q: Queue<T>, capacity: int)
    requires Valid(q) && q.n <= capacity
    ensures var r := Queue(Packed(Compact(q.a), capacity), q.n, 0, q.n - 1);
      |r.a| == capacity && Compact(r.a) == Compact(q.a)
      && (forall i :: 0 <= i < capacity ==> (r.a[i].Some? <==> i < q.n))
      && (q.n >= 1 ==> Valid(r) && Items(r) == Items(q))
  {
    CompactPacked(Compact(q.a), capacity);
  }

  /** The source's `resize`: the items of the window, in order, packed into
      the front of a fresh array of `capacity` slots; `head` becomes 0 and
      `tail` becomes `n - 1`. The caller makes sure the items fit. */
  method Resize<T>(q: Queue<T>, capacity: int) returns (r: Queue<T>)
    requires Valid(q) && q.n <= capacity
    ensures |r.a| == capacity && r.n == q.n && r.head == 0 && r.tail == q.n - 1
    ensures Compact(r.a) == Compact(q.a)
    ensures forall i :: 0 <= i < capacity ==> (r.a[i].Some? <==> i < q.n)
    ensures q.n >= 1 ==> Valid(r) && Items(r) == Items(q)
  {
    var temp: seq<Option<T>> := seq(capacity, _ => None);
    var t := 0;
    var i := q.head;
    assert Compact(q.a[q.head..i]) == [];
    assert temp == Packed([], capacity);
    while i < q.tail + 1
      invariant q.head <= i <= q.tail + 1
      invariant t == |Compact(q.a[q.head..i])| <= q.n
      invariant temp == Packed(Compact(q.a[q.head..i]), capacity)
    {
      WindowStep(q, i);
      if q.a[i].Some? {
        PackedSnoc(Compact(q.a[q.head..i]), q.a[i].value, capacity);
        temp := temp[t := q.a[i]];
        t := t + 1;
      }
      i := i + 1;
    }
    CompactWindow(q.a, q.head, q.tail + 1);
    PackedQueue(q, capacity);
    r := Queue(temp, q.n, 0, q.n - 1);
  }

  // ---------------------------------------------------------------------
  // Adding and removing
  // ---------------------------------------------------------------------

  /** The source's `enqueue`: a null item is refused; otherwise the array
      doubles when the window reaches its end, and the item goes into slot
      `tail`, or the slot after it when `tail` is taken. */
  method Enqueue<T>(q: Queue<T>, item: Option<T>) returns (o: Outcome<Queue<T>>)
    requires Valid(q)
    ensures item.None? ==> o == Outcome(q, Some(IllegalArgument))
    ensures item.Some? ==> o.Completed() && Valid(o.state)
    ensures item.Some? ==> Items(o.state) == Items(q) + multiset{item.value} && o.state.n == q.n + 1
  {
    if item.None? {
      return Outcome(q, Some(IllegalArgument));
    }
    var s := q;
    if s.n > 0 && s.tail + 1 == |s.a| {
      s := Resize(s, 2 * |s.a|);
    }
    var tail := s.tail;
    if s.a[tail].Some? {
      tail := tail + 1;
    }
    if s.n == 0 {
      CompactHasSlotNot(s.a, tail);
    }
    PlaceKeepsValid(s, tail, item.value);
    s := Queue(s.a[tail := item], s.n + 1, s.head, tail);
    return Outcome(s, None);
  }

  /** Storing an item in the empty slot at `tail` or just after it. */
  lemma PlaceKeepsValid<T>(s: Queue<T>, tail: int, x: T)
    requires Valid(s) && s.tail <= tail <= s.tail + 1 && tail < |s.a| && s.a[tail].None?
    ensures var t := Queue(s.a[tail := Some(x)], s.n + 1, s.head, tail);
      Valid(t) && Items(t) == Items(s) + multiset{x}
  {
    CompactFill(s.a, tail, x);
  }

  /** An array with no items has no occupied slot. */
  lemma CompactHasSlotNot<T>(s: seq<Option<T>>, i: int)
    requires 0 <= i < |s| && |Compact(s)| == 0
    ensures s[i].None?
  {
    if s[i].Some? {
      CompactClear(s, i);
    }
  }

  /** The scan the source runs from a random index: down from `start` to
      the first occupied slot, wrapping round to `tail` after slot 0. It
      ends at the nearest occupied slot at or below `start`, or, when there
      is none, at the highest occupied slot of the window. */
  method Search<T>(a: seq<Option<T>>, head: int, tail: int, start: int) returns (index: int)
    requires 0 <= head <= start <= tail < |a|
    requires forall i :: 0 <= i < |a| && a[i].Some? ==> head <= i <= tail
    requires exists i :: head <= i <= tail && a[i].Some?
    ensures head <= index <= tail && a[index].Some?
    ensures index <= start ==> forall k :: index < k <= start ==> a[k].None?
    ensures index > start ==> (forall k :: 0 <= k <= start ==> a[k].None?) && forall k :: index < k <= tail ==> a[k].None?
  {
    ghost var w :| head <= w <= tail && a[w].Some?;
    ghost var wrapped := false;
    index := start;
    while a[index].None?
      invariant 0 <= index <= tail
      invariant !wrapped ==> index <= start && forall k :: index < k <= start ==> a[k].None?
      invariant wrapped ==> (forall k :: 0 <= k <= start ==> a[k].None?) && (forall k :: index < k <= tail ==> a[k].None?)
      invariant wrapped ==> w <= index
      decreases if wrapped then 0 else 1, index
    {
      if index == 0 {
        index := tail;
        wrapped := true;
      } else {
        index := index - 1;
      }
    }
  }

  /** The window after emptying slot `index`: reset to `[0, 0]` when it
      was a single slot, otherwise narrowed by one when `index` was one of
      its ends. */
  function Narrow(head: int, tail: int, index: int): (w: (int, int))
  {
    if head == tail then (0, 0)
    else if index == head then (head + 1, tail)
    else if index == tail then (head, tail - 1)
    else (head, tail)
  }

  /** Emptying an occupied slot of the window and narrowing the window
      keeps the invariant, with one item fewer. */
  lemma NarrowKeepsValid<T>(q: Queue<T>, index: int)
    requires Valid(q) && q.head <= index <= q.tail && q.a[index].Some?
    ensures var w := Narrow(q.head, q.tail, index);
      Valid(Queue(q.a[index := None], q.n - 1, w.0, w.1))
  {
    CompactClear(q.a, index);
    var a := q.a[index := None];
    var w := Narrow(q.head, q.tail, index);
    forall i | 0 <= i < |a| && a[i].Some?
      ensures w.0 <= i <= w.1
    {
      assert i != index && q.a[i].Some?;
    }
  }

  /** The removal shared by `dequeue` and the iterator's `next`: scan from a
      random index of the window to an occupied slot, empty it, and narrow
      the window when the slot was at one of its ends. */
  method Take<T>(q: Queue<T>) returns (r: Queue<T>, item: T)
    requires Valid(q) && q.n > 0
    ensures Valid(r) && |r.a| == |q.a| && r.n == q.n - 1
    ensures item in Items(q) && Items(r) == Items(q) - multiset{item}
  {
    CompactHasSlot(q.a);
    var start :| q.head <= start <= q.tail;
    var index := Search(q.a, q.head, q.tail, start);
    item := q.a[index].value;
    CompactClear(q.a, index);
    NarrowKeepsValid(q, index);
    var w := Narrow(q.head, q.tail, index);
    r := Queue(q.a[index := None], q.n - 1, w.0, w.1);
  }

  /** The source's `dequeue`: an empty queue throws; otherwise an item is
      taken, and the array halves when the window has shrunk to its first
      quarter or moved into its last quarter. */
  method Dequeue<T>(q: Queue<T>) returns (r: Result<(Queue<T>, T)>)
    requires Valid(q)
    ensures r.Err? <==> q.n == 0
    ensures r.Err? ==> r.error == NoSuchElement
    ensures r.Ok? ==> Valid(r.value.0) && r.value.0.n == q.n - 1
    ensures r.Ok? ==> r.value.1 in Items(q) && Items(r.value.0) == Items(q) - multiset{r.value.1}
  {
    if q.n == 0 {
      return Err(NoSuchElement);
    }
    var s, item := Take(q);
    var capacity := |s.a|;
    CompactWindow(s.a, s.head, s.tail + 1);
    if s.n > 0 && s.tail + 1 == capacity / 4 {
      s := Resize(s, capacity / 2);
    } else if s.n > 0 && s.head == 3 * capacity / 4 {
      s := Resize(s, capacity / 2);
    }
    return Ok((s, item));
  }

  /** The source's `sample`: an empty queue throws; otherwise the item the
      scan from a random index finds, the queue left as it was. */
  method Sample<T>(q: Queue<T>) returns (r: Result<T>)
    requires Valid(q)
    ensures r.Err? <==> q.n == 0
    ensures r.Err? ==> r.error == NoSuchElement
    ensures r.Ok? ==> r.value in Items(q)
  {
    if q.n == 0 {
      return Err(NoSuchElement);
    }
    CompactHasSlot(q.a);
    var start :| q.head <= start <= q.tail;
    var index := Search(q.a, q.head, q.tail, start);
    CompactClear(q.a, index);
    return Ok(q.a[index].value);
  }

  // ---------------------------------------------------------------------
  // Iteration
  // ---------------------------------------------------------------------

  /** The iterator's constructor: a slot-by-slot copy of the array together
      with the queue's `head`, `tail` and `n`. The iterator has the queue's
      shape and works on its own copy, so the queue is never touched. */
  method Iterate<T>(q: Queue<T>) returns (it: Queue<T>)
    requires Valid(q)
    ensures Valid(it) && Items(it) == Items(q) && it.n == q.n
  {
    var temp: seq<Option<T>> := seq(|q.a|, _ => None);
    var t := 0;
    for i := 0 to |q.a|
      invariant t == i && |temp| == |q.a|
      invariant temp[..i] == q.a[..i]
    {
      temp := temp[t := q.a[i]];
      t := t + 1;
    }
    assert temp == q.a[..|q.a|] == q.a;
    it := Queue(temp, q.n, q.head, q.tail);
  }

  /** The iterator's `hasNext`. */
  function HasNext<T>(it: Queue<T>): (b: bool)
    requires Valid(it)
    ensures b <==> Items(it) != multiset{}
  {
    it.n != 0
  }

  /** The iterator's `next`: no more items throws; otherwise an item is
      taken from the copy, without resizing it. */
  method Next<T>(it: Queue<T>) returns (r: Result<(Queue<T>, T)>)
    requires Valid(it)
    ensures r.Err? <==> !HasNext(it)
    ensures r.Err? ==> r.error == NoSuchElement
    ensures r.Ok? ==> Valid(r.value.0) && r.value.0.n == it.n - 1
    ensures r.Ok? ==> r.value.1 in Items(it) && Items(r.value.0) == Items(it) - multiset{r.value.1}
  {
    if !HasNext(it) {
      return Err(NoSuchElement);
    }
    var rest, item := Take(it);
    return Ok((rest, item));
  }

  /** Iterating until `hasNext` fails yields every item of the queue exactly
      once. */
  method Drain<T>(q: Queue<T>) returns (yielded: seq<T>)
    requires Valid(q)
    ensures multiset(yielded) == Items(q) && |yielded| == q.n
  {
    var it := Iterate(q);
    yielded := [];
    while HasNext(it)
      invariant Valid(it)
      invariant multiset(yielded) + Items(it) == Items(q)
      invariant |yielded| + it.n == q.n
      decreases it.n
    {
      var r := Next(it);
      yielded := yielded + [r.value.1];
      it := r.value.0;
    }
  }
}
