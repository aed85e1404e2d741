/**
 The union-find structure the percolation grid is built on, modelled by
 what it promises rather than how it stores it: two sites are connected
 exactly when the recorded `union` calls link them through a chain of
 pairs (the equivalence closure of the recorded pairs).

 The executable side replays the recorded unions quick-find style on a
 label per site; `ConnectedIffJoined` proves that label equality is that
 equivalence closure.
 */
module UnionClosure {

  /** One recorded `union(p, q)` call. */
  type Pair = (int, int)

  /** Every recorded pair names sites of a structure with `size` sites, as
      the library's `union` demands of its callers. */
  predicate InRange(size: nat, unions: seq<Pair>)
  {
    forall i :: 0 <= i < |unions| ==> 0 <= unions[i].0 < size && 0 <= unions[i].1 < size
  }

  /** Every site labelled `from` moves to label `to`; others keep theirs. */
  function Relabel(labels: seq<int>, from: int, to: int): (r: seq<int>)
    ensures |r| == |labels|
    ensures forall x :: 0 <= x < |labels| ==> r[x] == if labels[x] == from then to else labels[x]
  {
    seq(|labels|, x requires 0 <= x < |labels| => if labels[x] == from then to else labels[x])
  }

  /** The site labels after replaying `unions`, starting from one label per
      site. */
  function Labels(size: nat, unions: seq<Pair>): (l: seq<int>)
    requires InRange(size, unions)
    ensures |l| == size
  {
    if |unions| == 0 then seq(size, x => x)
    else
      var prev := Labels(size, unions[..|unions| - 1]);
      var (p, q) := unions[|unions| - 1];
      Relabel(prev, prev[p], prev[q])
  }

  /** The library's `connected(p, q)`. */
  predicate Connected(size: nat, unions: seq<Pair>, p: int, q: int)
    requires InRange(size, unions) && 0 <= p < size && 0 <= q < size
  {
    Labels(size, unions)[p] == Labels(size, unions)[q]
  }

  // ---------------------------------------------------------------------
  // The reference definition: chains of recorded pairs.
  // ---------------------------------------------------------------------

  /** Some recorded union joined `x` and `y`, in either order. */
  predicate Linked(unions: seq<Pair>, x: int, y: int)
  {
    (x, y) in unions || (y, x) in unions
  }

  /** `w` is a chain of sites each linked to the next. */
  predicate IsWalk(unions: seq<Pair>, w: seq<int>)
  {
    |w| >= 1 && forall i :: 1 <= i < |w| ==> Linked(unions, w[i - 1], w[i])
  }

  /** `x` and `y` are related by the equivalence closure of the recorded
      pairs. */
  ghost predicate Joined(unions: seq<Pair>, x: int, y: int)
  {
    exists w :: IsWalk(unions, w) && w[0] == x && w[|w| - 1] == y
  }

  /** Joining two chains at a common site. */
  lemma WalkConcat(unions: seq<Pair>, u: seq<int>, v: seq<int>)
    requires IsWalk(unions, u) && IsWalk(unions, v) && u[|u| - 1] == v[0]
    ensures IsWalk(unions, u + v[1..]) && (u + v[1..])[0] == u[0]
    ensures (u + v[1..])[|u + v[1..]| - 1] == v[|v| - 1]
  {
    var c := u + v[1..];
    forall i | 1 <= i < |c|
      ensures Linked(unions, c[i - 1], c[i])
    {
      if i >= |u| {
        assert c[i - 1] == v[i - |u|] && c[i] == v[i - |u| + 1];
      }
    }
  }

  /** A chain stays a chain when more unions are recorded. */
  lemma WalkGrows(unions: seq<Pair>, more: seq<Pair>, w: seq<int>)
    requires IsWalk(unions, w)
    ensures IsWalk(unions + more, w)
  {
    forall i | 1 <= i < |w|
      ensures Linked(unions + more, w[i - 1], w[i])
    {
      assert Linked(unions, w[i - 1], w[i]);
      if (w[i - 1], w[i]) in unions {
        var k :| 0 <= k < |unions| && unions[k] == (w[i - 1], w[i]);
        assert (unions + more)[k] == (w[i - 1], w[i]);
      } else {
        var k :| 0 <= k < |unions| && unions[k] == (w[i], w[i - 1]);
        assert (unions + more)[k] == (w[i], w[i - 1]);
      }
    }
  }

  /** Sites that share a label keep sharing one whatever is recorded next. */
  lemma {:induction false} LabelsKeepEquality(size: nat, unions: seq<Pair>, more: seq<Pair>, x: int, y: int)
    requires InRange(size, unions + more) && 0 <= x < size && 0 <= y < size
    requires InRange(size, unions) && Labels(size, unions)[x] == Labels(size, unions)[y]
    ensures Labels(size, unions + more)[x] == Labels(size, unions + more)[y]
    decreases |more|
  {
    if |more| > 0 {
      var init := more[..|more| - 1];
      assert (unions + more)[..|unions + more| - 1] == unions + init;
      assert InRange(size, unions + init) by {
        forall i | 0 <= i < |unions + init|
          ensures 0 <= (unions + init)[i].0 < size && 0 <= (unions + init)[i].1 < size
        {
          assert (unions + init)[i] == (unions + more)[i];
        }
      }
      LabelsKeepEquality(size, unions, init, x, y);
    } else {
      assert unions + more == unions;
    }
  }

  /** The pair just recorded is connected. */
  lemma UnionConnects(size: nat, unions: seq<Pair>, p: int, q: int)
    requires InRange(size, unions + [(p, q)])
    ensures 0 <= p < size && 0 <= q < size && Connected(size, unions + [(p, q)], p, q)
  {
    assert (unions + [(p, q)])[|unions|] == (p, q);
    assert (unions + [(p, q)])[..|unions|] == unions;
  }

  /** Every recorded pair is connected. */
  lemma RecordedConnected(size: nat, unions: seq<Pair>, k: int)
    requires InRange(size, unions) && 0 <= k < |unions|
    ensures Connected(size, unions, unions[k].0, unions[k].1)
  {
    var (p, q) := unions[k];
    var before, upto := unions[..k], unions[..k + 1];
    assert upto == before + [(p, q)];
    assert InRange(size, upto) by {
      forall i | 0 <= i < |upto|
        ensures 0 <= upto[i].0 < size && 0 <= upto[i].1 < size
      {
        assert upto[i] == unions[i];
      }
    }
    UnionConnects(size, before, p, q);
    assert upto + unions[k + 1..] == unions;
    LabelsKeepEquality(size, upto, unions[k + 1..], p, q);
  }

  /** Connectivity only grows as unions are recorded. */
  lemma ConnectedGrows(size: nat, unions: seq<Pair>, more: seq<Pair>, x: int, y: int)
    requires InRange(size, unions + more) && 0 <= x < size && 0 <= y < size
    requires InRange(size, unions) && Connected(size, unions, x, y)
    ensures Connected(size, unions + more, x, y)
  {
    LabelsKeepEquality(size, unions, more, x, y);
  }

  /** Sites at the two ends of a chain share a label. */
  lemma {:induction false} WalkConnected(size: nat, unions: seq<Pair>, w: seq<int>)
    requires InRange(size, unions) && IsWalk(unions, w) && 0 <= w[0] < size
    ensures 0 <= w[|w| - 1] < size && Connected(size, unions, w[0], w[|w| - 1])
    decreases |w|
  {
    if |w| > 1 {
      var init := w[..|w| - 1];
      assert IsWalk(unions, init) by {
        forall i | 1 <= i < |init|
          ensures Linked(unions, init[i - 1], init[i])
        {
          assert init[i - 1] == w[i - 1] && init[i] == w[i];
        }
      }
      WalkConnected(size, unions, init);
      var a, b := w[|w| - 2], w[|w| - 1];
      assert Linked(unions, a, b);
      if (a, b) in unions {
        var k :| 0 <= k < |unions| && unions[k] == (a, b);
        RecordedConnected(size, unions, k);
      } else {
        var k :| 0 <= k < |unions| && unions[k] == (b, a);
        RecordedConnected(size, unions, k);
      }
    }
  }

  /** Sites that share a label are joined by a chain. */
  lemma {:induction false} ConnectedWalk(size: nat, unions: seq<Pair>, x: int, y: int)
    requires InRange(size, unions) && 0 <= x < size && 0 <= y < size
    requires Connected(size, unions, x, y)
    ensures Joined(unions, x, y)
    decreases |unions|
  {
    if |unions| == 0 {
      assert IsWalk(unions, [x]);
    } else {
      var init := unions[..|unions| - 1];
      var (p, q) := unions[|unions| - 1];
      assert unions == init + [(p, q)];
      assert InRange(size, init) by {
        forall i | 0 <= i < |init|
          ensures 0 <= init[i].0 < size && 0 <= init[i].1 < size
        {
          assert init[i] == unions[i];
        }
      }
      var l := Labels(size, init);
      assert Linked(unions, p, q) by {
        assert unions[|unions| - 1] == (p, q);
      }
      if l[x] == l[y] {
        ConnectedWalk(size, init, x, y);
        var w :| IsWalk(init, w) && w[0] == x && w[|w| - 1] == y;
        WalkGrows(init, [(p, q)], w);
      } else if l[x] == l[p] {
        assert l[y] == l[q];
        ConnectedWalk(size, init, x, p);
        ConnectedWalk(size, init, q, y);
        WalkThrough(init, [(p, q)], p, q, x, y);
      } else {
        assert l[y] == l[p] && l[x] == l[q];
        ConnectedWalk(size, init, x, q);
        ConnectedWalk(size, init, p, y);
        WalkThrough(init, [(p, q)], q, p, x, y);
      }
    }
  }

  /** A chain to `a`, the link from `a` to `b`, and a chain from `b`. */
  lemma WalkThrough(unions: seq<Pair>, more: seq<Pair>, a: int, b: int, x: int, y: int)
    requires Linked(unions + more, a, b)
    requires Joined(unions, x, a) && Joined(unions, b, y)
    ensures Joined(unions + more, x, y)
  {
    var u :| IsWalk(unions, u) && u[0] == x && u[|u| - 1] == a;
    var v :| IsWalk(unions, v) && v[0] == b && v[|v| - 1] == y;
    WalkGrows(unions, more, u);
    WalkGrows(unions, more, v);
    var edge := [a, b];
    assert IsWalk(unions + more, edge);
    WalkConcat(unions + more, u, edge);
    WalkConcat(unions + more, u + edge[1..], v);
  }

  /** The labels compute the equivalence closure of the recorded unions. */
  lemma ConnectedIffJoined(size: nat, unions: seq<Pair>, x: int, y: int)
    requires InRange(size, unions) && 0 <= x < size && 0 <= y < size
    ensures Connected(size, unions, x, y) <==> Joined(unions, x, y)
  {
    if Connected(size, unions, x, y) {
      ConnectedWalk(size, unions, x, y);
    }
    if Joined(unions, x, y) {
      var w :| IsWalk(unions, w) && w[0] == x && w[|w| - 1] == y;
      WalkConnected(size, unions, w);
    }
  }
}
