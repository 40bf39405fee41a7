/** A doubly linked ring through a head, as link arrays over slots, and its order from the head on.
    (the list of kernel/bio.c) */
module Ring {
  /** The slots are 0 to n - 1 and the head is n. */
  ghost predicate Order(order: seq<nat>, n: nat) {
    && |order| <= n
    && (forall i :: 0 <= i < |order| ==> order[i] < n)
    && (forall i, j :: 0 <= i < j < |order| ==> order[i] != order[j])
  }

  /** The i-th stop of a lap from head to head. */
  function Stop(order: seq<nat>, n: nat, i: nat): nat
    requires i <= |order| + 1
  {
    if i == 0 || i == |order| + 1 then n else order[i - 1]
  }

  /** next and prev lead around the head in this order. */
  ghost predicate Linked(next: seq<nat>, prev: seq<nat>, order: seq<nat>, n: nat) {
    && |next| == |prev| == n + 1 && Order(order, n)
    && forall i: nat :: i <= |order| ==> Joined(next, prev, Stop(order, n, i), Stop(order, n, i + 1))
  }

  ghost predicate Joined(next: seq<nat>, prev: seq<nat>, a: nat, b: nat) {
    a < |next| && b < |prev| && next[a] == b && prev[b] == a
  }

  /** order without its p-th slot. */
  function Without(order: seq<nat>, p: nat): seq<nat>
    requires p < |order|
  {
    order[..p] + order[p+1..]
  }

  /** The links after the slot at position p was taken out. */
  lemma Unlinked(next: seq<nat>, prev: seq<nat>, order: seq<nat>, n: nat, p: nat)
    requires Linked(next, prev, order, n) && p < |order|
    ensures var b := order[p];
            && next[b] <= n && prev[b] <= n
            && Linked(next[prev[b] := next[b]], prev[next[b] := prev[b]], Without(order, p), n)
            && (forall i :: 0 <= i < |order| - 1 ==> Without(order, p)[i] != b)
  {
    var b, w := order[p], Without(order, p);
    assert Joined(next, prev, Stop(order, n, p), Stop(order, n, p + 1));
    assert Joined(next, prev, Stop(order, n, p + 1), Stop(order, n, p + 2));
    var next', prev' := next[prev[b] := next[b]], prev[next[b] := prev[b]];
    forall i: nat | i <= |w| ensures Joined(next', prev', Stop(w, n, i), Stop(w, n, i + 1)) {
      if i < p {
        assert Joined(next, prev, Stop(order, n, i), Stop(order, n, i + 1));
        assert Stop(w, n, i) == Stop(order, n, i) && Stop(w, n, i + 1) == Stop(order, n, i + 1);
      } else if i == p {
        assert Stop(w, n, i) == Stop(order, n, p) && Stop(w, n, i + 1) == Stop(order, n, p + 2);
      } else {
        assert Joined(next, prev, Stop(order, n, i + 1), Stop(order, n, i + 2));
        assert Stop(w, n, i) == Stop(order, n, i + 1) && Stop(w, n, i + 1) == Stop(order, n, i + 2);
      }
    }
  }

  /** The links after slot b was put in right after the head. */
  lemma PutFirst(next: seq<nat>, prev: seq<nat>, order: seq<nat>, n: nat, b: nat)
    requires Linked(next, prev, order, n) && b < n && |order| < n && forall i :: 0 <= i < |order| ==> order[i] != b
    ensures var f := next[n];
            f <= n && Linked(next[b := f][n := b], prev[b := n][f := b], [b] + order, n)
  {
    var f, w := next[n], [b] + order;
    assert Joined(next, prev, Stop(order, n, 0), Stop(order, n, 1));
    var next', prev' := next[b := f][n := b], prev[b := n][f := b];
    forall i: nat | i <= |w| ensures Joined(next', prev', Stop(w, n, i), Stop(w, n, i + 1)) {
      if i >= 2 {
        assert Joined(next, prev, Stop(order, n, i - 1), Stop(order, n, i));
        assert Stop(w, n, i) == Stop(order, n, i - 1) && Stop(w, n, i + 1) == Stop(order, n, i);
      } else if i == 1 {
        assert Stop(w, n, 1) == b && Stop(w, n, 2) == Stop(order, n, 1);
      }
    }
  }

  lemma Empty(next: seq<nat>, prev: seq<nat>, n: nat)
    requires |next| == |prev| == n + 1 && next[n] == n && prev[n] == n
    ensures Linked(next, prev, [], n)
  {}

  /** Where a walk along next, or back along prev, gets. */
  lemma Walk(next: seq<nat>, prev: seq<nat>, order: seq<nat>, n: nat, i: nat)
    requires Linked(next, prev, order, n) && i <= |order|
    ensures Stop(order, n, i) <= n && next[Stop(order, n, i)] == Stop(order, n, i + 1)
    ensures Stop(order, n, i + 1) <= n && prev[Stop(order, n, i + 1)] == Stop(order, n, i)
    ensures 0 < i ==> Stop(order, n, i) < n
  {
    assert Joined(next, prev, Stop(order, n, i), Stop(order, n, i + 1));
  }

  /** Where position i comes from when the slot at position p moves to the front. */
  function From(p: nat, i: nat): nat { if i == 0 then p else if i <= p then i - 1 else i }

  /** Moving a slot to the front loses none and changes the order of no others. */
  lemma MovedFirst(order: seq<nat>, n: nat, p: nat)
    requires Order(order, n) && p < |order|
    ensures var w := [order[p]] + Without(order, p);
            && |w| == |order| && (forall x :: x in order ==> x in w) && Order(w, n)
            && forall i: nat :: i < |w| ==> w[i] == order[From(p, i)]
  {
    var w := [order[p]] + Without(order, p);
    assert forall i: nat :: i < |w| ==> w[i] == order[From(p, i)];
    hide Without;
    forall i, j | 0 <= i < j < |w| ensures w[i] != w[j] {
      var a, b := From(p, i), From(p, j);
      assert a < b || b < a;
    }
    forall x | x in order ensures x in w {
      var k :| 0 <= k < |order| && order[k] == x;
      var i := if k == p then 0 else if k < p then k + 1 else k;
      assert From(p, i) == k && w[i] == x;
    }
  }
}
