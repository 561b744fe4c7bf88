/**
 * Insertion of `StorageDead` statements into a finished TIR trace
 * (the end of `TirTrace::new` in yktrace/src/tir.rs).
 *
 * While the trace is built, the index of the last operation using each
 * local is recorded. Afterwards a `StorageDead` for each local is inserted
 * right after that operation, so the trace compiler can free the local's
 * register. Insertions are made from the highest index down, so that an
 * insertion never moves an operation a later insertion refers to.
 */
module StorageDeads {
  import opened TirOps

  /** A local and the index of the operation that uses it last. */
  type Death = (Local, nat)

  /** Whether the entries are ordered by index, highest first. */
  predicate Descending(d: seq<Death>) {
    forall i, j :: 0 <= i < j < |d| ==> d[i].1 >= d[j].1
  }

  /**
   * Whether `d` lists the table `lastUse`, each local once, highest index
   * first: what sorting the table's entries by descending index gives, in
   * whichever order the table yields entries with the same index.
   */
  predicate SortedListing(d: seq<Death>, lastUse: map<Local, nat>) {
    && Descending(d)
    && (forall i :: 0 <= i < |d| ==> d[i].0 in lastUse && lastUse[d[i].0] == d[i].1)
    && (forall l :: l in lastUse ==> exists i :: 0 <= i < |d| && d[i].0 == l)
    && (forall i, j :: 0 <= i < j < |d| ==> d[i].0 != d[j].0)
  }

  /** A local whose last use is latest among `keys`. */
  method LatestLocal(keys: set<Local>, lastUse: map<Local, nat>) returns (l: Local)
    requires keys != {} && keys <= lastUse.Keys
    ensures l in keys && forall k :: k in keys ==> lastUse[k] <= lastUse[l]
  {
    l :| l in keys;
    var rest := keys - {l};
    while rest != {}
      invariant rest <= keys && l in keys
      invariant forall k :: k in keys && k !in rest ==> lastUse[k] <= lastUse[l]
      decreases rest
    {
      var k :| k in rest;
      if lastUse[k] > lastUse[l] {
        l := k;
      }
      rest := rest - {k};
    }
  }

  /** Appending the latest of the entries not yet listed keeps the listing sorted. */
  lemma {:induction false} ListLatest(lastUse: map<Local, nat>, d: seq<Death>, rest: set<Local>, l: Local)
    requires rest <= lastUse.Keys && l in rest
    requires SortedListing(d, lastUse - rest)
    requires forall i, k :: 0 <= i < |d| && k in rest ==> lastUse[k] <= d[i].1
    requires forall k :: k in rest ==> lastUse[k] <= lastUse[l]
    ensures SortedListing(d + [(l, lastUse[l])], lastUse - (rest - {l}))
    ensures forall i, k :: 0 <= i < |d| + 1 && k in rest - {l} ==> lastUse[k] <= (d + [(l, lastUse[l])])[i].1
  {
    var d' := d + [(l, lastUse[l])];
    var listed := lastUse - rest;
    forall i | 0 <= i < |d|
      ensures d[i].0 != l
    {
      assert d[i].0 in listed;
    }
    forall k | k in lastUse - (rest - {l})
      ensures exists i :: 0 <= i < |d'| && d'[i].0 == k
    {
      if k == l {
        assert d'[|d|].0 == k;
      } else {
        assert k in listed;
        var i :| 0 <= i < |d| && d[i].0 == k;
        assert d'[i].0 == k;
      }
    }
  }

  /**
   * The entries of the last-use table sorted by index, highest first
   * (`sort_by` on the collected entries); entries with equal indices come
   * in an order this model leaves open, as the table's iteration order is
   * unspecified.
   */
  method SortDeaths(lastUse: map<Local, nat>) returns (d: seq<Death>)
    ensures SortedListing(d, lastUse)
  {
    var rest := lastUse.Keys;
    d := [];
    while rest != {}
      invariant rest <= lastUse.Keys
      invariant SortedListing(d, lastUse - rest)
      invariant forall i, k :: 0 <= i < |d| && k in rest ==> lastUse[k] <= d[i].1
      decreases rest
    {
      var l := LatestLocal(rest, lastUse);
      ListLatest(lastUse, d, rest, l);
      d := d + [(l, lastUse[l])];
      rest := rest - {l};
    }
    assert lastUse - {} == lastUse;
  }

  /** The `StorageDead`s inserted after operation `i`: one per entry for `i`, the latest entry first. */
  function DeadsAt(d: seq<Death>, i: nat): seq<TirOp>
  {
    if |d| == 0 then []
    else (if d[|d| - 1].1 == i then [Stmt(StorageDead(d[|d| - 1].0))] else []) + DeadsAt(d[..|d| - 1], i)
  }

  /** The first `n` operations, each followed by the `StorageDead`s for the locals it last uses. */
  function WithDeads(ops: seq<TirOp>, d: seq<Death>, n: nat): seq<TirOp>
    requires n <= |ops|
  {
    if n == 0 then [] else WithDeads(ops, d, n - 1) + [ops[n - 1]] + DeadsAt(d, n - 1)
  }

  /** The operations after operation `i` are exactly `StorageDead`s of the locals last used there. */
  lemma {:induction false} DeadsAtSpec(d: seq<Death>, i: nat)
    ensures forall k :: 0 <= k < |DeadsAt(d, i)| ==> DeadsAt(d, i)[k].Stmt? && DeadsAt(d, i)[k].s.StorageDead?
    ensures forall l: Local :: Stmt(StorageDead(l)) in DeadsAt(d, i) <==> (l, i) in d
  {
    if |d| > 0 {
      DeadsAtSpec(d[..|d| - 1], i);
      assert d == d[..|d| - 1] + [d[|d| - 1]];
    }
  }

  lemma {:induction false} DeadsAtNone(d: seq<Death>, i: nat)
    requires forall k :: 0 <= k < |d| ==> d[k].1 != i
    ensures DeadsAt(d, i) == []
  {
    if |d| > 0 {
      DeadsAtNone(d[..|d| - 1], i);
    }
  }

  /** Below the lowest recorded index nothing is inserted. */
  lemma {:induction false} WithDeadsBelow(ops: seq<TirOp>, d: seq<Death>, n: nat)
    requires n <= |ops|
    requires forall k :: 0 <= k < |d| ==> d[k].1 >= n
    ensures WithDeads(ops, d, n) == ops[..n]
  {
    if n > 0 {
      WithDeadsBelow(ops, d, n - 1);
      DeadsAtNone(d, n - 1);
      assert ops[..n] == ops[..n - 1] + [ops[n - 1]];
    }
  }

  /** An entry for the last operation so far goes at the very end. */
  lemma {:induction false} InsertAtEnd(ops: seq<TirOp>, d: seq<Death>, x: Death)
    requires x.1 < |ops|
    requires forall k :: 0 <= k < |d| ==> d[k].1 >= x.1
    ensures |WithDeads(ops, d, x.1 + 1)| > x.1
    ensures WithDeads(ops, d + [x], x.1 + 1)
         == WithDeads(ops, d, x.1 + 1)[..x.1 + 1] + [Stmt(StorageDead(x.0))] + WithDeads(ops, d, x.1 + 1)[x.1 + 1..]
  {
    var dx := d + [x];
    var idx := x.1;
    assert dx[..|dx| - 1] == d;
    WithDeadsBelow(ops, d, idx);
    WithDeadsBelow(ops, dx, idx);
    var w := WithDeads(ops, d, idx + 1);
    assert w == ops[..idx] + [ops[idx]] + DeadsAt(d, idx);
    assert w[..idx + 1] == ops[..idx] + [ops[idx]];
    assert w[idx + 1..] == DeadsAt(d, idx);
  }

  /** Inserting `z` after position `i` commutes with appending more. */
  lemma InsertAppend<T>(a: seq<T>, b: seq<T>, tail: seq<T>, i: nat, z: T)
    requires i < |b| && a == b[..i + 1] + [z] + b[i + 1..]
    ensures a + tail == (b + tail)[..i + 1] + [z] + (b + tail)[i + 1..]
  {
    assert (b + tail)[..i + 1] == b[..i + 1];
    assert (b + tail)[i + 1..] == b[i + 1..] + tail;
  }

  /** An entry for another index adds nothing after operation `i`. */
  lemma DeadsAtOther(d: seq<Death>, x: Death, i: nat)
    requires x.1 != i
    ensures DeadsAt(d + [x], i) == DeadsAt(d, i)
  {
    assert (d + [x])[..|d + [x]| - 1] == d;
  }

  /** One step of `WithDeads`, with the appended part named. */
  lemma WithDeadsStep(ops: seq<TirOp>, d: seq<Death>, n: nat)
    requires 0 < n <= |ops|
    ensures WithDeads(ops, d, n) == WithDeads(ops, d, n - 1) + ([ops[n - 1]] + DeadsAt(d, n - 1))
  {
  }

  /** An operation after the entry's index adds no `StorageDead` of it and keeps the prefix. */
  lemma {:induction false} InsertBefore(ops: seq<TirOp>, d: seq<Death>, x: Death, n: nat)
    requires x.1 + 1 < n <= |ops|
    requires |WithDeads(ops, d, n - 1)| > x.1
    requires WithDeads(ops, d + [x], n - 1)
          == WithDeads(ops, d, n - 1)[..x.1 + 1] + [Stmt(StorageDead(x.0))] + WithDeads(ops, d, n - 1)[x.1 + 1..]
    ensures |WithDeads(ops, d, n)| > x.1
    ensures WithDeads(ops, d + [x], n)
         == WithDeads(ops, d, n)[..x.1 + 1] + [Stmt(StorageDead(x.0))] + WithDeads(ops, d, n)[x.1 + 1..]
  {
    var tail := [ops[n - 1]] + DeadsAt(d, n - 1);
    DeadsAtOther(d, x, n - 1);
    WithDeadsStep(ops, d, n);
    WithDeadsStep(ops, d + [x], n);
    InsertAppend(WithDeads(ops, d + [x], n - 1), WithDeads(ops, d, n - 1), tail, x.1, Stmt(StorageDead(x.0)));
  }

  /** One more entry for index `x.1` puts its `StorageDead` right after that operation. */
  lemma {:induction false} WithDeadsInsert(ops: seq<TirOp>, d: seq<Death>, x: Death, n: nat)
    requires x.1 < n <= |ops|
    requires forall k :: 0 <= k < |d| ==> d[k].1 >= x.1
    ensures |WithDeads(ops, d, n)| > x.1
    ensures WithDeads(ops, d + [x], n)
         == WithDeads(ops, d, n)[..x.1 + 1] + [Stmt(StorageDead(x.0))] + WithDeads(ops, d, n)[x.1 + 1..]
  {
    if n == x.1 + 1 {
      InsertAtEnd(ops, d, x);
    } else {
      WithDeadsInsert(ops, d, x, n - 1);
      InsertBefore(ops, d, x, n);
    }
  }

  /** Removing the `StorageDead`s. */
  function Erase(s: seq<TirOp>): (r: seq<TirOp>)
    ensures |r| <= |s|
  {
    if |s| == 0 then []
    else Erase(s[..|s| - 1]) + (if s[|s| - 1].Stmt? && s[|s| - 1].s.StorageDead? then [] else [s[|s| - 1]])
  }

  lemma {:induction false} EraseAppend(a: seq<TirOp>, b: seq<TirOp>)
    ensures Erase(a + b) == Erase(a) + Erase(b)
    decreases |b|
  {
    if |b| == 0 {
      assert a + b == a;
    } else {
      assert (a + b)[..|a + b| - 1] == a + b[..|b| - 1];
      EraseAppend(a, b[..|b| - 1]);
    }
  }

  lemma {:induction false} EraseDeads(d: seq<Death>, i: nat)
    ensures Erase(DeadsAt(d, i)) == []
  {
    if |d| > 0 {
      EraseDeads(d[..|d| - 1], i);
      var head := if d[|d| - 1].1 == i then [Stmt(StorageDead(d[|d| - 1].0))] else [];
      EraseAppend(head, DeadsAt(d[..|d| - 1], i));
      if d[|d| - 1].1 == i {
        assert Erase(head) == Erase([]) + [];
      }
    }
  }

  lemma EraseKeeps(op: TirOp)
    requires !(op.Stmt? && op.s.StorageDead?)
    ensures Erase([op]) == [op]
  {
    assert [op][..0] == [];
  }

  /**
   * The insertions only add `StorageDead`s: removing them gives back the
   * trace as built (which holds none, as SIR has no `StorageDead`).
   */
  lemma {:induction false} WithDeadsErase(ops: seq<TirOp>, d: seq<Death>, n: nat)
    requires n <= |ops|
    requires forall i :: 0 <= i < |ops| ==> !(ops[i].Stmt? && ops[i].s.StorageDead?)
    ensures Erase(WithDeads(ops, d, n)) == ops[..n]
  {
    if n > 0 {
      var w := WithDeads(ops, d, n - 1);
      var op := ops[n - 1];
      var tail := DeadsAt(d, n - 1);
      assert Erase(w) == ops[..n - 1] by {
        WithDeadsErase(ops, d, n - 1);
      }
      assert Erase(w + [op]) == ops[..n - 1] + [op] by {
        EraseAppend(w, [op]);
        EraseKeeps(op);
      }
      assert Erase(w + [op] + tail) == Erase(w + [op]) by {
        EraseAppend(w + [op], tail);
        EraseDeads(d, n - 1);
      }
      assert ops[..n] == ops[..n - 1] + [op];
    }
  }

  /**
   * The insertion loop: for each entry, highest index first, a
   * `StorageDead` goes straight after the operation at that index. The
   * result is every operation followed by the `StorageDead`s of the locals
   * it uses last.
   */
  method InsertStorageDeads(ops: seq<TirOp>, deads: seq<Death>) returns (r: seq<TirOp>)
    requires Descending(deads)
    requires forall k :: 0 <= k < |deads| ==> deads[k].1 < |ops|
    ensures r == WithDeads(ops, deads, |ops|)
  {
    r := ops;
    WithDeadsBelow(ops, [], |ops|);
    for k := 0 to |deads|
      invariant r == WithDeads(ops, deads[..k], |ops|)
    {
      var (local, idx) := deads[k];
      WithDeadsInsert(ops, deads[..k], deads[k], |ops|);
      assert deads[..k + 1] == deads[..k] + [deads[k]];
      r := r[..idx + 1] + [Stmt(StorageDead(local))] + r[idx + 1..];
    }
    assert deads[..|deads|] == deads;
  }
}
