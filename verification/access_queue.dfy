/** AccessQueue: a counter of passes and an ordered list of waiters, each with a condition.
    A scan walks the list from the front while passes remain, admitting waiters whose condition
    holds; in ordered mode the first waiter whose condition fails stops the scan.

    The scan runs on a worker task under a lock; here each trigger is one atomic step. A
    condition is a predicate the caller supplies; it is modelled as `Always` or as a guard that
    holds when its key is in the set `open` of guards true at the time of the scan.

    As written, the walk removes the admitted node from the LinkedList and then follows
    `currentNode.Next`, which .NET sets to null on removal: every scan ends after its first
    admission (AccessQueue.cs, lines 100-104), and Dispose fails only the first waiter
    (lines 140-143). `ScanAsWritten` and `DisposeAsWritten` model that walk; `Scan` and
    `Dispose` walk the whole list, which the loops evidently intend, and the operations use them. */
module AccessQueue {
  import opened Wrappers

  datatype Condition = Always | Guard(key: nat)

  datatype Waiter = Waiter(id: nat, condition: Condition)

  datatype Queue = Queue(waiting: seq<Waiter>, available: nat, maximum: nat, enforceOrder: bool, disposed: bool)

  /** What one scan leaves: the waiters still waiting, the passes left, the waiters admitted in
      admission order (their tasks complete). */
  datatype ScanResult = ScanResult(rest: seq<Waiter>, available: nat, admitted: seq<Waiter>)

  predicate Holds(c: Condition, open: set<nat>) {
    c.Always? || c.key in open
  }

  /** `small` is `big` with some elements left out, the others in their order. */
  predicate Subsequence<T(==)>(small: seq<T>, big: seq<T>)
    decreases |big|
  {
    if |big| == 0 then |small| == 0
    else
      || (|small| > 0 && small[0] == big[0] && Subsequence(small[1..], big[1..]))
      || Subsequence(small, big[1..])
  }

  lemma {:induction false} EmptySubsequence<T>(s: seq<T>)
    ensures Subsequence([], s)
    decreases |s|
  {
    if |s| > 0 {
      EmptySubsequence(s[1..]);
    }
  }

  lemma {:induction false} SubsequenceReflexive<T>(s: seq<T>)
    ensures Subsequence(s, s)
    decreases |s|
  {
    if |s| > 0 {
      SubsequenceReflexive(s[1..]);
    }
  }

  function Ids(waiters: seq<Waiter>): (ids: seq<nat>)
    ensures |ids| == |waiters|
    ensures forall k :: 0 <= k < |waiters| ==> ids[k] == waiters[k].id
  {
    seq(|waiters|, k requires 0 <= k < |waiters| => waiters[k].id)
  }

  /** Nothing left can be admitted: no pass, or (ordered) the front waiter is blocked, or
      (unordered) every waiter is blocked. */
  predicate Stuck(rest: seq<Waiter>, available: nat, enforceOrder: bool, open: set<nat>) {
    || available == 0
    || |rest| == 0
    || (enforceOrder && !Holds(rest[0].condition, open))
    || (!enforceOrder && forall k :: 0 <= k < |rest| ==> !Holds(rest[k].condition, open))
  }

  /** The waiters whose condition holds, in list order. */
  function Holding(waiting: seq<Waiter>, open: set<nat>): (h: seq<Waiter>)
    decreases |waiting|
  {
    if |waiting| == 0 then []
    else if Holds(waiting[0].condition, open) then [waiting[0]] + Holding(waiting[1..], open)
    else Holding(waiting[1..], open)
  }

  function Min(a: nat, b: nat): nat {
    if a < b then a else b
  }

  /** `admitted` is the first waiters of `waiting` whose condition holds, in list order, as many
      as `available` allows. */
  predicate FirstHolding(admitted: seq<Waiter>, waiting: seq<Waiter>, available: nat, open: set<nat>) {
    admitted == Holding(waiting, open)[..Min(available, |Holding(waiting, open)|)]
  }

  /** CheckForSpace, walking the whole list. In ordered mode the first blocked waiter ends the
      walk, so what is admitted is a prefix of the list and what is left is the remainder; in
      unordered mode blocked waiters are passed over (ScanTakesFirstHolding). */
  function Scan(waiting: seq<Waiter>, available: nat, enforceOrder: bool, open: set<nat>): (r: ScanResult)
    ensures r.available + |r.admitted| == available
    ensures |r.rest| + |r.admitted| == |waiting|
    ensures enforceOrder ==> r.admitted == waiting[..|r.admitted|] && r.rest == waiting[|r.admitted|..]
    decreases |waiting|
  {
    if |waiting| == 0 || available == 0 then ScanResult(waiting, available, [])
    else if Holds(waiting[0].condition, open) then
      var r := Scan(waiting[1..], available - 1, enforceOrder, open);
      assert enforceOrder ==> [waiting[0]] + r.admitted == waiting[..|r.admitted| + 1];
      ScanResult(r.rest, r.available, [waiting[0]] + r.admitted)
    else if enforceOrder then ScanResult(waiting, available, [])
    else
      var r := Scan(waiting[1..], available, enforceOrder, open);
      ScanResult([waiting[0]] + r.rest, r.available, r.admitted)
  }

  /** In unordered mode blocked waiters are passed over: the scan admits the first waiters
      whose condition holds, in list order, as many as there are passes. */
  lemma {:induction false} ScanTakesFirstHolding(waiting: seq<Waiter>, available: nat, open: set<nat>)
    ensures FirstHolding(Scan(waiting, available, false, open).admitted, waiting, available, open)
    decreases |waiting|
  {
    if |waiting| > 0 && available > 0 {
      if Holds(waiting[0].condition, open) {
        ScanTakesFirstHolding(waiting[1..], available - 1, open);
        assert Holding(waiting, open) == [waiting[0]] + Holding(waiting[1..], open);
      } else {
        ScanTakesFirstHolding(waiting[1..], available, open);
      }
    }
  }

  /** A scan splits the list in two: the waiters it admits and the waiters it leaves are
      together exactly the waiters there were. */
  lemma {:induction false} ScanPartitions(waiting: seq<Waiter>, available: nat, enforceOrder: bool, open: set<nat>)
    ensures var r := Scan(waiting, available, enforceOrder, open);
            multiset(r.rest) + multiset(r.admitted) == multiset(waiting)
    decreases |waiting|
  {
    if |waiting| > 0 && available > 0 {
      if Holds(waiting[0].condition, open) {
        var r := Scan(waiting[1..], available - 1, enforceOrder, open);
        ScanPartitions(waiting[1..], available - 1, enforceOrder, open);
        MovesFront(waiting, r.admitted, r.rest);
        assert Scan(waiting, available, enforceOrder, open) == ScanResult(r.rest, r.available, [waiting[0]] + r.admitted);
      } else if !enforceOrder {
        var r := Scan(waiting[1..], available, enforceOrder, open);
        ScanPartitions(waiting[1..], available, enforceOrder, open);
        MovesFront(waiting, r.rest, r.admitted);
        assert Scan(waiting, available, enforceOrder, open) == ScanResult([waiting[0]] + r.rest, r.available, r.admitted);
      }
    }
  }

  /** Putting the front element back on one of two parts of the tail. */
  lemma MovesFront(waiting: seq<Waiter>, gets: seq<Waiter>, other: seq<Waiter>)
    requires |waiting| > 0
    requires multiset(gets) + multiset(other) == multiset(waiting[1..])
    ensures multiset([waiting[0]] + gets) + multiset(other) == multiset(waiting)
    ensures multiset(other) + multiset([waiting[0]] + gets) == multiset(waiting)
  {
    assert waiting == [waiting[0]] + waiting[1..];
  }

  /** Both parts keep list order: the waiters left behind keep their relative order, and
      waiters are admitted in list order. */
  lemma {:induction false} ScanKeepsOrder(waiting: seq<Waiter>, available: nat, enforceOrder: bool, open: set<nat>)
    ensures var r := Scan(waiting, available, enforceOrder, open);
            Subsequence(r.rest, waiting) && Subsequence(r.admitted, waiting)
    decreases |waiting|
  {
    var r := Scan(waiting, available, enforceOrder, open);
    if |waiting| == 0 || available == 0 || (!Holds(waiting[0].condition, open) && enforceOrder) {
      SubsequenceReflexive(waiting);
      EmptySubsequence(waiting);
    } else if Holds(waiting[0].condition, open) {
      ScanKeepsOrder(waiting[1..], available - 1, enforceOrder, open);
      assert r.admitted[1..] == Scan(waiting[1..], available - 1, enforceOrder, open).admitted;
    } else {
      ScanKeepsOrder(waiting[1..], available, enforceOrder, open);
      assert r.rest[1..] == Scan(waiting[1..], available, enforceOrder, open).rest;
    }
  }

  predicate AllHold(waiters: seq<Waiter>, open: set<nat>) {
    forall k :: 0 <= k < |waiters| ==> Holds(waiters[k].condition, open)
  }

  /** Only waiters whose condition holds are admitted. */
  lemma {:induction false} ScanAdmitsHolding(waiting: seq<Waiter>, available: nat, enforceOrder: bool, open: set<nat>)
    ensures AllHold(Scan(waiting, available, enforceOrder, open).admitted, open)
    decreases |waiting|
  {
    if |waiting| > 0 && available > 0 {
      if Holds(waiting[0].condition, open) {
        ScanAdmitsHolding(waiting[1..], available - 1, enforceOrder, open);
        var r := Scan(waiting[1..], available - 1, enforceOrder, open);
        var top := Scan(waiting, available, enforceOrder, open);
        assert top.admitted == [waiting[0]] + r.admitted;
        forall k | 0 <= k < |top.admitted|
          ensures Holds(top.admitted[k].condition, open)
        {
          if k > 0 {
            assert top.admitted[k] == r.admitted[k - 1];
          }
        }
      } else if !enforceOrder {
        ScanAdmitsHolding(waiting[1..], available, enforceOrder, open);
        assert Scan(waiting, available, enforceOrder, open).admitted
            == Scan(waiting[1..], available, enforceOrder, open).admitted;
      }
    }
  }

  /** The scan stops only when nothing more can be admitted; in ordered mode it admits the
      waiters in front of the first blocked one, as many as the passes allow, and no other; in
      unordered mode it admits the first holding waiters in list order. */
  lemma {:induction false} ScanIsMaximal(waiting: seq<Waiter>, available: nat, enforceOrder: bool, open: set<nat>)
    ensures var r := Scan(waiting, available, enforceOrder, open);
            Stuck(r.rest, r.available, enforceOrder, open)
    ensures var r := Scan(waiting, available, enforceOrder, open);
            enforceOrder ==> r.admitted == waiting[..|r.admitted|] && r.rest == waiting[|r.admitted|..]
                             && AllHold(r.admitted, open)
    ensures var r := Scan(waiting, available, enforceOrder, open);
            !enforceOrder ==> FirstHolding(r.admitted, waiting, available, open)
    decreases |waiting|
  {
    ScanAdmitsHolding(waiting, available, enforceOrder, open);
    if !enforceOrder {
      ScanTakesFirstHolding(waiting, available, open);
    }
    if |waiting| > 0 && available > 0 {
      if Holds(waiting[0].condition, open) {
        ScanIsMaximal(waiting[1..], available - 1, enforceOrder, open);
      } else if !enforceOrder {
        ScanIsMaximal(waiting[1..], available, enforceOrder, open);
        var r := Scan(waiting[1..], available, enforceOrder, open);
        assert forall k :: 1 <= k < |r.rest| + 1 ==> ([waiting[0]] + r.rest)[k] == r.rest[k - 1];
      }
    }
  }

  predicate AllAlways(waiting: seq<Waiter>) {
    forall k :: 0 <= k < |waiting| ==> waiting[k].condition.Always?
  }

  /** With conditions that always hold, waiters are admitted first come, first served: the
      longest prefix the passes allow, in order. */
  lemma {:induction false} ScanIsFifo(waiting: seq<Waiter>, available: nat, enforceOrder: bool, open: set<nat>)
    requires AllAlways(waiting)
    ensures var n := if available < |waiting| then available else |waiting|;
            var r := Scan(waiting, available, enforceOrder, open);
            r.admitted == waiting[..n] && r.rest == waiting[n..]
    decreases |waiting|
  {
    if |waiting| > 0 && available > 0 {
      ScanIsFifo(waiting[1..], available - 1, enforceOrder, open);
      var n := if available < |waiting| then available else |waiting|;
      assert waiting[1..][n - 1..] == waiting[n..];
      assert waiting[..n] == [waiting[0]] + waiting[1..][..n - 1];
    }
  }

  /** CheckForSpace as written: the walk ends after the first admission, because the removed
      node's Next is null. */
  function ScanAsWritten(waiting: seq<Waiter>, available: nat, enforceOrder: bool, open: set<nat>): (r: ScanResult)
    ensures r.available + |r.admitted| == available && |r.admitted| <= 1
    ensures |r.rest| + |r.admitted| == |waiting|
    decreases |waiting|
  {
    if |waiting| == 0 || available == 0 then ScanResult(waiting, available, [])
    else if Holds(waiting[0].condition, open) then ScanResult(waiting[1..], available - 1, [waiting[0]])
    else if enforceOrder then ScanResult(waiting, available, [])
    else
      var r := ScanAsWritten(waiting[1..], available, enforceOrder, open);
      ScanResult([waiting[0]] + r.rest, r.available, r.admitted)
  }

  /** The constructor: all passes available. */
  function Create(n: nat, enforceOrder: bool): (q: Queue)
    ensures q.available == q.maximum == n && q.waiting == [] && !q.disposed
  {
    Queue([], n, n, enforceOrder, false)
  }

  predicate Valid(q: Queue) {
    q.available <= q.maximum
  }

  /** The queue after a scan. */
  function AfterScan(q: Queue, open: set<nat>): (out: (Queue, seq<nat>))
    ensures out.0.maximum == q.maximum && out.0.enforceOrder == q.enforceOrder && out.0.disposed == q.disposed
    ensures out.0.available + |out.1| == q.available
  {
    var r := Scan(q.waiting, q.available, q.enforceOrder, open);
    (q.(waiting := r.rest, available := r.available), Ids(r.admitted))
  }

  /** CheckForSpace. */
  function CheckForSpace(q: Queue, open: set<nat>): (out: (Queue, seq<nat>))
    ensures Valid(q) ==> Valid(out.0)
    ensures Stuck(out.0.waiting, out.0.available, q.enforceOrder, open)
  {
    ScanIsMaximal(q.waiting, q.available, q.enforceOrder, open);
    AfterScan(q, open)
  }

  /** GetPass(condition): refuses after disposal; appends the waiter at the back, then scans.
      The result lists the ids whose tasks complete. */
  function GetPass(q: Queue, id: nat, condition: Condition, open: set<nat>): (r: Result<(Queue, seq<nat>)>)
    ensures r.Err? <==> q.disposed
    ensures r.Err? ==> r.error == ObjectDisposed
    ensures r.Ok? ==> Valid(q) ==> Valid(r.value.0)
    ensures r.Ok? ==> r.value.0.available + |r.value.1| == q.available
    ensures r.Ok? ==> Stuck(r.value.0.waiting, r.value.0.available, q.enforceOrder, open)
    ensures r.Ok? ==> Subsequence(r.value.0.waiting, q.waiting + [Waiter(id, condition)])
  {
    if q.disposed then Err(ObjectDisposed)
    else
      ScanIsMaximal(q.waiting + [Waiter(id, condition)], q.available, q.enforceOrder, open);
      ScanKeepsOrder(q.waiting + [Waiter(id, condition)], q.available, q.enforceOrder, open);
      Ok(AfterScan(q.(waiting := q.waiting + [Waiter(id, condition)]), open))
  }

  /** GetPass(): a condition that always holds. */
  function GetPassAlways(q: Queue, id: nat, open: set<nat>): (r: Result<(Queue, seq<nat>)>)
    ensures r == GetPass(q, id, Always, open)
    ensures r.Ok? && q.available > 0 && q.waiting == [] ==> r.value.1 == [id]
  {
    if q.disposed then Err(ObjectDisposed)
    else
      ScanIsFifo([Waiter(id, Always)], q.available, q.enforceOrder, open);
      GetPass(q, id, Always, open)
  }

  /** ReturnPass: with every pass already returned, SemaphoreFullException and no change;
      otherwise one more pass, then a scan. */
  function ReturnPass(q: Queue, open: set<nat>): (r: Result<(Queue, seq<nat>)>)
    ensures r.Err? <==> q.available == q.maximum
    ensures r.Err? ==> r.error == SemaphoreFull
    ensures r.Ok? ==> Valid(q) ==> Valid(r.value.0)
    ensures r.Ok? ==> r.value.0.available + |r.value.1| == q.available + 1
    ensures r.Ok? ==> Stuck(r.value.0.waiting, r.value.0.available, q.enforceOrder, open)
  {
    if q.available == q.maximum then Err(SemaphoreFull)
    else
      ScanIsMaximal(q.waiting, q.available + 1, q.enforceOrder, open);
      Ok(AfterScan(q.(available := q.available + 1), open))
  }

  /** What Dispose completes: the ids admitted by its scan and the ids failed with
      ObjectDisposedException. */
  datatype DisposeResult = DisposeResult(queue: Queue, admitted: seq<nat>, failed: seq<nat>)

  /** Dispose: a final scan, then every waiter left is failed and removed; the second call
      does nothing. */
  function Dispose(q: Queue, open: set<nat>): (r: DisposeResult)
    ensures q.disposed ==> r == DisposeResult(q, [], [])
    ensures r.queue.disposed
    ensures !q.disposed ==> r.queue.waiting == [] && |r.admitted| + |r.failed| == |q.waiting|
    ensures Valid(q) ==> Valid(r.queue)
  {
    if q.disposed then DisposeResult(q, [], [])
    else
      var (q1, admitted) := AfterScan(q, open);
      DisposeResult(q1.(waiting := [], disposed := true), admitted, Ids(q1.waiting))
  }

  /** Dispose as written: the final scan stops after one admission and the failing loop stops
      after the first waiter, so the rest stay queued with tasks that never complete. */
  function DisposeAsWritten(q: Queue, open: set<nat>): (r: DisposeResult)
    ensures q.disposed ==> r == DisposeResult(q, [], [])
    ensures r.queue.disposed && |r.failed| <= 1 && |r.admitted| <= 1
  {
    if q.disposed then DisposeResult(q, [], [])
    else
      var s := ScanAsWritten(q.waiting, q.available, q.enforceOrder, open);
      if |s.rest| == 0 then DisposeResult(q.(waiting := [], available := s.available, disposed := true), Ids(s.admitted), [])
      else DisposeResult(q.(waiting := s.rest[1..], available := s.available, disposed := true), Ids(s.admitted), [s.rest[0].id])
  }

  lemma DisposedRefuses(q: Queue, open: set<nat>, id: nat, c: Condition)
    ensures GetPass(Dispose(q, open).queue, id, c, open) == Err(ObjectDisposed)
    ensures Dispose(Dispose(q, open).queue, open).failed == []
  {
  }

  /** An ordered queue of two passes whose front waiter is blocked, with a second waiter
      behind it: once the guard opens, a scan as written admits one waiter and leaves a pass
      unused while the other waits; the whole-list scan admits both. Disposing that queue as
      written fails only the first of the two waiters. */
  lemma ScanAsWrittenStrands()
    ensures var q0 := Create(2, true);
            var q1 := GetPass(q0, 1, Guard(7), {}).value.0;
            var q2 := GetPass(q1, 2, Always, {}).value.0;
            && q2.waiting == [Waiter(1, Guard(7)), Waiter(2, Always)] && q2.available == 2
            && ScanAsWritten(q2.waiting, q2.available, true, {7}) == ScanResult([Waiter(2, Always)], 1, [Waiter(1, Guard(7))])
            && Scan(q2.waiting, q2.available, true, {7}) == ScanResult([], 0, q2.waiting)
            && DisposeAsWritten(q2, {}) == DisposeResult(q2.(waiting := [Waiter(2, Always)], disposed := true), [], [1])
            && Dispose(q2, {}) == DisposeResult(q2.(waiting := [], disposed := true), [], [1, 2])
  {
    var q0 := Create(2, true);
    var w1 := Waiter(1, Guard(7));
    var w2 := Waiter(2, Always);
    assert [w1, w2][1..] == [w2];
    assert [w2][1..] == [];
  }
}
