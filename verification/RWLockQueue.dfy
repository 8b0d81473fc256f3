/** Facts about the wait queue: what filtering, deleting and splitting keep. */
module RWLockQueue {
  import opened RWLockModel

  lemma {:induction false} CountConcat(a: seq<Waiter>, b: seq<Waiter>)
    ensures CountWriters(a + b) == CountWriters(a) + CountWriters(b)
  {
    if a == [] {
      assert a + b == b;
    } else {
      assert (a + b)[1..] == a[1..] + b;
      CountConcat(a[1..], b);
    }
  }

  lemma {:induction false} CountZero(q: seq<Waiter>)
    ensures CountWriters(q) <= |q|
    ensures CountWriters(q) == 0 <==> forall i :: 0 <= i < |q| ==> !q[i].forWrite
    ensures CountWriters(q) == |q| <==> !HasReader(q)
  {
    if q != [] {
      CountZero(q[1..]);
      assert forall i :: 1 <= i < |q| ==> q[i] == q[1..][i - 1];
      if CountWriters(q[1..]) == |q| - 1 {
        assert !HasReader(q[1..]);
        if HasReader(q) {
          var i :| 0 <= i < |q| && !q[i].forWrite;
          if i > 0 { assert !q[1..][i - 1].forWrite; }
        }
      } else {
        var i :| 0 <= i < |q[1..]| && !q[1..][i].forWrite;
        assert !q[i + 1].forWrite;
      }
    }
  }

  /** The two halves of the queue: who is a reader, who is a writer. */
  lemma {:induction false} FilterMembers(q: seq<Waiter>)
    ensures forall w :: w in WritersOf(q) <==> w in q && w.forWrite
    ensures forall t :: t in ReaderTasks(q) <==> Waiter(t, false) in q
    ensures CountWriters(WritersOf(q)) == CountWriters(q)
    ensures |ReaderTasks(q)| + CountWriters(q) == |q|
  {
    if q != [] {
      FilterMembers(q[1..]);
      assert q == [q[0]] + q[1..];
      if q[0].forWrite {
        assert WritersOf(q)[1..] == WritersOf(q[1..]);
      }
    }
  }

  lemma {:induction false} FilterSnoc(q: seq<Waiter>, w: Waiter)
    ensures WritersOf(q + [w]) == WritersOf(q) + if w.forWrite then [w] else []
    ensures ReaderTasks(q + [w]) == ReaderTasks(q) + if w.forWrite then [] else [w.task]
  {
    if q != [] {
      assert (q + [w])[1..] == q[1..] + [w];
      FilterSnoc(q[1..], w);
    } else {
      assert q + [w] == [w];
    }
  }

  lemma {:induction false} FilterConcat(a: seq<Waiter>, b: seq<Waiter>)
    ensures WritersOf(a + b) == WritersOf(a) + WritersOf(b)
    ensures ReaderTasks(a + b) == ReaderTasks(a) + ReaderTasks(b)
  {
    if a == [] {
      assert a + b == b;
    } else {
      assert (a + b)[1..] == a[1..] + b;
      FilterConcat(a[1..], b);
    }
  }

  lemma {:induction false} WritersDistinct(q: seq<Waiter>)
    requires Distinct(q)
    ensures Distinct(WritersOf(q))
    ensures forall i, j :: 0 <= i < j < |ReaderTasks(q)| ==> ReaderTasks(q)[i] != ReaderTasks(q)[j]
  {
    if q != [] {
      WritersDistinct(q[1..]);
      FilterMembers(q[1..]);
      assert forall w :: w in q[1..] ==> w.task != q[0].task;
    }
  }

  lemma QueuedIn(q: seq<Waiter>, t: Task)
    ensures Queued(q, t) <==> Waiter(t, true) in q || Waiter(t, false) in q
  {
    if Queued(q, t) {
      var i :| 0 <= i < |q| && q[i].task == t;
      assert q[i] in q;
      assert q[i] == Waiter(t, q[i].forWrite);
    }
  }

  /** In a queue of distinct tasks deletion takes out one entry and keeps the order of the rest. */
  lemma {:induction false} WithoutSplits(q: seq<Waiter>, t: Task)
    requires Queued(q, t)
    ensures var p := Position(q, t); Without(q, t) == q[..p] + q[p + 1..]
  {
    if q[0].task != t {
      assert Queued(q[1..], t) by {
        var i :| 0 <= i < |q| && q[i].task == t;
        assert q[1..][i - 1].task == t;
      }
      WithoutSplits(q[1..], t);
      var p := Position(q[1..], t);
      assert Position(q, t) == p + 1;
      assert q[..p + 1] == [q[0]] + q[1..][..p];
      assert q[p + 2..] == q[1..][p + 1..];
    }
  }

  /** Deletion takes out nobody else and adds nobody. */
  lemma {:induction false} WithoutMembers(q: seq<Waiter>, t: Task)
    ensures forall w :: w in Without(q, t) ==> w in q
    ensures forall w :: w in q && w.task != t ==> w in Without(q, t)
  {
    if q != [] {
      WithoutMembers(q[1..], t);
      assert q == [q[0]] + q[1..];
    }
  }

  lemma {:induction false} WithoutDistinct(q: seq<Waiter>, t: Task)
    requires Distinct(q)
    ensures Distinct(Without(q, t))
  {
    if q != [] {
      var rest := q[1..];
      WithoutDistinct(rest, t);
      if q[0].task != t {
        WithoutMembers(rest, t);
        assert forall w :: w in rest ==> w.task != q[0].task;
        assert Without(q, t) == [q[0]] + Without(rest, t);
      }
    }
  }

  /** The two kinds of waiting tasks around one entry. */
  lemma FilterAround(a: seq<Waiter>, w: Waiter, b: seq<Waiter>)
    ensures ReaderTasks((a + [w]) + b) == (ReaderTasks(a) + if w.forWrite then [] else [w.task]) + ReaderTasks(b)
    ensures WritersOf((a + [w]) + b) == (WritersOf(a) + if w.forWrite then [w] else []) + WritersOf(b)
  {
    FilterConcat(a + [w], b);
    FilterSnoc(a, w);
  }

  lemma TasksConcat(a: seq<Waiter>, b: seq<Waiter>)
    ensures TasksOf(a + b) == TasksOf(a) + TasksOf(b)
  {
  }

  lemma TasksAround(a: seq<Waiter>, w: Waiter, b: seq<Waiter>)
    ensures TasksOf((a + [w]) + b) == (TasksOf(a) + [w.task]) + TasksOf(b)
  {
    TasksConcat(a + [w], b);
    TasksConcat(a, [w]);
    assert TasksOf([w]) == [w.task];
  }

  lemma PositionUnique(q: seq<Waiter>, t: Task, i: nat)
    requires Distinct(q) && i < |q| && q[i].task == t
    ensures Queued(q, t) && Position(q, t) == i
  {
    assert Queued(q, t);
    var p := Position(q, t);
    assert q[p].task == q[i].task;
  }

  /** The writer count after a deletion. */
  lemma WithoutCount(q: seq<Waiter>, t: Task)
    requires Queued(q, t)
    ensures CountWriters(Without(q, t))
         == CountWriters(q) - if q[Position(q, t)].forWrite then 1 else 0
  {
    var p := Position(q, t);
    WithoutSplits(q, t);
    assert q == q[..p] + ([q[p]] + q[p + 1..]);
    CountConcat(q[..p], [q[p]] + q[p + 1..]);
    CountConcat([q[p]], q[p + 1..]);
    CountConcat(q[..p], q[p + 1..]);
    assert CountWriters([q[p]]) == if q[p].forWrite then 1 else 0;
  }

  /** The position of a writer never grows when the readers around it leave. */
  lemma {:induction false} WriterMovesUp(q: seq<Waiter>, t: Task)
    requires Distinct(q) && Queued(q, t) && q[Position(q, t)].forWrite
    ensures Queued(WritersOf(q), t)
    ensures Position(WritersOf(q), t) <= Position(q, t)
    ensures !q[0].forWrite ==> Position(WritersOf(q), t) < Position(q, t)
  {
    if q[0].task == t {
      assert WritersOf(q)[0].task == t;
    } else {
      var p := Position(q, t);
      assert q[1..][p - 1].task == t;
      PositionUnique(q[1..], t, p - 1);
      WriterMovesUp(q[1..], t);
      if q[0].forWrite {
        assert WritersOf(q)[1..] == WritersOf(q[1..]);
        var k := Position(WritersOf(q[1..]), t);
        assert WritersOf(q)[k + 1].task == t;
        WritersDistinct(q);
        PositionUnique(WritersOf(q), t, k + 1);
      }
    }
  }
}
