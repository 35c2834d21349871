/** The two-buffer hand-over of double_buffered_queue.hpp: operations in steps that threads
    interleave, and the same operations run one after the other. */
module DoubleBufferQueue {

  // ---- interleaved steps --------------------------------------------------------------------

  /** Writers and readers that are under way: a writer has loaded `current`; a reader has
      loaded it, and stored the other index when `stored` is set. `pushed` and `returned`
      are the history. */
  datatype State<T> = State(
    queue0: seq<T>, queue1: seq<T>, current: bool,
    writers: map<nat, (bool, T)>, readers: map<nat, (bool, bool)>,
    pushed: seq<T>, returned: seq<seq<T>>) {

    function Queue(index: bool): seq<T> { if index then queue1 else queue0 }

    function WithQueue(index: bool, q: seq<T>): State<T> {
      if index then this.(queue1 := q) else this.(queue0 := q)
    }
  }

  function Start<T>(): State<T> { State([], [], false, map[], map[], [], []) }

  /** One atomic step of a thread. */
  datatype Step<T> =
    | LoadForPush(writer: nat, item: T)
    | Push(writer: nat)
    | LoadForRead(reader: nat)
    | Store(reader: nat)
    | Swap(reader: nat)

  predicate Enabled<T>(s: State<T>, step: Step<T>) {
    match step
    case LoadForPush(w, _) => w !in s.writers
    case Push(w) => w in s.writers
    case LoadForRead(r) => r !in s.readers
    case Store(r) => r in s.readers && !s.readers[r].1
    case Swap(r) => r in s.readers && s.readers[r].1
  }

  function Apply<T>(s: State<T>, step: Step<T>): State<T>
    requires Enabled(s, step)
  {
    match step
    case LoadForPush(w, item) => s.(writers := s.writers[w := (s.current, item)])
    case Push(w) =>
      var (index, item) := s.writers[w];
      s.WithQueue(index, s.Queue(index) + [item]).(writers := s.writers - {w}, pushed := s.pushed + [item])
    case LoadForRead(r) => s.(readers := s.readers[r := (s.current, false)])
    case Store(r) =>
      var index := s.readers[r].0;
      s.(current := !index, readers := s.readers[r := (index, true)])
    case Swap(r) =>
      var index := s.readers[r].0;
      s.WithQueue(index, []).(readers := s.readers - {r}, returned := s.returned + [s.Queue(index)])
  }

  /** Every step is one that its thread can take next. */
  predicate IsRun<T>(s: State<T>, steps: seq<Step<T>>)
    decreases |steps|
  {
    |steps| == 0 || (Enabled(s, steps[0]) && IsRun(Apply(s, steps[0]), steps[1..]))
  }

  function Run<T>(s: State<T>, steps: seq<Step<T>>): State<T>
    requires IsRun(s, steps)
    decreases |steps|
  {
    if |steps| == 0 then s else Run(Apply(s, steps[0]), steps[1..])
  }

  function Flat<T>(batches: seq<seq<T>>): seq<T> {
    if |batches| == 0 then [] else Flat(batches[..|batches| - 1]) + batches[|batches| - 1]
  }

  /** What has been enqueued is in one of the buffers or in a batch that was returned. */
  ghost predicate Conserved<T>(s: State<T>) {
    multiset(s.pushed) == multiset(s.queue0) + multiset(s.queue1) + multiset(Flat(s.returned))
  }

  lemma {:induction false} FlatMore<T>(batches: seq<seq<T>>, batch: seq<T>)
    ensures Flat(batches + [batch]) == Flat(batches) + batch
  {
    assert (batches + [batch])[..|batches|] == batches;
  }

  lemma {:induction false} StepConserves<T>(s: State<T>, step: Step<T>)
    requires Conserved(s) && Enabled(s, step)
    ensures Conserved(Apply(s, step))
  {
    hide Flat;
    if step.Swap? {
      FlatMore(s.returned, s.Queue(s.readers[step.reader].0));
    }
  }

  /** Whatever the interleaving and the number of threads: nothing is lost or duplicated. */
  lemma {:induction false} RunConserves<T>(s: State<T>, steps: seq<Step<T>>)
    requires Conserved(s) && IsRun(s, steps)
    ensures Conserved(Run(s, steps))
    decreases |steps|
  {
    hide Conserved, Apply, Enabled;
    if |steps| > 0 {
      StepConserves(s, steps[0]);
      RunConserves(Apply(s, steps[0]), steps[1..]);
    }
  }

  lemma {:induction false} NothingLost<T>(steps: seq<Step<T>>)
    requires IsRun(Start<T>(), steps)
    ensures var s := Run(Start<T>(), steps);
            multiset(s.pushed) == multiset(s.queue0) + multiset(s.queue1) + multiset(Flat(s.returned))
  {
    assert Conserved(Start<T>());
    RunConserves(Start<T>(), steps);
  }

  // ---- order ------------------------------------------------------------------------------------

  /** A whole enqueue and a whole read, nothing in between. */
  function EnqueueSteps<T>(item: T): seq<Step<T>> { [LoadForPush(0, item), Push(0)] }

  function ReadSteps<T>(): seq<Step<T>> { [LoadForRead(0), Store(0), Swap(0)] }

  /** Between operations the inactive buffer is empty and the batches returned so far,
      followed by the active buffer, are the items in the order of their enqueueing. */
  ghost predicate InOrder<T>(s: State<T>) {
    && s.writers == map[] && s.readers == map[]
    && s.Queue(!s.current) == []
    && Flat(s.returned) + s.Queue(s.current) == s.pushed
  }

  lemma {:induction false} EnqueueInOrder<T>(s: State<T>, item: T)
    requires InOrder(s)
    ensures IsRun(s, EnqueueSteps(item))
    ensures var t := Run(s, EnqueueSteps(item));
            InOrder(t) && t.pushed == s.pushed + [item] && t.returned == s.returned
  {
    hide Flat;
    var s1 := Apply(s, LoadForPush(0, item));
    var t := Apply(s1, Push(0));
    RunOfTwo(s, LoadForPush(0, item), Push(0));
    assert t.writers == map[];
    assert Flat(t.returned) + (s.Queue(s.current) + [item]) == Flat(s.returned) + s.Queue(s.current) + [item];
  }

  lemma {:induction false} ReadInOrder<T>(s: State<T>)
    requires InOrder(s)
    ensures IsRun(s, ReadSteps())
    ensures var t := Run(s, ReadSteps());
            InOrder(t) && t.pushed == s.pushed && t.returned == s.returned + [s.Queue(s.current)]
  {
    hide Flat;
    var s1 := Apply(s, LoadForRead(0));
    var s2 := Apply(s1, Store(0));
    var t := Apply(s2, Swap(0));
    RunOfThree(s, LoadForRead(0), Store(0), Swap(0));
    assert t.readers == map[];
    FlatMore(s.returned, s.Queue(s.current));
  }

  lemma {:induction false} RunOfTwo<T>(s: State<T>, a: Step<T>, b: Step<T>)
    requires Enabled(s, a) && Enabled(Apply(s, a), b)
    ensures IsRun(s, [a, b]) && Run(s, [a, b]) == Apply(Apply(s, a), b)
  {
    hide Apply, Enabled;
    assert [a, b][1..] == [b] && [b][1..] == [];
    assert IsRun(Apply(s, a), [b]);
    assert Run(Apply(s, a), [b]) == Apply(Apply(s, a), b);
  }

  lemma {:induction false} RunOfThree<T>(s: State<T>, a: Step<T>, b: Step<T>, c: Step<T>)
    requires Enabled(s, a) && Enabled(Apply(s, a), b) && Enabled(Apply(Apply(s, a), b), c)
    ensures IsRun(s, [a, b, c]) && Run(s, [a, b, c]) == Apply(Apply(Apply(s, a), b), c)
  {
    hide Apply, Enabled;
    assert [a, b, c][1..] == [b, c];
    RunOfTwo(Apply(s, a), b, c);
  }

  lemma {:induction false} RunOfBoth<T>(s: State<T>, a: seq<Step<T>>, b: seq<Step<T>>)
    requires IsRun(s, a) && IsRun(Run(s, a), b)
    ensures IsRun(s, a + b) && Run(s, a + b) == Run(Run(s, a), b)
    decreases |a|
  {
    hide Apply, Enabled;
    if |a| == 0 {
      assert a + b == b;
    } else {
      assert (a + b)[0] == a[0] && (a + b)[1..] == a[1..] + b;
      RunOfBoth(Apply(s, a[0]), a[1..], b);
    }
  }

  // ---- exactly when the order is kept -----------------------------------------------------------

  /** The batches returned so far are a beginning of what has been enqueued. */
  ghost predicate OrderKept<T>(s: State<T>) {
    Flat(s.returned) <= s.pushed
  }

  ghost predicate AllAre<T>(q: seq<T>, item: T) {
    forall i | 0 <= i < |q| :: q[i] == item
  }

  /** A read of the inactive buffer is under way. */
  ghost predicate Draining<T>(s: State<T>) {
    exists r :: r in s.readers && s.readers[r].0 != s.current
  }

  /** What keeps the order: a push goes to the active buffer, or to the inactive one while a read
      will still fetch it and nothing else has come to the active one; and no read begins while
      another one has switched the buffers and has not fetched its batch. */
  ghost predicate Guarded<T>(s: State<T>, step: Step<T>)
    requires Enabled(s, step)
  {
    match step
    case Push(w) =>
      s.writers[w].0 == s.current || (Draining(s) && AllAre(s.Queue(s.current), s.writers[w].1))
    case LoadForRead(_) => !Draining(s)
    case _ => true
  }

  ghost predicate IsGuardedRun<T>(s: State<T>, steps: seq<Step<T>>)
    decreases |steps|
  {
    |steps| == 0 || (Enabled(s, steps[0]) && Guarded(s, steps[0]) && IsGuardedRun(Apply(s, steps[0]), steps[1..]))
  }

  lemma {:induction false} GuardedIsRun<T>(s: State<T>, steps: seq<Step<T>>)
    requires IsGuardedRun(s, steps)
    ensures IsRun(s, steps)
    decreases |steps|
  {
    hide Apply, Enabled, Guarded;
    if |steps| > 0 { GuardedIsRun(Apply(s, steps[0]), steps[1..]); }
  }

  /** Any number of writers and readers may be under way. All reads fetch the same buffer; the
      inactive buffer holds something only if one of them will fetch it, and what it holds is
      older than what the active one holds. */
  ghost predicate Orderly<T>(s: State<T>) {
    && (forall r, q | r in s.readers && q in s.readers :: s.readers[r].0 == s.readers[q].0)
    && (forall r | r in s.readers && s.readers[r].1 :: s.readers[r].0 != s.current)
    && (Draining(s) || s.Queue(!s.current) == [])
    && Flat(s.returned) + s.Queue(!s.current) + s.Queue(s.current) == s.pushed
  }

  lemma {:induction false} StepOrderly<T>(s: State<T>, step: Step<T>)
    requires Orderly(s) && Enabled(s, step) && Guarded(s, step)
    ensures Orderly(Apply(s, step))
  {
    hide Flat;
    match step
    case LoadForPush(w, item) => SameReaders(s, Apply(s, step));
    case Push(w) => SameReaders(s, Apply(s, step)); PushOrderly(s, w);
    case LoadForRead(r) =>
    case Store(r) => StoreOrderly(s, r);
    case Swap(r) => FlatMore(s.returned, s.Queue(!s.current)); SwapOrderly(s, r);
  }

  lemma {:induction false} SameReaders<T>(s: State<T>, t: State<T>)
    requires t.readers == s.readers && t.current == s.current
    ensures Draining(t) == Draining(s)
  {
  }

  lemma {:induction false} PushOrderly<T>(s: State<T>, w: nat)
    requires Orderly(s) && Enabled(s, Push(w)) && Guarded(s, Push(w))
    ensures var t := Apply(s, Push(w));
            && (Draining(s) || t.Queue(!t.current) == [])
            && Flat(t.returned) + t.Queue(!t.current) + t.Queue(t.current) == t.pushed
  {
    hide Flat, Draining;
    var f, p, q, item := Flat(s.returned), s.Queue(!s.current), s.Queue(s.current), s.writers[w].1;
    if s.writers[w].0 == s.current {
      assert f + p + (q + [item]) == f + p + q + [item];
    } else {
      SameOnBothSides(q, item);
      assert f + (p + [item]) + q == f + p + ([item] + q);
      assert f + p + (q + [item]) == f + p + q + [item];
    }
  }

  lemma {:induction false} SameOnBothSides<T>(q: seq<T>, item: T)
    ensures AllAre(q, item) <==> [item] + q == q + [item]
    decreases |q|
  {
    if AllAre(q, item) { assert [item] + q == q + [item]; }
    if [item] + q == q + [item] {
      forall i | 0 <= i < |q| ensures q[i] == item { EqualToFirst(q, item, i); }
    }
  }

  lemma {:induction false} EqualToFirst<T>(q: seq<T>, item: T, i: nat)
    requires i < |q| && [item] + q == q + [item]
    ensures q[i] == item
    decreases i
  {
    assert ([item] + q)[i] == (q + [item])[i];
    if i > 0 { EqualToFirst(q, item, i - 1); }
  }

  lemma {:induction false} StoreOrderly<T>(s: State<T>, r: nat)
    requires Orderly(s) && Enabled(s, Store(r))
    ensures Orderly(Apply(s, Store(r)))
  {
    hide Flat;
    var t := Apply(s, Store(r));
    assert r in t.readers && t.readers[r].0 != t.current;
    if s.readers[r].0 == s.current {
      assert !Draining(s);
      assert Flat(s.returned) + [] + s.Queue(s.current) == Flat(s.returned) + s.Queue(s.current) + [];
    }
  }

  lemma {:induction false} SwapOrderly<T>(s: State<T>, r: nat)
    requires Orderly(s) && Enabled(s, Swap(r))
    requires Flat(s.returned + [s.Queue(!s.current)]) == Flat(s.returned) + s.Queue(!s.current)
    ensures Orderly(Apply(s, Swap(r)))
  {
    hide Flat;
    var t := Apply(s, Swap(r));
    assert s.readers[r].0 == !s.current;
    assert t.Queue(!t.current) == [];
    assert Flat(t.returned) + [] == Flat(t.returned);
  }

  lemma {:induction false} OrderlyKept<T>(s: State<T>)
    requires Orderly(s)
    ensures OrderKept(s)
  {
    hide Flat;
  }

  lemma {:induction false} RunOrderly<T>(s: State<T>, steps: seq<Step<T>>)
    requires Orderly(s) && IsGuardedRun(s, steps)
    ensures IsRun(s, steps) && Orderly(Run(s, steps))
    decreases |steps|
  {
    hide Orderly, Apply, Enabled, Guarded;
    if |steps| > 0 {
      StepOrderly(s, steps[0]);
      RunOrderly(Apply(s, steps[0]), steps[1..]);
    }
  }

  /** Over every run whose steps are guarded, however many threads overlap: what has been
      returned, what is about to be fetched and what is in the active buffer are the enqueued
      items in their order. */
  lemma {:induction false} GuardedInOrder<T>(steps: seq<Step<T>>)
    requires IsGuardedRun(Start<T>(), steps)
    ensures IsRun(Start<T>(), steps)
    ensures var s := Run(Start<T>(), steps);
            OrderKept(s) && Flat(s.returned) + s.Queue(!s.current) + s.Queue(s.current) == s.pushed
  {
    assert Orderly(Start<T>());
    RunOrderly(Start<T>(), steps);
    OrderlyKept(Run(Start<T>(), steps));
  }

  // -- the other half

  /** Guarded steps lead to a state whose batches are out of order. */
  ghost predicate CanLoseOrder<T(!new)>(s: State<T>) {
    exists steps :: IsGuardedRun(s, steps) && IsRun(s, steps) && !OrderKept(Run(s, steps))
  }

  lemma {:induction false} LoseNow<T(!new)>(s: State<T>)
    requires !OrderKept(s)
    ensures CanLoseOrder(s)
  {
    var none: seq<Step<T>> := [];
    assert IsGuardedRun(s, none) && IsRun(s, none) && Run(s, none) == s;
  }

  lemma {:induction false} LoseLater<T(!new)>(s: State<T>, step: Step<T>)
    requires Enabled(s, step) && Guarded(s, step) && CanLoseOrder(Apply(s, step))
    ensures CanLoseOrder(s)
  {
    hide Apply, Enabled, Guarded, OrderKept;
    var t := Apply(s, step);
    var steps :| IsGuardedRun(t, steps) && IsRun(t, steps) && !OrderKept(Run(t, steps));
    var all := [step] + steps;
    assert all[0] == step && all[1..] == steps;
    assert IsGuardedRun(s, all) && IsRun(s, all) && Run(s, all) == Run(t, steps);
  }

  /** A whole enqueue to the active buffer. */
  function Enqueued<T>(s: State<T>, item: T): State<T> {
    s.WithQueue(s.current, s.Queue(s.current) + [item]).(pushed := s.pushed + [item])
  }

  lemma {:induction false} LoseAfterEnqueue<T(!new)>(s: State<T>, w: nat, item: T)
    requires w !in s.writers && CanLoseOrder(Enqueued(s, item))
    ensures CanLoseOrder(s)
  {
    hide CanLoseOrder;
    var t := Apply(s, LoadForPush(w, item));
    assert t.writers - {w} == s.writers;
    assert Apply(t, Push(w)) == Enqueued(s, item);
    LoseLater(t, Push(w));
    LoseLater(s, LoadForPush(w, item));
  }

  /** Reader r fetches its buffer. */
  function Fetched<T>(s: State<T>, r: nat): State<T>
    requires r in s.readers
  {
    var index := s.readers[r].0;
    s.WithQueue(index, []).(current := if s.readers[r].1 then s.current else !index,
                            readers := s.readers - {r}, returned := s.returned + [s.Queue(index)])
  }

  lemma {:induction false} LoseAfterFetch<T(!new)>(s: State<T>, r: nat)
    requires r in s.readers && CanLoseOrder(Fetched(s, r))
    ensures CanLoseOrder(s)
  {
    hide CanLoseOrder;
    if s.readers[r].1 {
      assert Apply(s, Swap(r)) == Fetched(s, r);
      LoseLater(s, Swap(r));
    } else {
      var t := Apply(s, Store(r));
      assert t.readers - {r} == s.readers - {r};
      assert Apply(t, Swap(r)) == Fetched(s, r);
      LoseLater(t, Swap(r));
      LoseLater(s, Store(r));
    }
  }

  lemma {:induction false} LoseAfterRead<T(!new)>(s: State<T>)
    requires s.readers == map[] && CanLoseOrder(s.WithQueue(s.current, []).(current := !s.current, returned := s.returned + [s.Queue(s.current)]))
    ensures CanLoseOrder(s)
  {
    hide CanLoseOrder;
    var t := Apply(s, LoadForRead(0));
    assert t.readers - {0} == s.readers;
    LoseAfterFetch(t, 0);
    LoseLater(s, LoadForRead(0));
  }

  /** All reads of the inactive buffer fetch it one after the other: the first one gets all. */
  lemma {:induction false} LoseAfterAll<T(!new)>(s: State<T>)
    requires Draining(s) && forall r | r in s.readers :: s.readers[r].0 != s.current
    requires forall batches: seq<seq<T>> | Flat(batches) == Flat(s.returned) + s.Queue(!s.current) ::
               CanLoseOrder(s.WithQueue(!s.current, []).(readers := map[], returned := batches))
    ensures CanLoseOrder(s)
    decreases |s.readers|
  {
    hide CanLoseOrder, Flat;
    var r :| r in s.readers && s.readers[r].0 != s.current;
    var t := Fetched(s, r);
    FlatMore(s.returned, s.Queue(!s.current));
    assert t.current == s.current && t.Queue(!t.current) == [] && t.readers == s.readers - {r};
    if t.readers == map[] {
      assert t == s.WithQueue(!s.current, []).(readers := map[], returned := t.returned);
    } else {
      var q :| q in t.readers;
      assert q in s.readers && t.readers[q] == s.readers[q];
      assert Draining(t);
      assert |t.readers| < |s.readers| by { FewerReaders(s.readers, r); }
      forall batches: seq<seq<T>> | Flat(batches) == Flat(t.returned) + t.Queue(!t.current)
        ensures CanLoseOrder(t.WithQueue(!t.current, []).(readers := map[], returned := batches))
      {
        assert t.WithQueue(!t.current, []).(readers := map[], returned := batches)
               == s.WithQueue(!s.current, []).(readers := map[], returned := batches);
      }
      LoseAfterAll(t);
    }
    LoseAfterFetch(s, r);
  }

  lemma {:induction false} FewerReaders(readers: map<nat, (bool, bool)>, r: nat)
    requires r in readers
    ensures |readers - {r}| < |readers|
  {
    assert (readers - {r}).Keys == readers.Keys - {r};
    assert |(readers - {r}).Keys| == |readers - {r}|;
  }

  lemma {:induction false} FreshWriter(writers: set<nat>) returns (w: nat)
    ensures w !in writers && forall v | v in writers :: v < w
  {
    if writers == {} {
      w := 0;
    } else {
      var v :| v in writers;
      var u := FreshWriter(writers - {v});
      w := if u > v then u else v + 1;
      forall x | x in writers ensures x < w { assert x == v || x in writers - {v}; }
    }
  }

  lemma {:induction false} OutOfOrder<T>(s: State<T>, done: seq<T>, got: T, due: T, rest: seq<T>)
    requires Flat(s.returned) == done + [got] && s.pushed == done + [due] + rest && got != due
    ensures !OrderKept(s)
  {
    hide Flat;
    assert Flat(s.returned)[|done|] == got && s.pushed[|done|] == due;
  }

  /** A push to the inactive buffer that no read will fetch. */
  lemma {:induction false} StalePush<T(!new)>(s: State<T>, w: nat, other: T)
    requires Orderly(s) && Enabled(s, Push(w)) && s.writers[w].0 != s.current && !Draining(s) && other != s.writers[w].1
    ensures CanLoseOrder(Apply(s, Push(w)))
  {
    hide CanLoseOrder, Flat, OrderKept;
    var t, item, f, q := Apply(s, Push(w)), s.writers[w].1, Flat(s.returned), s.Queue(s.current);
    var u := Enqueued(t, other);
    assert u.pushed == f + q + [item] + [other] by { assert f + [] + q == f + q; }
    FlatMore(s.returned, q + [other]);
    assert u.Queue(u.current) == q + [other] && f + (q + [other]) == f + q + [other];
    if r :| r in s.readers {
      assert s.readers[r] == (s.current, false);
      var v := Fetched(u, r);
      OutOfOrder(v, f + q, other, item, [other]);
      LoseNow(v);
      LoseAfterFetch(u, r);
    } else {
      assert s.readers == map[];
      var v := u.WithQueue(u.current, []).(current := !u.current, returned := u.returned + [u.Queue(u.current)]);
      OutOfOrder(v, f + q, other, item, [other]);
      LoseNow(v);
      LoseAfterRead(u);
    }
    LoseAfterEnqueue(t, w, other);
  }

  /** A push to the inactive buffer behind which a read is, but another item before it in the
      active one. */
  lemma {:induction false} LatePush<T(!new)>(s: State<T>, w: nat)
    requires Orderly(s) && Enabled(s, Push(w)) && s.writers[w].0 != s.current && Draining(s)
    requires !AllAre(s.Queue(s.current), s.writers[w].1)
    ensures CanLoseOrder(Apply(s, Push(w)))
  {
    hide CanLoseOrder, Flat, OrderKept, AllAre;
    var t, item := Apply(s, Push(w)), s.writers[w].1;
    var f, p, q := Flat(s.returned), s.Queue(!s.current), s.Queue(s.current);
    SameReaders(s, t);
    forall batches: seq<seq<T>> | Flat(batches) == Flat(t.returned) + t.Queue(!t.current)
      ensures CanLoseOrder(t.WithQueue(!t.current, []).(readers := map[], returned := batches))
    {
      var u := t.WithQueue(!t.current, []).(readers := map[], returned := batches);
      var v := u.WithQueue(u.current, []).(current := !u.current, returned := batches + [q]);
      FlatMore(batches, q);
      SameOnBothSides(q, item);
      assert Flat(v.returned) == f + (p + [item]) + q;
      BothSidesLater(f, p, q, item);
      assert !OrderKept(v) by { NotBehind(v, f + (p + [item]) + q, f + p + q + [item]); }
      LoseNow(v);
      LoseAfterRead(u);
    }
    LoseAfterAll(t);
  }

  lemma {:induction false} BothSidesLater<T>(f: seq<T>, p: seq<T>, q: seq<T>, item: T)
    requires [item] + q != q + [item]
    ensures f + (p + [item]) + q != f + p + q + [item]
  {
    assert f + (p + [item]) + q == (f + p) + ([item] + q);
    assert f + p + q + [item] == (f + p) + (q + [item]);
    assert ((f + p) + ([item] + q))[|f + p|..] == [item] + q;
    assert ((f + p) + (q + [item]))[|f + p|..] == q + [item];
  }

  lemma {:induction false} NotBehind<T>(s: State<T>, flat: seq<T>, pushed: seq<T>)
    requires Flat(s.returned) == flat && s.pushed == pushed && |flat| == |pushed| && flat != pushed
    ensures !OrderKept(s)
  {
    hide Flat;
    assert pushed[..|pushed|] == pushed;
  }

  lemma {:induction false} OvertakesFirst<T>(s: State<T>, batches: seq<seq<T>>, p: seq<T>, q: seq<T>, x: T, z: T, first: T)
    requires first == (if |q| > 0 then q[0] else x) && z != first
    requires s.returned == batches + [p + [z]] && s.pushed == Flat(batches) + p + q + [x] + [z]
    ensures !OrderKept(s)
  {
    hide Flat, OrderKept;
    var f, rest := Flat(batches), (q + [x])[1..] + [z];
    FlatMore(batches, p + [z]);
    assert f + (p + [z]) == f + p + [z];
    assert q + [x] == [first] + (q + [x])[1..];
    assert f + p + q + [x] + [z] == f + p + [first] + rest;
    OutOfOrder(s, f + p, z, first, rest);
  }

  /** A read that begins while another one has switched the buffers. */
  lemma {:induction false} EarlyRead<T(!new)>(s: State<T>, r: nat, x: T, y: T)
    requires Orderly(s) && Enabled(s, LoadForRead(r)) && Draining(s) && x != y
    ensures CanLoseOrder(Apply(s, LoadForRead(r)))
  {
    hide CanLoseOrder, Flat, OrderKept;
    var t := Apply(s, LoadForRead(r));
    var w := FreshWriter(s.writers.Keys);
    var f, p, q := Flat(s.returned), s.Queue(!s.current), s.Queue(s.current);
    var first := if |q| > 0 then q[0] else x;
    var z := if first == x then y else x;
    var u := Enqueued(t, x);
    var v := Apply(u, Store(r));
    var n := Enqueued(v, z);
    assert n.Queue(!s.current) == p + [z];
    var r1 :| r1 in s.readers && s.readers[r1].0 != s.current;
    var last := Fetched(n, r1);
    OvertakesFirst(last, s.returned, p, q, x, z, first);
    LoseNow(last);
    LoseAfterFetch(n, r1);
    LoseAfterEnqueue(v, w, z);
    LoseLater(u, Store(r));
    LoseAfterEnqueue(t, w, x);
  }

  /** For every step that a thread can take in an orderly state: no guarded steps behind it can
      put the batches out of order if and only if the step itself is guarded. */
  lemma {:induction false} OrderExactly<T(!new)>(s: State<T>, step: Step<T>, x: T, y: T)
    requires Orderly(s) && Enabled(s, step) && x != y
    ensures Guarded(s, step) <==> !CanLoseOrder(Apply(s, step))
  {
    hide Orderly, OrderKept, Draining, Apply, AllAre, CanLoseOrder;
    if Guarded(s, step) {
      StepOrderly(s, step);
      OrderNotLost(Apply(s, step));
    } else {
      UnguardedLoses(s, step, x, y);
    }
  }

  lemma {:induction false} OrderNotLost<T(!new)>(s: State<T>)
    requires Orderly(s)
    ensures !CanLoseOrder(s)
  {
    hide Orderly, OrderKept;
    if CanLoseOrder(s) {
      var steps :| IsGuardedRun(s, steps) && IsRun(s, steps) && !OrderKept(Run(s, steps));
      RunOrderly(s, steps);
      OrderlyKept(Run(s, steps));
    }
  }

  lemma {:induction false} UnguardedLoses<T(!new)>(s: State<T>, step: Step<T>, x: T, y: T)
    requires Orderly(s) && Enabled(s, step) && !Guarded(s, step) && x != y
    ensures CanLoseOrder(Apply(s, step))
  {
    hide Orderly, Draining, Apply, AllAre, CanLoseOrder;
    if step.Push? {
      var w := step.writer;
      if Draining(s) { LatePush(s, w); } else { StalePush(s, w, if s.writers[w].1 == x then y else x); }
    } else {
      assert step.LoadForRead?;
      EarlyRead(s, step.reader, x, y);
    }
  }

  /** A writer has loaded index 0, a whole read passes, then the writer pushes. */
  function Overtaken(): seq<Step<int>> {
    [LoadForPush(1, 10)] + ReadSteps() + [Push(1)]
  }

  lemma {:induction false} OvertakenRun()
    ensures IsRun(Start(), Overtaken())
    ensures Run(Start(), Overtaken()) == State([10], [], true, map[], map[], [10], [[]])
  {
    var s1 := Apply(Start(), LoadForPush(1, 10));
    assert IsRun(Start(), [LoadForPush(1, 10)]) && Run(Start(), [LoadForPush(1, 10)]) == s1;
    RunOfThree(s1, LoadForRead(0), Store(0), Swap(0));
    var s2 := Run(s1, ReadSteps());
    assert s2 == State([], [], true, map[1 := (false, 10)], map[], [], [[]]);
    RunOfBoth(Start(), [LoadForPush(1, 10)], ReadSteps());
    assert IsRun(s2, [Push(1)]) && Run(s2, [Push(1)]) == Apply(s2, Push(1));
    RunOfBoth(Start(), [LoadForPush(1, 10)] + ReadSteps(), [Push(1)]);
  }

  lemma {:induction false} LaterRun(s: State<int>)
    requires s == State([10], [], true, map[], map[], [10], [[]])
    ensures IsRun(s, EnqueueSteps(20) + ReadSteps() + ReadSteps())
    ensures var t := Run(s, EnqueueSteps(20) + ReadSteps() + ReadSteps());
            t.pushed == [10, 20] && t.returned == [[], [20], [10]]
  {
    RunOfTwo(s, LoadForPush(0, 20), Push(0));
    var s1 := Run(s, EnqueueSteps(20));
    assert s1 == State([10], [20], true, map[], map[], [10, 20], [[]]);
    RunOfThree(s1, LoadForRead(0), Store(0), Swap(0));
    var s2 := Run(s1, ReadSteps());
    assert s2 == State([10], [], false, map[], map[], [10, 20], [[], [20]]);
    RunOfThree(s2, LoadForRead(0), Store(0), Swap(0));
    RunOfBoth(s, EnqueueSteps(20), ReadSteps());
    RunOfBoth(s, EnqueueSteps(20) + ReadSteps(), ReadSteps());
  }

  /** With overlap the order can be lost: a writer that a read has overtaken leaves its item
      in the inactive buffer, and a later item is returned first. */
  lemma {:induction false} OverlapReorders()
    ensures var steps := Overtaken() + (EnqueueSteps(20) + ReadSteps() + ReadSteps());
            && IsRun(Start(), steps)
            && Run(Start(), steps).pushed == [10, 20]
            && Flat(Run(Start(), steps).returned) == [20, 10]
  {
    OvertakenRun();
    LaterRun(Run(Start(), Overtaken()));
    RunOfBoth(Start(), Overtaken(), EnqueueSteps(20) + ReadSteps() + ReadSteps());
    var empty: seq<seq<int>> := [];
    FlatMore(empty, []);
    FlatMore([[]], [20]);
    FlatMore([[], [20]], [10]);
    assert [[]] + [[20]] == [[], [20]] && [[], [20]] + [[10]] == [[], [20], [10]] && empty + [[]] == [[]];
  }

  // ---- the class --------------------------------------------------------------------------------

  /** The queue as one thread sees it that is alone. */
  class Queue<T> {
    var queues: array<seq<T>>
    var current: nat

    ghost var enqueued: seq<T>
    ghost var returned: seq<T>

    ghost predicate Valid()
      reads this, queues
    {
      && queues.Length == 2 && current < 2
      && queues[1 - current] == []
      && returned + queues[current] == enqueued
    }

    constructor ()
      ensures Valid() && fresh(queues) && enqueued == [] && returned == []
    {
      queues := new seq<T>[2](_ => []);
      current := 0;
      enqueued, returned := [], [];
    }

    method Enqueue(item: T)
      requires Valid()
      modifies this, queues
      ensures Valid() && queues == old(queues) && current == old(current)
      ensures queues[current] == old(queues[current]) + [item]
      ensures enqueued == old(enqueued) + [item] && returned == old(returned)
    {
      queues[current] := queues[current] + [item];
      enqueued := enqueued + [item];
      assert returned + queues[current] == enqueued;
    }

    /** The batches returned, one after the other, are the enqueued items in their order. */
    method Read() returns (buffer: seq<T>)
      requires Valid()
      modifies this, queues
      ensures Valid() && queues == old(queues) && buffer == old(queues[current])
      ensures enqueued == old(enqueued) && returned == old(returned) + buffer
      ensures queues[current] == [] && returned == enqueued
    {
      var currentQueue := current;
      var nextQueue := (currentQueue + 1) % 2;
      current := nextQueue;
      buffer := queues[currentQueue];
      queues[currentQueue] := [];
      returned := returned + buffer;
    }

    method Size() returns (n: nat)
      requires Valid()
      ensures n == |enqueued| - |returned|
    {
      n := |queues[0]| + |queues[1]|;
    }
  }
}
