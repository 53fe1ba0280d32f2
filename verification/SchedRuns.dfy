/** Whole runs of the scheduler: ticks and new threads in any order. */
module SchedRuns {
  import opened Runs
  import opened SchedSpec

  // ---------------------------------------------------------------- one tick, place by place

  /** Index of the thread a tick picks: the scan's choice, or the last thread when there is none. */
  function Chosen(q: seq<Thread>): (c: nat)
    requires |q| > 0
    ensures c < |q|
  {
    match Choice(q, |q|).index
    case Some(c) => c
    case None => |q| - 1
  }

  /** Where thread j stands after thread c has moved to the back. */
  function Place(c: nat, j: nat): nat { if j < c then j else if j > c then j - 1 else j }

  /** Where the thread now at place i stood before. */
  function Origin(c: nat, i: nat): nat { if i < c then i else i + 1 }

  /** What a tick makes of a thread it does not pick. */
  function Passed(t: Thread, running: nat): Thread {
    if t.tid == running && running != DUMMY.tid then Age(t).(state := Ready) else Age(t)
  }

  /** What a tick makes of the thread it picks. */
  function Picked(t: Thread): Thread { t.(active := Inc16(t.priority), state := Running) }

  /** A pick, read place by place. */
  lemma PickByPlace(q: seq<Thread>, r: seq<Thread>)
    requires |q| > 0 && |r| == |q| && Found(q)
    requires forall i | 0 <= i < |q| - 1 :: r[i] == Aged(q)[Origin(Chosen(q), i)]
    requires r[|q| - 1] == Picked(Aged(q)[Chosen(q)])
    ensures r == Pick(q)
  {
  }

  lemma PickOfNone(q: seq<Thread>)
    requires |q| > 0 && !Found(q)
    ensures Chosen(q) == |q| - 1
    ensures Pick(q) == Aged(q)[|q| - 1 := Aged(q)[|q| - 1].(active := Inc16(q[|q| - 1].priority))]
  {
  }

  lemma TickAt(s: Sched, i: nat)
    requires i < |s.queue|
    ensures var c := Chosen(s.queue);
            Tick(s).queue[i] == if i == |s.queue| - 1 then Picked(s.queue[c])
                                else Passed(s.queue[Origin(c, i)], s.running)
  {
    var q := s.queue;
    var c := Chosen(q);
    var aged := Aged(q);
    assert i < |q| - 1 ==> Pick(q)[i] == aged[Origin(c, i)];
  }

  /** A thread that is not picked, seen where it stands afterwards. */
  lemma PassedAt(s: Sched, k: nat)
    requires k < |s.queue| && k != Chosen(s.queue)
    ensures var k' := Place(Chosen(s.queue), k);
            && k' <= k && k' < |s.queue| - 1 && (k' == k <==> k < Chosen(s.queue))
            && Tick(s).queue[k'] == Passed(s.queue[k], s.running)
  {
    TickAt(s, Place(Chosen(s.queue), k));
  }

  lemma TickRunning(s: Sched)
    requires |s.queue| > 0
    ensures Tick(s).running == s.queue[Chosen(s.queue)].tid
    ensures |Tick(s).queue| == |s.queue| && Tick(s).count == s.count
  {
  }

  function Tids(q: seq<Thread>): (r: seq<nat>)
    ensures |r| == |q|
  {
    seq(|q|, i requires 0 <= i < |q| => q[i].tid)
  }

  /** A tick keeps the same threads: the one picked goes last, the others keep their order. */
  lemma TickOrder(s: Sched)
    requires |s.queue| > 0
    ensures var c, ids := Chosen(s.queue), Tids(s.queue);
            Tids(Tick(s).queue) == ids[..c] + ids[c + 1..] + [ids[c]]
  {
    forall i: nat | i < |s.queue|
      ensures var c := Chosen(s.queue);
              Tick(s).queue[i].tid == s.queue[if i == |s.queue| - 1 then c else Origin(c, i)].tid
    {
      TickAt(s, i);
    }
  }

  // ---------------------------------------------------------------- the invariant

  /** The dummy is as it was made; every other thread is running or ready, and its active
      priority never exceeds its priority by more than one, which fits sixteen bits. */
  predicate ThreadOk(t: Thread, running: nat) {
    if t.tid == DUMMY.tid then t == DUMMY
    else
      && t.priority < UINT16_MAX && t.active <= t.priority + 1
      && t.state == (if t.tid == running then Running else Ready)
  }

  /** A thread that has not run since it was added. */
  predicate NotYetRun(t: Thread) { t.tid != DUMMY.tid && t.active <= t.priority }

  ghost predicate OkAt(s: Sched, i: int) {
    0 <= i < |s.queue| ==> ThreadOk(s.queue[i], s.running)
  }

  ghost predicate DistinctAt(s: Sched, i: int, j: int) {
    0 <= i < j < |s.queue| ==> s.queue[i].tid != s.queue[j].tid
  }

  /** The running thread stands at r and only threads that have not run yet stand behind it. */
  ghost predicate RunsAt(s: Sched, r: int) {
    && 0 <= r < |s.queue| && s.queue[r].tid == s.running
    && forall j | r < j < |s.queue| :: NotYetRun(s.queue[j])
  }

  ghost predicate Inv(s: Sched) {
    && |s.queue| >= 2 && s.count == |s.queue| - 1 && DUMMY in s.queue
    && (forall i :: OkAt(s, i))
    && (forall i, j :: DistinctAt(s, i, j))
    && (exists r :: RunsAt(s, r))
    && (s.running == DUMMY.tid ==> forall i | 0 <= i < |s.queue| :: s.queue[i] == DUMMY || NotYetRun(s.queue[i]))
  }

  lemma InitInv(t: Thread)
    requires t.tid != DUMMY.tid && t.active == t.priority < UINT16_MAX
    ensures Inv(Init(t))
  {
    var s := Init(t);
    assert s.queue[1] == DUMMY;
    assert RunsAt(s, 1);
  }

  /** Without a thread to pick, the running thread is the last one, and it is not the dummy. */
  lemma NoneMeansRunningLast(s: Sched)
    requires Inv(s) && Choice(s.queue, |s.queue|).index == None
    ensures s.queue[|s.queue| - 1].tid == s.running != DUMMY.tid
  {
    var q := s.queue;
    ChoiceExists(q, |q|);
    var r :| RunsAt(s, r);
    if s.running == DUMMY.tid {
      assert DistinctAt(s, 0, 1);
      var i := if q[0] == DUMMY then 1 else 0;
      assert OkAt(s, 0) && OkAt(s, 1);
      assert NotYetRun(q[i]) && Eligible(q[i]);
    }
    if r < |q| - 1 {
      assert OkAt(s, |q| - 1) && DistinctAt(s, r, |q| - 1);
      assert NotYetRun(q[|q| - 1]);
      assert Eligible(q[|q| - 1]);
    }
  }

  /** The thread a tick picks is never the dummy. */
  lemma ChosenIsThread(s: Sched)
    requires Inv(s)
    ensures s.queue[Chosen(s.queue)].tid != DUMMY.tid
    ensures Choice(s.queue, |s.queue|).index.Some? ==> s.queue[Chosen(s.queue)].tid != s.running
  {
    assert OkAt(s, Chosen(s.queue));
    if Choice(s.queue, |s.queue|).index == None {
      NoneMeansRunningLast(s);
    }
  }

  lemma OriginIsOther(c: nat, i: nat, n: nat)
    requires c < n && i < n - 1
    ensures Origin(c, i) < n && Origin(c, i) != c && Place(c, Origin(c, i)) == i
  {
  }

  lemma TickOk(s: Sched, i: nat)
    requires Inv(s) && i < |s.queue|
    ensures ThreadOk(Tick(s).queue[i], Tick(s).running)
  {
    var q, n, c := s.queue, |s.queue|, Chosen(s.queue);
    TickRunning(s);
    TickAt(s, i);
    ChosenIsThread(s);
    if i < n - 1 {
      OriginIsOther(c, i, n);
      var j := Origin(c, i);
      assert OkAt(s, j) && DistinctAt(s, j, c) && DistinctAt(s, c, j);
      if Choice(q, n).index == None {
        NoneMeansRunningLast(s);
      }
    } else {
      assert OkAt(s, c);
    }
  }

  lemma TickDummy(s: Sched)
    requires Inv(s)
    ensures DUMMY in Tick(s).queue
  {
    var c := Chosen(s.queue);
    var d :| 0 <= d < |s.queue| && s.queue[d] == DUMMY;
    ChosenIsThread(s);
    PassedAt(s, d);
    assert Tick(s).queue[Place(c, d)] == DUMMY;
  }

  /** A tick keeps the invariant; afterwards the running thread is the last one. */
  lemma TickKeeps(s: Sched)
    requires Inv(s)
    ensures Inv(Tick(s)) && Tick(s).running != DUMMY.tid && RunsAt(Tick(s), |s.queue| - 1)
  {
    var s' := Tick(s);
    TickRunning(s);
    ChosenIsThread(s);
    TickAt(s, |s.queue| - 1);
    TickDummy(s);
    forall i
      ensures OkAt(s', i)
    {
      if 0 <= i < |s.queue| {
        TickOk(s, i);
      }
    }
    forall i, j
      ensures DistinctAt(s', i, j)
    {
      TickDistinct(s, i, j);
    }
    assert RunsAt(s', |s.queue| - 1);
  }

  lemma TickDistinct(s: Sched, i: int, j: int)
    requires |s.queue| > 0 && forall i, j :: DistinctAt(s, i, j)
    ensures DistinctAt(Tick(s), i, j)
  {
    if 0 <= i < j < |s.queue| {
      var c := Chosen(s.queue);
      TickAt(s, i);
      TickAt(s, j);
      var i0 := Origin(c, i);
      var j0 := if j == |s.queue| - 1 then c else Origin(c, j);
      assert DistinctAt(s, i0, j0) && DistinctAt(s, j0, i0);
    }
  }

  // ---------------------------------------------------------------- runs

  /** A timer tick, or a new thread made with this id and priority and added. */
  datatype Op = Timer | Spawn(tid: nat, priority: nat)

  /** A new thread: `create_thread` refuses the priority that would overflow, the caller makes
      the thread ready and adds it. */
  function Step(s: Sched, op: Op): Sched
    requires |s.queue| > 0
  {
    match op
    case Timer => Tick(s)
    case Spawn(tid, p) => if p >= UINT16_MAX then s else Add(s, Thread(tid, Ready, p, p))
  }

  /** Thread ids come from a counter: a new one is not in the queue, and is not the dummy's. */
  ghost predicate Fresh(s: Sched, op: Op) {
    op.Spawn? ==> op.tid != DUMMY.tid && forall i | 0 <= i < |s.queue| :: s.queue[i].tid != op.tid
  }

  /** All ids in a run are new when they are used. */
  ghost predicate FreshRun(s: Sched, ops: seq<Op>)
    decreases |ops|
  {
    |ops| > 0 ==> |s.queue| > 0 && Fresh(s, ops[0]) && FreshRun(Step(s, ops[0]), ops[1..])
  }

  function Run(s: Sched, ops: seq<Op>): (s': Sched)
    requires |s.queue| > 0
    ensures |s'.queue| > 0
    decreases |ops|
  {
    if |ops| == 0 then s else Run(Step(s, ops[0]), ops[1..])
  }

  /** A new thread joins at the end, ready, with its whole priority to wait for; only the priority
      that would overflow is refused. */
  lemma SpawnJoins(s: Sched, tid: nat, p: nat)
    requires |s.queue| > 0
    ensures Step(s, Spawn(tid, p)).running == s.running
    ensures if p >= 65535 then Step(s, Spawn(tid, p)) == s
            else Step(s, Spawn(tid, p)).queue == s.queue + [Thread(tid, Ready, p, p)]
                 && Step(s, Spawn(tid, p)).count == s.count + 1
  {
  }

  lemma StepKeeps(s: Sched, op: Op)
    requires Inv(s) && Fresh(s, op)
    ensures Inv(Step(s, op))
  {
    if op.Timer? {
      TickKeeps(s);
    } else if op.priority < UINT16_MAX {
      var s' := Step(s, op);
      forall i
        ensures OkAt(s', i)
      {
        assert OkAt(s, i);
        var r :| RunsAt(s, r);
        assert OkAt(s, r);
      }
      forall i, j
        ensures DistinctAt(s', i, j)
      {
        assert DistinctAt(s, i, j);
      }
      var r :| RunsAt(s, r);
      assert RunsAt(s', r);
    }
  }

  /** Every state of every run satisfies the invariant. */
  lemma {:induction false} RunKeeps(s: Sched, ops: seq<Op>)
    requires Inv(s) && FreshRun(s, ops)
    ensures Inv(Run(s, ops))
    decreases |ops|
  {
    if |ops| > 0 {
      StepKeeps(s, ops[0]);
      RunKeeps(Step(s, ops[0]), ops[1..]);
    }
  }

  /** Safety of any run from boot: once a tick has happened exactly one thread runs, it is the
      one last switched to and never the dummy, and the sixteen-bit increment never wraps. */
  lemma RunSafe(t: Thread, ops: seq<Op>, i: nat)
    requires t.tid != DUMMY.tid && t.active == t.priority < UINT16_MAX
    requires FreshRun(Init(t), ops) && i < |Run(Init(t), ops).queue|
    ensures var s := Run(Init(t), ops); var u := s.queue[i];
            && s.count == |s.queue| - 1
            && (u.state == Running <==> u.tid == s.running && s.running != DUMMY.tid)
            && (u.tid == DUMMY.tid ==> u.state == Denied)
            && (u.tid != DUMMY.tid ==> Inc16(u.priority) == u.priority + 1 && u.active <= u.priority + 1 <= 65535)
  {
    InitInv(t);
    RunKeeps(Init(t), ops);
    assert OkAt(Run(Init(t), ops), i);
  }

  // ---------------------------------------------------------------- the picks of a run

  /** The thread a tick picks is within one of the least active priority, and every other ready
      thread ends exactly one lower, or at zero. */
  lemma PickQuality(s: Sched, j: nat)
    requires Inv(s) && j < |s.queue| && s.queue[j].state == Ready
    requires exists i :: 0 <= i < |s.queue| && Eligible(s.queue[i])
    ensures var c := Chosen(s.queue);
            && Eligible(s.queue[c]) && Tick(s).running == s.queue[c].tid
            && s.queue[c].active <= s.queue[j].active + 1
            && (j < c ==> s.queue[j].active > s.queue[c].active)
            && (j != c ==> Tick(s).queue[Place(c, j)] ==
                           s.queue[j].(active := if s.queue[j].active == 0 then 0 else s.queue[j].active - 1))
  {
    var q, c := s.queue, Chosen(s.queue);
    ChoiceExists(q, |q|);
    NearlyLeast(q, j);
    if j < c {
      AheadWorse(q, |q|, j);
    }
    if j != c {
      PassedAt(s, j);
      assert OkAt(s, j);
    }
  }

  /** Thread z is the first ready one with active priority 0. */
  predicate FirstZero(q: seq<Thread>, z: nat) {
    && z < |q| && q[z].state == Ready && q[z].active == 0
    && forall j | 0 <= j < z && q[j].state == Ready :: q[j].active > 0
  }

  /** The first ready thread with active priority 0 is picked exactly when the scan gets there with
      a priority to beat above 0, that is, not standing at a thread with active priority 1. */
  lemma FirstZeroIff(q: seq<Thread>, z: nat)
    requires FirstZero(q, z)
    ensures Chosen(q) == z <==> Choice(q, z).threshold > 0
    ensures Choice(q, z).threshold == 0 <==> Choice(q, z).index.Some? && q[Choice(q, z).index.value].active == 1
  {
    NothingBeatsZero(q, z + 1, |q|);
    if Choice(q, z).threshold == 0 {
      assert Choice(q, z).index.Some?;
    }
  }

  /** A priority to beat of 0 stays, and so does the choice. */
  lemma {:induction false} NothingBeatsZero(q: seq<Thread>, n: nat, k: nat)
    requires n <= k <= |q|
    ensures Choice(q, n).threshold == 0 ==> Choice(q, k) == Choice(q, n)
    decreases k
  {
    if n < k {
      NothingBeatsZero(q, n, k - 1);
    }
  }

  /** A queue where it is passed over: the thread ahead has active priority 1 and is picked. */
  lemma FirstZeroPassedOver()
    ensures var q := [Thread(1, Ready, 5, 1), Thread(2, Ready, 5, 0)]; FirstZero(q, 1) && Chosen(q) == 0
  {
    var q := [Thread(1, Ready, 5, 1), Thread(2, Ready, 5, 0)];
    assert Choice(q, 1) == Best(Some(0), 0);
    FirstZeroIff(q, 1);
    NothingBeatsZero(q, 1, 2);
  }

  /** The thread switched to stands last and waits its full priority plus one before it can be
      least again; threads that are not ready are not aged. */
  lemma TurnTaken(s: Sched, j: nat)
    requires Inv(s) && j < |s.queue|
    ensures var c := Chosen(s.queue); var u := Tick(s).queue[|s.queue| - 1];
            && u.tid == s.queue[c].tid == Tick(s).running && u.priority == s.queue[c].priority
            && u.state == Running && u.active == u.priority + 1
            && (j != c && s.queue[j].state != Ready ==> Tick(s).queue[Place(c, j)].active == s.queue[j].active)
  {
    hide Tick, Chosen, Choice, Place;
    TickRunning(s);
    TickAt(s, |s.queue| - 1);
    ChosenIsThread(s);
    assert OkAt(s, Chosen(s.queue));
    if j != Chosen(s.queue) {
      PassedAt(s, j);
    }
  }

  /** A tick gives the running thread another turn exactly when no ready thread is eligible. */
  lemma TwoTurnsIff(s: Sched)
    requires Inv(s) && s.running != DUMMY.tid
    ensures Tick(s).running == s.running <==> !exists i :: 0 <= i < |s.queue| && Eligible(s.queue[i])
  {
    ChoiceExists(s.queue, |s.queue|);
    ChosenIsThread(s);
    if Choice(s.queue, |s.queue|).index == None {
      NoneMeansRunningLast(s);
    }
  }

  // ---------------------------------------------------------------- no starvation

  function Ticks(ops: seq<Op>): nat {
    if |ops| == 0 then 0 else (if ops[0].Timer? then 1 else 0) + Ticks(ops[1..])
  }

  /** No tick of the run switches to thread `tid`. */
  predicate NeverPicked(s: Sched, ops: seq<Op>, tid: nat)
    requires |s.queue| > 0
    decreases |ops|
  {
    |ops| > 0 ==>
      && (ops[0].Timer? ==> Tick(s).running != tid)
      && NeverPicked(Step(s, ops[0]), ops[1..], tid)
  }

  /** A ready thread's distance from its turn: its active priority and the threads ahead. */
  function Distance(s: Sched, k: nat): nat
    requires k < |s.queue|
  {
    s.queue[k].active + k
  }

  /** A ready thread with active priority 0 is passed over only for one ahead of it. */
  lemma ZeroYieldsAhead(s: Sched, k: nat)
    requires k < |s.queue| && s.queue[k].state == Ready && s.queue[k].active == 0
    ensures Chosen(s.queue) <= k
  {
    var q := s.queue;
    ChoiceExists(q, |q|);
    assert Eligible(q[k]);
    if Chosen(q) > k {
      AheadWorse(q, |q|, k);
    }
  }

  /** A tick that passes over a ready thread brings it strictly closer to its turn. */
  lemma PassedIsCloser(s: Sched, k: nat)
    requires Inv(s) && k < |s.queue| && s.queue[k].state == Ready && Chosen(s.queue) != k
    ensures var k' := Place(Chosen(s.queue), k); var q' := Tick(s).queue;
            && k' < |q'| - 1 && q'[k'].tid == s.queue[k].tid && q'[k'].state == Ready
            && Distance(Tick(s), k') < Distance(s, k)
  {
    PassedAt(s, k);
    if s.queue[k].active == 0 {
      ZeroYieldsAhead(s, k);
    }
  }

  /** A ready thread with active priority a and k threads ahead of it is switched to within
      a + k + 1 ticks, whatever threads are added meanwhile. */
  lemma {:induction false} NoStarvation(s: Sched, ops: seq<Op>, k: nat)
    requires Inv(s) && FreshRun(s, ops) && k < |s.queue| && s.queue[k].state == Ready
    requires NeverPicked(s, ops, s.queue[k].tid)
    ensures Ticks(ops) <= Distance(s, k)
    decreases |ops|
  {
    if |ops| > 0 {
      StepKeeps(s, ops[0]);
      if ops[0].Timer? {
        TickRunning(s);
        PassedIsCloser(s, k);
        NoStarvation(Tick(s), ops[1..], Place(Chosen(s.queue), k));
      } else {
        NoStarvation(Step(s, ops[0]), ops[1..], k);
      }
    }
  }

  /** Operation i of the run is a tick that switches to this thread. */
  predicate PickedAt(s: Sched, ops: seq<Op>, tid: nat, i: nat)
    requires |s.queue| > 0
  {
    i < |ops| && ops[i].Timer? && Tick(Run(s, ops[..i])).running == tid
  }

  lemma {:induction false} NeverPickedIff(s: Sched, ops: seq<Op>, tid: nat)
    requires |s.queue| > 0
    ensures NeverPicked(s, ops, tid) <==> forall i: nat :: !PickedAt(s, ops, tid, i)
    decreases |ops|
  {
    if |ops| > 0 {
      var s', rest := Step(s, ops[0]), ops[1..];
      NeverPickedIff(s', rest, tid);
      assert PickedAt(s, ops, tid, 0) <==> ops[0].Timer? && Tick(s).running == tid by {
        assert ops[..0] == [];
      }
      forall i: nat
        ensures PickedAt(s', rest, tid, i) <==> PickedAt(s, ops, tid, i + 1)
      {
        PickedLater(s, ops, tid, i);
      }
      forall i: nat
        ensures PickedAt(s, ops, tid, i) ==> i == 0 || PickedAt(s', rest, tid, i - 1)
      {
        if i > 0 {
          PickedLater(s, ops, tid, i - 1);
        }
      }
    }
  }

  lemma PickedLater(s: Sched, ops: seq<Op>, tid: nat, i: nat)
    requires |s.queue| > 0 && |ops| > 0
    ensures PickedAt(s, ops, tid, i + 1) <==> PickedAt(Step(s, ops[0]), ops[1..], tid, i)
  {
    if i + 1 < |ops| {
      assert ops[..i + 1][0] == ops[0] && ops[..i + 1][1..] == ops[1..][..i];
    }
  }

  /** In any run with more than a + k ticks some tick switches to the thread. */
  lemma TurnComes(s: Sched, ops: seq<Op>, k: nat)
    requires Inv(s) && FreshRun(s, ops) && k < |s.queue| && s.queue[k].state == Ready
    requires Ticks(ops) > s.queue[k].active + k
    ensures exists i: nat :: PickedAt(s, ops, s.queue[k].tid, i)
  {
    NeverPickedIff(s, ops, s.queue[k].tid);
    if NeverPicked(s, ops, s.queue[k].tid) {
      NoStarvation(s, ops, k);
    }
  }

  /** Ids from a counter make any run's threads fresh: all different, and none in the queue yet. */
  lemma {:induction false} CounterIsFresh(s: Sched, ops: seq<Op>)
    requires |s.queue| > 0
    requires forall i | 0 <= i < |ops| && ops[i].Spawn? :: ops[i].tid != DUMMY.tid && ops[i].tid !in Tids(s.queue)
    requires forall i, j | 0 <= i < j < |ops| && ops[i].Spawn? && ops[j].Spawn? :: ops[i].tid != ops[j].tid
    ensures FreshRun(s, ops)
    decreases |ops|
  {
    if |ops| > 0 {
      assert Fresh(s, ops[0]) by {
        assert forall i | 0 <= i < |s.queue| :: s.queue[i].tid == Tids(s.queue)[i];
      }
      var s', rest := Step(s, ops[0]), ops[1..];
      StepTids(s, ops[0]);
      forall i | 0 <= i < |rest| && rest[i].Spawn?
        ensures rest[i].tid != DUMMY.tid && rest[i].tid !in Tids(s'.queue)
      {
        assert rest[i] == ops[i + 1];
      }
      CounterIsFresh(s', rest);
    }
  }

  /** A step adds at most the new thread's id to those in the queue. */
  lemma StepTids(s: Sched, op: Op)
    requires |s.queue| > 0
    ensures |Step(s, op).queue| > 0
    ensures forall t | t in Tids(Step(s, op).queue) :: t in Tids(s.queue) || (op.Spawn? && t == op.tid)
  {
    match op
    case Timer => TickOrder(s);
    case Spawn(tid, p) =>
      if p < UINT16_MAX {
        assert Tids(Step(s, op).queue) == Tids(s.queue) + [tid];
      }
  }

  /** The running thread, when another one is picked, becomes ready where it stands or one
      place ahead. */
  lemma RunningPassed(s: Sched, k: nat)
    requires Inv(s) && k < |s.queue| && s.queue[k].tid == s.running != DUMMY.tid
    requires Tick(s).running != s.running
    ensures var k' := Place(Chosen(s.queue), k); var q' := Tick(s).queue;
            && k' <= k && k' < |q'| && q'[k'].tid == s.running && q'[k'].state == Ready
            && q'[k'].active <= s.queue[k].priority + 1
  {
    TickRunning(s);
    PassedAt(s, k);
    assert OkAt(s, k);
  }

  /** Every thread, the one running included, gets its next turn within its priority plus its
      place in the queue plus three ticks. */
  lemma {:induction false} EveryThreadRuns(s: Sched, ops: seq<Op>, k: nat)
    requires Inv(s) && FreshRun(s, ops) && k < |s.queue| && s.queue[k].tid != DUMMY.tid
    requires NeverPicked(s, ops, s.queue[k].tid)
    ensures Ticks(ops) <= s.queue[k].priority + k + 2
    decreases |ops|
  {
    assert OkAt(s, k);
    if s.queue[k].state == Ready {
      NoStarvation(s, ops, k);
    } else if |ops| > 0 && ops[0].Timer? {
      TickKeeps(s);
      RunningPassed(s, k);
      NoStarvation(Tick(s), ops[1..], Place(Chosen(s.queue), k));
    } else if |ops| > 0 {
      StepKeeps(s, ops[0]);
      EveryThreadRuns(Step(s, ops[0]), ops[1..], k);
    }
  }
}
