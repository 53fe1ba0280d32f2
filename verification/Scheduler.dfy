/** The scheduler as the kernel keeps it: thread control blocks in a doubly linked queue,
    relinked in place. `nodes` lists the queue; every method is tied to `SchedSpec`. */
module Schedulers {
  import opened Runs
  import opened SchedSpec
  import opened SchedRuns

  class Tcb {
    const tid: nat
    const priority: nat
    var state: ThreadState
    var activePriority: nat
    var next: Tcb?
    var prev: Tcb?

    constructor (tid: nat, priority: nat, state: ThreadState)
      ensures this.tid == tid && this.priority == priority && this.state == state
      ensures activePriority == priority && next == null && prev == null
    {
      this.tid, this.priority, this.state := tid, priority, state;
      activePriority, next, prev := priority, null, null;
    }

    ghost function View(): Thread
      reads `state, `activePriority
    {
      Thread(tid, state, priority, activePriority)
    }
  }

  ghost function Views(ns: seq<Tcb>): (q: seq<Thread>)
    reads ns
    ensures |q| == |ns|
  {
    seq(|ns|, i requires 0 <= i < |ns| reads ns => ns[i].View())
  }

  /** Node i's links lead to its neighbours and end in null. */
  ghost predicate LinkAt(ns: seq<Tcb>, i: int)
    reads ns`next, ns`prev
  {
    0 <= i < |ns| ==>
      && ns[i].prev == (if i == 0 then null else ns[i - 1])
      && ns[i].next == (if i == |ns| - 1 then null else ns[i + 1])
  }

  ghost predicate Linked(ns: seq<Tcb>)
    reads ns`next, ns`prev
  {
    forall i :: LinkAt(ns, i)
  }

  ghost predicate Distinct(ns: seq<Tcb>) {
    forall i, j | 0 <= i < j < |ns| :: ns[i].tid != ns[j].tid
  }

  /** A new thread, or null for the priority whose increment would overflow. */
  method CreateThread(tid: nat, priority: nat) returns (tcb: Tcb?)
    requires priority <= UINT16_MAX
    ensures tcb == null <==> priority == UINT16_MAX
    ensures tcb != null ==> fresh(tcb) && tcb.View() == Thread(tid, New, priority, priority)
  {
    if priority == UINT16_MAX {
      return null;
    }
    tcb := new Tcb(tid, priority, New);
  }

  class Scheduler {
    var topTcb: Tcb
    var lastTcb: Tcb
    var runningTcb: Tcb
    const dummyTcb: Tcb
    var threadCount: nat
    ghost var nodes: seq<Tcb>

    ghost predicate Valid()
      reads this, nodes`next, nodes`prev
    {
      && |nodes| >= 2 && topTcb == nodes[0] && lastTcb == nodes[|nodes| - 1]
      && runningTcb in nodes && dummyTcb in nodes && dummyTcb.tid == DUMMY.tid
      && Distinct(nodes) && Linked(nodes)
    }

    ghost function Queue(): (q: seq<Thread>)
      reads `nodes, nodes
      ensures |q| == |nodes|
    {
      Views(nodes)
    }

    ghost function Model(): Sched
      reads this, nodes
    {
      Sched(Queue(), runningTcb.tid, threadCount)
    }

    /** Starts the queue with the first thread and the dummy, which nothing ever picks. */
    constructor (tcb: Tcb)
      requires tcb.tid != DUMMY.tid
      modifies tcb
      ensures Valid() && fresh(nodes[1]) && nodes[0] == tcb
      ensures Model() == Init(old(tcb.View()))
    {
      var dummy := new Tcb(DUMMY.tid, 0, Denied);
      dummyTcb := dummy;
      runningTcb := dummy;
      lastTcb := dummy;
      topTcb := tcb;
      threadCount := 1;
      nodes := [tcb, dummy];
      new;
      lastTcb.next := null;
      lastTcb.prev := tcb;
      topTcb.next := lastTcb;
      topTcb.prev := null;
      tcb.state := Ready;
    }

    /** Hangs a node behind the last one of a list. */
    method LinkLast(tcb: Tcb, ghost ns: seq<Tcb>)
      requires Linked(ns) && |ns| > 0 && lastTcb == ns[|ns| - 1] && tcb !in ns && Distinct(ns)
      modifies `lastTcb, lastTcb`next, tcb`next, tcb`prev
      ensures lastTcb == tcb && Linked(ns + [tcb])
    {
      assert LinkAt(ns, |ns| - 1);
      lastTcb.next := tcb;
      tcb.prev := lastTcb;
      tcb.next := null;
      lastTcb := tcb;
      forall i
        ensures LinkAt(ns + [tcb], i)
      {
        assert old(LinkAt(ns, i));
      }
    }

    /** Appends a thread behind the last one. */
    method AddThread(tcb: Tcb)
      requires Valid() && forall i | 0 <= i < |nodes| :: nodes[i].tid != tcb.tid
      modifies this, nodes, tcb
      ensures Valid() && nodes == old(nodes) + [tcb]
      ensures Model() == Add(old(Model()), old(tcb.View()))
    {
      LinkLast(tcb, nodes);
      threadCount := threadCount + 1;
      nodes := nodes + [tcb];
    }

    /** One stop of the walk: ages the thread if it is ready, and prefers it if it beats the
        best priority so far. */
    method Visit(activeTcb: Tcb, best: Tcb, maxPriority: nat) returns (best': Tcb, maxPriority': nat)
      modifies activeTcb`activePriority
      ensures activeTcb.View() == Age(old(activeTcb.View()))
      ensures var b := Improve(Best(None, maxPriority), old(activeTcb.View()), 0);
              maxPriority' == b.threshold && best' == if b.index.Some? then activeTcb else best
    {
      if activeTcb.state != Ready {
        return best, maxPriority;
      }
      if activeTcb.activePriority >= maxPriority {
        activeTcb.activePriority := Dec16(activeTcb.activePriority);
        return best, maxPriority;
      }
      best' := activeTcb;
      activeTcb.activePriority := Dec16(activeTcb.activePriority);
      maxPriority' := activeTcb.activePriority;
    }

    /** `Visit` on node i touches no other node. */
    method VisitNode(ghost i: nat, activeTcb: Tcb, best: Tcb, maxPriority: nat) returns (best': Tcb, maxPriority': nat)
      requires Valid() && i < |nodes| && activeTcb == nodes[i]
      modifies activeTcb`activePriority
      ensures Queue() == old(Queue()[i := Age(Queue()[i])])
      ensures var b := Improve(Best(None, maxPriority), old(Queue()[i]), 0);
              maxPriority' == b.threshold && best' == if b.index.Some? then activeTcb else best
    {
      ghost var q := Queue();
      best', maxPriority' := Visit(activeTcb, best, maxPriority);
      forall j | 0 <= j < |nodes|
        ensures nodes[j].View() == if j == i then Age(q[i]) else q[j]
      {
      }
    }

    /** Walks the queue: ages every ready thread and keeps the best one seen. */
    method ScanQueue() returns (best: Tcb, maxPriority: nat)
      requires Valid()
      modifies nodes`activePriority
      ensures Queue() == Aged(old(Queue()))
      ensures Found(old(Queue())) <==> maxPriority != UINT16_MAX
      ensures Found(old(Queue())) ==> best == nodes[Chosen(old(Queue()))]
    {
      hide Distinct, Views, Queue, Improve, Age;
      var activeTcb: Tcb? := topTcb;
      best := topTcb;
      maxPriority := UINT16_MAX;
      ghost var q := Queue();
      ghost var i := 0;
      while activeTcb != null
        invariant 0 <= i <= |nodes| && activeTcb == (if i < |nodes| then nodes[i] else null)
        invariant Queue() == AgedBelow(q, i)
        invariant maxPriority == Choice(q, i).threshold
        invariant Choice(q, i).index.Some? ==> best == nodes[Choice(q, i).index.value]
        decreases |nodes| - i
      {
        assert LinkAt(nodes, i);
        ScanStep(q, i);
        best, maxPriority := VisitNode(i, activeTcb, best, maxPriority);
        activeTcb := activeTcb.next;
        i := i + 1;
      }
      assert AgedBelow(q, |q|) == Aged(q);
    }

    /** Takes node c, not the last one, out of the queue. */
    method Unlink(best: Tcb, ghost c: nat)
      requires Valid() && c < |nodes| - 1 && best == nodes[c]
      modifies `topTcb, nodes`next, nodes`prev
      ensures Linked(nodes[..c] + nodes[c + 1..]) && topTcb == (nodes[..c] + nodes[c + 1..])[0]
    {
      assert LinkAt(nodes, c);
      if best.prev == null {
        topTcb := best.next;
        topTcb.prev := null;
      } else {
        best.prev.next := best.next;
        best.next.prev := best.prev;
      }
      ghost var rest := nodes[..c] + nodes[c + 1..];
      forall i
        ensures LinkAt(rest, i)
      {
        if 0 <= i < |rest| {
          assert old(LinkAt(nodes, Origin(c, i)));
        }
      }
    }

    /** Moves node c to the back of the queue, unless it is there. */
    method MoveToBack(best: Tcb, ghost c: nat)
      requires Valid() && c < |nodes| && best == nodes[c]
      modifies `topTcb, `lastTcb, `nodes, nodes`next, nodes`prev
      ensures Valid() && nodes == old(nodes[..c] + nodes[c + 1..]) + [best]
    {
      ghost var rest := nodes[..c] + nodes[c + 1..];
      assert LinkAt(nodes, c);
      if best.prev != null && best.next == null {
        assert nodes == rest + [best];
        return;
      }
      Unlink(best, c);
      LinkLast(best, rest);
      nodes := rest + [best];
    }

    /** Gives the thread found its turn: fresh priority, running, last in the queue. */
    method Promote(best: Tcb, ghost c: nat)
      requires Valid() && c < |nodes| && best == nodes[c]
      modifies `topTcb, `lastTcb, `nodes, nodes
      ensures Valid() && nodes == old(nodes[..c] + nodes[c + 1..]) + [best]
      ensures forall i | 0 <= i < |nodes| - 1 :: Queue()[i] == old(Queue())[Origin(c, i)]
      ensures Queue()[|nodes| - 1] == Picked(old(Queue())[c])
    {
      ghost var ns, q := nodes, Queue();
      best.activePriority := Inc16(best.priority);
      best.state := Running;
      MoveToBack(best, c);
      assert forall i | 0 <= i < |ns| - 1 :: nodes[i] == ns[Origin(c, i)];
    }

    /** No ready thread at all: the running thread, which is last, may go on. */
    method Repeat() returns (best: Tcb)
      requires Valid()
      modifies lastTcb`activePriority
      ensures best == lastTcb
      ensures var last := |nodes| - 1;
              Queue() == old(Queue()[last := Queue()[last].(active := Inc16(Queue()[last].priority))])
    {
      best := lastTcb;
      best.activePriority := Inc16(best.priority);
    }

    /** Picks the next thread on a timer interrupt: it ends as the last node. */
    method PickNextThread() returns (best: Tcb)
      requires Valid()
      modifies `topTcb, `lastTcb, `nodes, nodes
      ensures Valid() && best == lastTcb
      ensures var c := Chosen(old(Queue())); nodes == old(nodes[..c] + nodes[c + 1..] + [nodes[c]])
      ensures Queue() == Pick(old(Queue()))
    {
      hide Linked, Distinct, Views, Aged, Choice;
      ghost var q := Queue();
      var maxPriority;
      best, maxPriority := ScanQueue();
      if maxPriority == UINT16_MAX {
        PickOfNone(q);
        best := Repeat();
      } else {
        Promote(best, Chosen(q));
        PickByPlace(q, Queue());
      }
    }

    /** The state part of a switch: the thread that ran is ready again, `next` runs. */
    method ContextSwitch(next: Tcb)
      requires Valid() && next == lastTcb
      modifies `runningTcb, runningTcb`state, next`state
      ensures Valid() && runningTcb == next
      ensures Queue() == Switch(old(Queue()), old(runningTcb).tid)
    {
      hide Linked;
      ghost var q := Queue();
      if runningTcb != dummyTcb {
        runningTcb.state := Ready;
        assert Queue() == SetState(q, runningTcb.tid, Ready);
      }
      next.state := Running;
      runningTcb := next;
    }

    /** A timer tick. */
    method Schedule()
      requires Valid()
      modifies this, nodes
      ensures Valid()
      ensures var c := Chosen(old(Queue())); nodes == old(nodes[..c] + nodes[c + 1..] + [nodes[c]])
      ensures Model() == Tick(old(Model()))
    {
      hide Pick, Switch, Chosen;
      var next := PickNextThread();
      assert Queue()[|nodes| - 1].tid == next.tid;
      ContextSwitch(next);
    }
  }
}
