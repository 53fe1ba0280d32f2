/** The priority-ageing scheduler on values: what one tick does to the queue of threads. */
module SchedSpec {
  import opened Runs

  const UINT16_MAX: nat := 65535

  datatype ThreadState = New | Ready | Running | Waiting | Terminated | Denied

  datatype Thread = Thread(tid: nat, state: ThreadState, priority: nat, active: nat)

  /** The queue from top to last, the thread id last switched to, the thread count. */
  datatype Sched = Sched(queue: seq<Thread>, running: nat, count: nat)

  const DUMMY: Thread := Thread(0, Denied, 0, 0)

  /** saturating_dec16 */
  function Dec16(a: nat): nat { if a >= 1 then a - 1 else 0 }

  /** `priority + 1` stored in sixteen bits. */
  function Inc16(p: nat): nat { (p + 1) % 65536 }

  // ---------------------------------------------------------------- choosing

  /** The scan's running choice: index of the best thread so far, and the priority to beat. */
  datatype Best = Best(index: Option<nat>, threshold: nat)

  /** Meeting thread t at place i: it is preferred when it is ready and beats the threshold. */
  function Improve(b: Best, t: Thread, i: nat): Best {
    if t.state != Ready || t.active >= b.threshold then b else Best(Some(i), Dec16(t.active))
  }

  /** The choice after the first n threads. */
  function Choice(q: seq<Thread>, n: nat): (b: Best)
    requires n <= |q|
    ensures b.index.Some? ==> b.index.value < n && q[b.index.value].state == Ready
    ensures b.index.Some? ==> b.threshold == Dec16(q[b.index.value].active) < q[b.index.value].active + 1 <= UINT16_MAX
    ensures b.index.None? ==> b.threshold == UINT16_MAX
  {
    if n == 0 then Best(None, UINT16_MAX) else Improve(Choice(q, n - 1), q[n - 1], n - 1)
  }

  /** Some thread was preferred. */
  predicate Found(q: seq<Thread>) { Choice(q, |q|).index.Some? }

  /** Every ready thread one step closer to its turn. */
  function Age(t: Thread): Thread { if t.state == Ready then t.(active := Dec16(t.active)) else t }

  function Aged(q: seq<Thread>): (r: seq<Thread>)
    ensures |r| == |q|
  {
    seq(|q|, i requires 0 <= i < |q| => Age(q[i]))
  }

  /** Halfway through the scan: the first n threads are aged. */
  function AgedBelow(q: seq<Thread>, n: nat): (r: seq<Thread>)
    ensures |r| == |q|
  {
    seq(|q|, i requires 0 <= i < |q| => if i < n then Age(q[i]) else q[i])
  }

  /** The queue after a pick; the thread picked is its last element. */
  function Pick(q: seq<Thread>): (r: seq<Thread>)
    requires |q| > 0
    ensures |r| == |q|
  {
    var aged := Aged(q);
    match Choice(q, |q|).index
    case None =>
      var last := |q| - 1;
      aged[last := aged[last].(active := Inc16(aged[last].priority))]
    case Some(c) =>
      aged[..c] + aged[c + 1..] + [aged[c].(active := Inc16(aged[c].priority), state := Running)]
  }

  function SetState(q: seq<Thread>, tid: nat, s: ThreadState): (r: seq<Thread>)
    ensures |r| == |q|
  {
    seq(|q|, i requires 0 <= i < |q| => if q[i].tid == tid then q[i].(state := s) else q[i])
  }

  /** The switch: the running thread, unless it is the dummy, becomes ready; the last thread of
      the queue, just picked, becomes running. */
  function Switch(q: seq<Thread>, running: nat): (r: seq<Thread>)
    requires |q| > 0
    ensures |r| == |q|
  {
    var q1 := if running == DUMMY.tid then q else SetState(q, running, Ready);
    q1[|q| - 1 := q1[|q| - 1].(state := Running)]
  }

  /** One timer tick. */
  function Tick(s: Sched): Sched
    requires |s.queue| > 0
  {
    var q := Pick(s.queue);
    Sched(Switch(q, s.running), q[|q| - 1].tid, s.count)
  }

  function Add(s: Sched, t: Thread): Sched {
    s.(queue := s.queue + [t], count := s.count + 1)
  }

  /** `scheduler_init` with the first thread. */
  function Init(t: Thread): Sched {
    Sched([t.(state := Ready), DUMMY], DUMMY.tid, 1)
  }

  /** One stop of the scan, on the aged part and on the choice. */
  lemma ScanStep(q: seq<Thread>, i: nat)
    requires i < |q|
    ensures AgedBelow(q, i)[i] == q[i] && AgedBelow(q, i)[i := Age(q[i])] == AgedBelow(q, i + 1)
    ensures var b := Improve(Best(None, Choice(q, i).threshold), q[i], 0);
            && Choice(q, i + 1).threshold == b.threshold
            && Choice(q, i + 1).index == if b.index.Some? then Some(i) else Choice(q, i).index
  {
  }

  // ---------------------------------------------------------------- what the choice means

  /** A ready thread that a timer tick can pick. */
  predicate Eligible(t: Thread) { t.state == Ready && t.active < UINT16_MAX }

  lemma {:induction false} ChoiceExists(q: seq<Thread>, n: nat)
    requires n <= |q|
    ensures Choice(q, n).index.Some? <==> exists i :: 0 <= i < n && Eligible(q[i])
    decreases n
  {
    if n > 0 {
      ChoiceExists(q, n - 1);
      var b := Choice(q, n - 1);
      if b.index.None? && Eligible(q[n - 1]) {
        assert Choice(q, n).index == Some(n - 1);
      }
    }
  }

  /** Every ready thread seen is at or above the priority to beat. */
  lemma {:induction false} ChoiceBeats(q: seq<Thread>, n: nat, j: nat)
    requires j < n <= |q| && q[j].state == Ready
    ensures q[j].active >= Choice(q, n).threshold
    ensures Choice(q, n).threshold <= Choice(q, n - 1).threshold
    decreases n
  {
    if j < n - 1 {
      ChoiceBeats(q, n - 1, j);
    }
  }

  /** The thread picked has at most one more than the least active priority of all. */
  lemma NearlyLeast(q: seq<Thread>, j: nat)
    requires j < |q| && q[j].state == Ready && Choice(q, |q|).index.Some?
    ensures q[Choice(q, |q|).index.value].active <= q[j].active + 1
  {
    ChoiceBeats(q, |q|, j);
  }

  /** Of threads ahead of the one picked, every ready one was strictly worse. */
  lemma {:induction false} AheadWorse(q: seq<Thread>, n: nat, j: nat)
    requires n <= |q| && Choice(q, n).index.Some? && j < Choice(q, n).index.value && q[j].state == Ready
    ensures q[j].active > q[Choice(q, n).index.value].active
    decreases n
  {
    var c := Choice(q, n).index.value;
    if c == n - 1 && Choice(q, n - 1).index != Some(c) {
      ChoiceBeats(q, n - 1, j);
    } else {
      AheadWorse(q, n - 1, j);
    }
  }
}
