/**
 The round-robin scheduler: the running thread, the ready queue, and the registers that
 a context switch saves into one thread and loads from the next.
 */
module Scheduler {
  import opened Machine

  type Regs = seq<u64>

  datatype ThreadState = Ready | Running | Blocked | Exited
  datatype Thread = Thread(tid: nat, state: ThreadState, ctx: Regs)

  /** After `init`: `cpu` holds the live registers of `current`. */
  datatype Sched = Sched(current: Thread, ready: seq<Thread>, cpu: Regs, nextTid: nat)

  datatype Event =
    | Spawn(entry: Regs)
    | Yield
    | Exit
    | Compute(regs: Regs)

  function Boot(cpu: Regs): Sched {
    Sched(Thread(1, Running, []), [], cpu, 2)
  }

  /** One step; `None` is the panic of `exit_current` with nothing left to run. */
  function Step(s: Sched, e: Event): Option<Sched> {
    match e
    case Spawn(entry) => Some(s.(ready := s.ready + [Thread(s.nextTid, Ready, entry)], nextTid := s.nextTid + 1))
    case Yield =>
      if s.ready == [] then Some(s)
      else Some(s.(current := s.ready[0].(state := Running),
                   ready := s.ready[1..] + [s.current.(state := Ready, ctx := s.cpu)],
                   cpu := s.ready[0].ctx))
    case Exit =>
      if s.ready == [] then None
      else Some(s.(current := s.ready[0].(state := Running), ready := s.ready[1..], cpu := s.ready[0].ctx))
    case Compute(regs) => Some(s.(cpu := regs))
  }

  predicate Switches(s: Sched, e: Event) {
    (e.Yield? || e.Exit?) && s.ready != []
  }

  function Run(s: Sched, es: seq<Event>): Option<Sched> {
    if es == [] then Some(s)
    else
      var init := Run(s, es[..|es| - 1]);
      if init.None? then None else Step(init.value, es[|es| - 1])
  }

  function SwitchCount(s: Sched, es: seq<Event>): nat
    requires Run(s, es).Some?
  {
    if es == [] then 0
    else
      var init := es[..|es| - 1];
      SwitchCount(s, init) + if Switches(Run(s, init).value, es[|es| - 1]) then 1 else 0
  }

  /** Live threads: the running one, then the ready queue. */
  function Threads(s: Sched): seq<Thread> {
    [s.current] + s.ready
  }

  /** Each live thread is in one place, and only the current one is running. */
  ghost predicate Inv(s: Sched) {
    && (forall i, j :: 0 <= i < j < |Threads(s)| ==> Threads(s)[i].tid != Threads(s)[j].tid)
    && (forall i :: 0 <= i < |Threads(s)| ==> Threads(s)[i].tid < s.nextTid)
    && s.current.state == Running
    && forall i :: 0 <= i < |s.ready| ==> s.ready[i].state == Ready
  }

  lemma StepKeepsInv(s: Sched, e: Event)
    requires Inv(s) && Step(s, e).Some?
    ensures Inv(Step(s, e).value)
  {
    var s' := Step(s, e).value;
    var ts, ts', n := Threads(s), Threads(s'), |Threads(s')|;
    forall i | 0 <= i < n
      ensures (e.Spawn? && i == n - 1) || ts'[i].tid == ts[Origin(s, e, i)].tid
    {
    }
  }

  /** Where the thread at place `i` after a step was before it. */
  function Origin(s: Sched, e: Event, i: nat): (r: nat)
    requires Step(s, e).Some? && i < |Threads(Step(s, e).value)|
    ensures !(e.Spawn? && i == |s.ready| + 1) ==> r < |Threads(s)|
  {
    if !Switches(s, e) then i else if i <= |s.ready| - 1 then i + 1 else 0
  }

  /** In every run after init. */
  lemma {:induction false} RunKeepsInv(s: Sched, es: seq<Event>)
    requires Inv(s) && Run(s, es).Some?
    ensures Inv(Run(s, es).value)
  {
    if es != [] {
      RunKeepsInv(s, es[..|es| - 1]);
      StepKeepsInv(Run(s, es[..|es| - 1]).value, es[|es| - 1]);
    }
  }

  /** A waiting thread moves up one place per switch, untouched, whatever is spawned meanwhile. */
  lemma {:induction false} WaitingMovesUp(s: Sched, es: seq<Event>, k: nat)
    requires k < |s.ready| && Run(s, es).Some? && SwitchCount(s, es) <= k
    ensures var s' := Run(s, es).value; var p := k - SwitchCount(s, es);
      p < |s'.ready| && s'.ready[p] == s.ready[k]
  {
    if es != [] {
      WaitingMovesUp(s, es[..|es| - 1], k);
    }
  }

  /** The last event of the run is its switch number k + 1. */
  ghost predicate EndsWithSwitch(s: Sched, es: seq<Event>, k: nat) {
    && es != [] && Run(s, es).Some?
    && SwitchCount(s, es[..|es| - 1]) == k && SwitchCount(s, es) == k + 1
  }

  /** The thread at position k runs after exactly k + 1 switches, with the context it saved. */
  lemma TurnComes(s: Sched, es: seq<Event>, k: nat)
    requires k < |s.ready| && EndsWithSwitch(s, es, k)
    ensures Run(s, es).value.current == s.ready[k].(state := Running)
    ensures Run(s, es).value.cpu == s.ready[k].ctx
  {
    WaitingMovesUp(s, es[..|es| - 1], k);
  }

  /** A thread that yields gets its registers back when its turn comes round. */
  lemma ResumedAsSaved(s: Sched, yielded: Sched, es: seq<Event>)
    requires s.ready != [] && Step(s, Yield) == Some(yielded) && EndsWithSwitch(yielded, es, |s.ready| - 1)
    ensures Run(yielded, es).value.current.tid == s.current.tid && Run(yielded, es).value.cpu == s.cpu
  {
    TurnComes(yielded, es, |s.ready| - 1);
  }

  /** A thread spawned while n threads are ready runs after exactly n + 1 switches, from its entry. */
  lemma SpawnRuns(s: Sched, entry: Regs, spawned: Sched, es: seq<Event>)
    requires Step(s, Spawn(entry)) == Some(spawned) && EndsWithSwitch(spawned, es, |s.ready|)
    ensures Run(spawned, es).value.current.tid == s.nextTid && Run(spawned, es).value.cpu == entry
  {
    TurnComes(spawned, es, |s.ready|);
  }

  ghost predicate Live(s: Sched, tid: nat) {
    exists i :: 0 <= i < |Threads(s)| && Threads(s)[i].tid == tid
  }

  /** Event `i` of the run is the exit of thread `tid`. */
  ghost predicate ExitsAt(s: Sched, es: seq<Event>, i: nat, tid: nat)
    requires i < |es|
  {
    es[i] == Exit && Run(s, es[..i]).Some? && Run(s, es[..i]).value.current.tid == tid
  }

  ghost predicate ExitsIn(s: Sched, es: seq<Event>, tid: nat) {
    exists i :: 0 <= i < |es| && ExitsAt(s, es, i, tid)
  }

  lemma StepKeepsLive(s: Sched, e: Event, tid: nat)
    requires Live(s, tid) && !(e == Exit && s.current.tid == tid)
    ensures Step(s, e).Some? && Live(Step(s, e).value, tid)
  {
    var i :| 0 <= i < |Threads(s)| && Threads(s)[i].tid == tid;
    if Step(s, e).Some? {
      var ts' := Threads(Step(s, e).value);
      if e == Yield && s.ready != [] {
        assert ts'[if i == 0 then |s.ready| else i - 1].tid == tid;
      } else if e == Exit {
        assert ts'[i - 1].tid == tid;
      } else {
        assert ts'[i].tid == tid;
      }
    }
  }

  /** While the boot thread has not exited, `exit_current` always finds a thread to run. */
  lemma {:induction false} NeverStuck(s: Sched, es: seq<Event>, boot: nat)
    requires Live(s, boot) && !ExitsIn(s, es, boot)
    ensures Run(s, es).Some? && Live(Run(s, es).value, boot)
  {
    if es != [] {
      var n := |es| - 1;
      assert !ExitsIn(s, es[..n], boot) by {
        forall i | 0 <= i < n ensures !ExitsAt(s, es[..n], i, boot) {
          assert es[..n][..i] == es[..i];
          assert !ExitsAt(s, es, i, boot);
        }
      }
      NeverStuck(s, es[..n], boot);
      assert !ExitsAt(s, es, n, boot);
      StepKeepsLive(Run(s, es[..n]).value, es[n], boot);
    }
  }

  /** Event `i` of the run spawns thread `tid`. */
  ghost predicate SpawnsAt(s: Sched, es: seq<Event>, i: nat, tid: nat)
    requires i < |es|
  {
    es[i].Spawn? && Run(s, es[..i]).Some? && Run(s, es[..i]).value.nextTid == tid
  }

  ghost predicate SpawnedIn(s: Sched, es: seq<Event>, tid: nat) {
    exists i :: 0 <= i < |es| && SpawnsAt(s, es, i, tid)
  }

  lemma StepLive(s: Sched, e: Event, tid: nat)
    requires Inv(s) && Step(s, e).Some?
    ensures Live(Step(s, e).value, tid) <==>
      (Live(s, tid) || (e.Spawn? && s.nextTid == tid)) && !(e == Exit && s.current.tid == tid)
  {
    var ts, ts' := Threads(s), Threads(Step(s, e).value);
    if Live(s, tid) && !(e == Exit && s.current.tid == tid) {
      StepKeepsLive(s, e, tid);
    }
    if e.Spawn? {
      assert ts'[|ts|].tid == s.nextTid;
    }
    if Live(Step(s, e).value, tid) {
      var i :| 0 <= i < |ts'| && ts'[i].tid == tid;
      if !(e.Spawn? && i == |ts|) {
        var k := Origin(s, e, i);
        assert ts'[i].tid == ts[k].tid;
        assert e == Exit ==> ts[0].tid != ts[k].tid;
      }
    }
  }

  /** Which threads are live after a step. */
  lemma StepChanges(s: Sched, e: Event)
    requires Inv(s) && Step(s, e).Some?
    ensures Inv(Step(s, e).value)
    ensures forall tid: nat :: Live(Step(s, e).value, tid) <==>
      (Live(s, tid) || (e.Spawn? && s.nextTid == tid)) && !(e == Exit && s.current.tid == tid)
  {
    hide Step, Live, Inv;
    StepKeepsInv(s, e);
    forall tid: nat { StepLive(s, e, tid); }
  }

  /** The last event and the run before it. */
  lemma LastEvent(s: Sched, es: seq<Event>, tid: nat)
    requires es != [] && Run(s, es).Some?
    ensures var n := |es| - 1; var before := Run(s, es[..n]);
      && before.Some?
      && (SpawnedIn(s, es, tid) <==> SpawnedIn(s, es[..n], tid) || (es[n].Spawn? && before.value.nextTid == tid))
      && (ExitsIn(s, es, tid) <==> ExitsIn(s, es[..n], tid) || (es[n] == Exit && before.value.current.tid == tid))
  {
    hide Run, SpawnsAt, ExitsAt;
    RunBefore(s, es);
    var n := |es| - 1;
    LastAt(s, es, tid);
    forall i | 0 <= i < n
      ensures SpawnsAt(s, es[..n], i, tid) <==> SpawnsAt(s, es, i, tid)
      ensures ExitsAt(s, es[..n], i, tid) <==> ExitsAt(s, es, i, tid)
    {
      EarlierAt(s, es, n, i, tid);
    }
  }

  lemma LastAt(s: Sched, es: seq<Event>, tid: nat)
    requires es != [] && Run(s, es).Some?
    ensures var n := |es| - 1;
      && Run(s, es[..n]).Some?
      && (SpawnsAt(s, es, n, tid) <==> es[n].Spawn? && Run(s, es[..n]).value.nextTid == tid)
      && (ExitsAt(s, es, n, tid) <==> es[n] == Exit && Run(s, es[..n]).value.current.tid == tid)
  {
    RunBefore(s, es);
  }

  lemma EarlierAt(s: Sched, es: seq<Event>, n: nat, i: nat, tid: nat)
    requires i < n <= |es|
    ensures SpawnsAt(s, es[..n], i, tid) <==> SpawnsAt(s, es, i, tid)
    ensures ExitsAt(s, es[..n], i, tid) <==> ExitsAt(s, es, i, tid)
  {
    hide Run;
    assert es[..n][..i] == es[..i];
  }

  lemma RunBefore(s: Sched, es: seq<Event>)
    requires es != [] && Run(s, es).Some?
    ensures var before := Run(s, es[..|es| - 1]); before.Some? && Run(s, es) == Step(before.value, es[|es| - 1])
  {
  }

  /** A thread that exited had a number already given out. */
  lemma {:induction false} ExitedBelow(s: Sched, es: seq<Event>, tid: nat)
    requires Inv(s) && Run(s, es).Some? && ExitsIn(s, es, tid)
    ensures tid < Run(s, es).value.nextTid
  {
    hide Run, ExitsIn;
    assert es != [] by { NoExit(s, tid); }
    var n := |es| - 1;
    RunBefore(s, es);
    LastEvent(s, es, tid);
    if ExitsIn(s, es[..n], tid) {
      ExitedBelow(s, es[..n], tid);
    } else {
      RunKeepsInv(s, es[..n]);
      assert Threads(Run(s, es[..n]).value)[0].tid == tid;
    }
  }

  lemma NoExit(s: Sched, tid: nat)
    ensures !ExitsIn(s, [], tid) && !SpawnedIn(s, [], tid)
  {
  }

  /** After any run a thread is live iff it was live before or spawned in it, and did not exit in it. */
  lemma {:induction false} LiveExactly(s: Sched, es: seq<Event>, tid: nat)
    requires Inv(s) && Run(s, es).Some?
    ensures Live(Run(s, es).value, tid) <==> (Live(s, tid) || SpawnedIn(s, es, tid)) && !ExitsIn(s, es, tid)
  {
    if es == [] {
      NoExit(s, tid);
    } else {
      hide Run, SpawnedIn, ExitsIn, Live, Step;
      var n := |es| - 1;
      RunBefore(s, es);
      LastEvent(s, es, tid);
      LiveExactly(s, es[..n], tid);
      RunKeepsInv(s, es[..n]);
      StepLive(Run(s, es[..n]).value, es[n], tid);
      if ExitsIn(s, es[..n], tid) { ExitedBelow(s, es[..n], tid); }
    }
  }

  function SpawnCount(es: seq<Event>): nat {
    if es == [] then 0 else SpawnCount(es[..|es| - 1]) + if es[|es| - 1].Spawn? then 1 else 0
  }

  /** Threads are numbered in the order they are spawned, without gaps. */
  lemma {:induction false} NumberedInOrder(s: Sched, es: seq<Event>)
    requires Run(s, es).Some?
    ensures Run(s, es).value.nextTid == s.nextTid + SpawnCount(es)
  {
    if es != [] { NumberedInOrder(s, es[..|es| - 1]); }
  }

  /** The scheduler object; `current` is empty only before `Init`. */
  class SchedState {
    var current: Option<Thread>
    var ready: seq<Thread>
    var needResched: bool
    var nextTid: nat
    /** The processor's registers. */
    var cpu: Regs

    constructor (cpu: Regs)
      ensures current.None? && ready == [] && nextTid == 1 && this.cpu == cpu
    {
      current, ready, needResched, nextTid, this.cpu := None, [], false, 1, cpu;
    }

    ghost function View(): Sched
      requires current.Some?
      reads this
    {
      Sched(current.value, ready, cpu, nextTid)
    }

    method Init()
      requires current.None? && ready == [] && nextTid == 1
      modifies this
      ensures current.Some? && View() == Boot(old(cpu)) && Inv(View()) && Live(View(), 1)
    {
      current := Some(Thread(nextTid, Running, []));
      nextTid := nextTid + 1;
      assert Threads(View())[0].tid == 1;
    }

    method SpawnThread(entry: Regs) returns (tid: nat)
      requires current.Some?
      modifies this
      ensures current.Some? && Some(View()) == Step(old(View()), Spawn(entry)) && tid == old(nextTid)
      ensures old(Inv(View())) ==> Inv(View()) && forall t: nat :: Live(View(), t) <==> old(Live(View(), t)) || t == tid
    {
      ghost var was := View();
      var t := Thread(nextTid, Ready, entry);
      nextTid := nextTid + 1;
      tid := t.tid;
      ready := ready + [t];
      if Inv(was) {
        StepChanges(was, Spawn(entry));
      }
    }

    method YieldNow()
      requires current.Some?
      modifies this
      ensures current.Some? && Some(View()) == Step(old(View()), Yield) && !needResched
    {
      needResched := false;
      if ready == [] {
        return;
      }
      var next := ready[0];
      ready := ready[1..];
      var prev := current.value.(state := Ready);
      next := next.(state := Running);
      ready := ready + [prev];
      current := Some(next);
      // the switch saves into the thread now at the back and loads from the new current
      ready := ready[|ready| - 1 := ready[|ready| - 1].(ctx := cpu)];
      assert ready == old(ready)[1..] + [prev.(ctx := cpu)];
      cpu := next.ctx;
    }

    /** Panics when there is nothing left to switch to. */
    method ExitCurrent() returns (panics: bool)
      requires current.Some?
      modifies this
      ensures current.Some? && panics == Step(old(View()), Exit).None?
      ensures !panics ==> Some(View()) == Step(old(View()), Exit)
      ensures !panics && old(Inv(View())) ==>
        Inv(View()) && forall t: nat :: Live(View(), t) <==> old(Live(View(), t)) && t != old(current.value.tid)
    {
      ghost var was := View();
      current := Some(current.value.(state := Exited));
      if ready == [] {
        return true;
      }
      panics := false;
      var next := ready[0].(state := Running);
      ready := ready[1..];
      current := Some(next);
      cpu := next.ctx;
      if Inv(was) {
        StepChanges(was, Exit);
      }
    }

    /** `snapshot`: every live thread once, the running one first. */
    method Snapshot() returns (v: seq<(nat, ThreadState)>)
      requires current.Some?
      ensures |v| == |Threads(View())|
      ensures forall i :: 0 <= i < |v| ==> v[i] == (Threads(View())[i].tid, Threads(View())[i].state)
    {
      v := [(current.value.tid, current.value.state)];
      for i := 0 to |ready|
        invariant |v| == i + 1
        invariant forall k :: 0 <= k < |v| ==> v[k] == (Threads(View())[k].tid, Threads(View())[k].state)
      {
        v := v + [(ready[i].tid, ready[i].state)];
      }
    }
  }
}
