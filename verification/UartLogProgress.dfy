/**
 Printing makes progress (niobeu4/liteos_m/hals/log/log.c): whatever has happened in a cooperative run, every message
 asked for can still come out, and a task that finds the buffer free gets its message out by its own steps.
 */
module UartLogProgress {
  import opened UartLog
  import opened UartLogTasks

  /** Steps of the running task, with what the FIFO reports at each of them. */
  function Goes(reports: seq<Space>): seq<Action> {
    seq(|reports|, i requires 0 <= i < |reports| => Go(reports[i]))
  }

  ghost predicate NoCall(actions: seq<Action>) {
    forall i :: 0 <= i < |actions| ==> !actions[i].Call?
  }

  /** The running task holds the buffer, or nobody does. */
  predicate MayFinish(s: State)
    requires s.running < |s.tasks|
  {
    s.tasks[s.running].Owns() || !s.bufLock
  }

  /** How many of its own steps a task may still need; 2 * |msg| + 7 at most. */
  function Rank(k: Task): nat
    requires k.pos <= |k.msg|
  {
    match k.pc
    case Idle => 0
    case Release => 1
    case Poll => 2 * (|k.msg| - k.pos) + 2
    case SendDelayed => 2 * (|k.msg| - k.pos) + 3
    case Fill => 2 * |k.msg| + 4
    case Claim => 2 * |k.msg| + 5
    case Test => 2 * |k.msg| + 6
    case Delayed => 2 * |k.msg| + 7
  }

  /** From `s` to `t` only task `i` may have moved, and nobody has asked for anything. */
  ghost predicate OnlyMoved(s: State, t: State, i: nat) {
    && |t.tasks| == |s.tasks|
    && forall j :: 0 <= j < |s.tasks| ==>
         t.tasks[j].called == s.tasks[j].called && (j != i ==> t.tasks[j] == s.tasks[j])
  }

  /** The running task's own step. */
  lemma OwnEntry(s: State, free: Space)
    requires Inv(s) && MayFinish(s) && s.tasks[s.running].pc != Idle && free > 0
    ensures Enabled(s, Go(free), true)
    ensures var t := Apply(s, Go(free));
      && t.running == s.running && |t.tasks| == |s.tasks| && MayFinish(t) && OnlyMoved(s, t, s.running)
      && t.tasks[s.running].msg == s.tasks[s.running].msg
      && t.tasks[s.running].pos <= |t.tasks[s.running].msg|
      && Rank(t.tasks[s.running]) < Rank(s.tasks[s.running])
  {
    hide WholeMessages, NothingLost, OneOwner;
    assert TaskInv(s, s.running);
  }

  /** While the running task may finish, its own steps with nonzero reports do finish: after at most `Rank` of them. */
  lemma {:induction false} OwnSteps(s: State, reports: seq<Space>) returns (n: nat)
    requires Inv(s) && MayFinish(s) && s.tasks[s.running].pos <= |s.tasks[s.running].msg|
    requires |reports| >= Rank(s.tasks[s.running]) && forall i :: 0 <= i < |reports| ==> reports[i] > 0
    ensures n <= |reports| && Run(s, Goes(reports[..n]), true)
    ensures var t := After(s, Goes(reports[..n]), true);
      && Inv(t) && t.running == s.running && OnlyMoved(s, t, s.running)
      && t.tasks[s.running].pc == Idle && !t.bufLock
    decreases Rank(s.tasks[s.running])
  {
    assert s.running < |s.tasks|;
    if s.tasks[s.running].pc == Idle {
      n := 0;
    } else {
      OwnEntry(s, reports[0]);
      StepInv(s, Go(reports[0]));
      var t := Apply(s, Go(reports[0]));
      hide Inv, Apply, Rank, OnlyMoved, MayFinish, Goes, Advance;
      var m := OwnSteps(t, reports[1..]);
      n := m + 1;
      GoesFirst(reports, n);
      assert Run(s, Goes(reports[..n]), true);
      MovedTwice(s, t, After(t, Goes(reports[1..][..m]), true), s.running);
    }
  }

  lemma GoesFirst(reports: seq<Space>, n: nat)
    requires 0 < n <= |reports|
    ensures Goes(reports[..n]) != [] && Goes(reports[..n])[0] == Go(reports[0])
    ensures Goes(reports[..n])[1..] == Goes(reports[1..][..n - 1])
  {
  }

  lemma MovedTwice(s: State, t: State, u: State, i: nat)
    requires OnlyMoved(s, t, i) && OnlyMoved(t, u, i)
    ensures OnlyMoved(s, u, i)
  {
  }

  lemma {:induction false} RunAppend(s: State, a: seq<Action>, b: seq<Action>, cooperative: bool)
    requires Run(s, a, cooperative) && Run(After(s, a, cooperative), b, cooperative)
    ensures Run(s, a + b, cooperative)
    ensures After(s, a + b, cooperative) == After(After(s, a, cooperative), b, cooperative)
    decreases |a|
  {
    if a == [] {
      assert a + b == b;
    } else {
      hide Enabled, Apply;
      assert (a + b)[0] == a[0] && (a + b)[1..] == a[1..] + b;
      assert Enabled(s, a[0], cooperative);
      EnabledAnyway(s, a[0], cooperative);
      RunAppend(Apply(s, a[0]), a[1..], b, cooperative);
    }
  }

  lemma EnabledAnyway(s: State, a: Action, cooperative: bool)
    requires Enabled(s, a, cooperative)
    ensures Enabled(s, a, false)
  {
  }

  /** The part of a run's state that says nothing is going on: the running task is idle and the buffer is free. */
  ghost predicate Quiet(s: State) {
    Inv(s) && s.tasks[s.running].pc == Idle && !s.bufLock
  }

  /** Nobody has asked for anything from `s` to `t`. */
  ghost predicate SameCalled(s: State, t: State) {
    |t.tasks| == |s.tasks| && forall j :: 0 <= j < |s.tasks| ==> t.tasks[j].called == s.tasks[j].called
  }

  /** `more` leads from `s` to `t`, by switches at the allowed points and the tasks' own steps. */
  ghost predicate Leads(s: State, more: seq<Action>, t: State) {
    NoCall(more) && Run(s, more, true) && After(s, more, true) == t && SameCalled(s, t)
  }

  lemma LeadsOn(s: State, a: seq<Action>, t: State, b: seq<Action>, u: State)
    requires Leads(s, a, t) && Leads(t, b, u)
    ensures Leads(s, a + b, u)
  {
    hide Run, After;
    RunAppend(s, a, b, true);
  }

  lemma OneLeads(s: State, a: Action)
    requires Enabled(s, a, true) && !a.Call?
    ensures Leads(s, [a], Apply(s, a))
  {
    assert [a][1..] == [];
    assert SameCalled(s, Apply(s, a));
  }

  /** The running task finishes. */
  lemma Finish(s: State) returns (more: seq<Action>, t: State)
    requires Inv(s) && MayFinish(s)
    ensures Leads(s, more, t) && Quiet(t) && t.running == s.running && OnlyMoved(s, t, s.running)
  {
    assert TaskInv(s, s.running);
    var reports: seq<Space> := seq(Rank(s.tasks[s.running]), _ => 1);
    hide Inv;
    var n := OwnSteps(s, reports);
    more := Goes(reports[..n]);
    t := After(s, more, true);
  }

  /** When the running task can do nothing but wait, another one owns the buffer and stands where it can go on. */
  lemma OwnerWaits(s: State) returns (o: nat)
    requires Inv(s) && !MayFinish(s)
    ensures o < |s.tasks| && o != s.running && s.tasks[o].pc == SendDelayed
    ensures s.tasks[s.running].pc in {Idle, Test, Delayed}
  {
    o :| 0 <= o < |s.tasks| && s.tasks[o].Owns();
    assert TaskInv(s, o) && TaskInv(s, s.running);
  }

  /** The running task steps back when it has just found the buffer taken. */
  lemma StepBack(s: State) returns (more: seq<Action>, t: State)
    requires Inv(s) && !MayFinish(s)
    ensures Leads(s, more, t) && Inv(t) && !MayFinish(t) && t.running == s.running
    ensures t.tasks[t.running].pc in {Idle, Delayed}
  {
    var o := OwnerWaits(s);
    if s.tasks[s.running].pc == Test {
      hide WholeMessages, NothingLost, OneOwner;
      assert TaskInv(s, s.running);
      more, t := [Go(1)], Apply(s, Go(1));
      OneLeads(s, Go(1));
      StepInv(s, Go(1));
    } else {
      more, t := [], s;
    }
  }

  /** From any state of a cooperative run the buffer can become free. */
  lemma Settle(s: State) returns (more: seq<Action>, t: State)
    requires Inv(s)
    ensures Leads(s, more, t) && Quiet(t)
  {
    if MayFinish(s) {
      more, t := Finish(s);
    } else {
      var a, s1 := StepBack(s);
      var o := OwnerWaits(s1);
      var s2 := Apply(s1, Switch(o));
      OneLeads(s1, Switch(o));
      StepInv(s1, Switch(o));
      hide Inv, Leads;
      var b, u := Finish(s2);
      LeadsOn(s, a, s1, [Switch(o)], s2);
      LeadsOn(s, a + [Switch(o)], s2, b, u);
      more, t := a + [Switch(o)] + b, u;
    }
  }

  /** With a free buffer one task after the other finishes. */
  lemma {:induction false} DrainFrom(s: State, k: nat) returns (more: seq<Action>, t: State)
    requires Quiet(s) && k <= |s.tasks| && forall j :: 0 <= j < k ==> s.tasks[j].pc == Idle
    ensures Leads(s, more, t) && Quiet(t) && forall j :: 0 <= j < |t.tasks| ==> t.tasks[j].pc == Idle
    decreases |s.tasks| - k
  {
    if k == |s.tasks| {
      more, t := [], s;
    } else {
      var s1 := Apply(s, Switch(k));
      OneLeads(s, Switch(k));
      StepInv(s, Switch(k));
      hide Inv, Leads;
      var a, s2 := Finish(s1);
      LeadsOn(s, [Switch(k)], s1, a, s2);
      assert |s2.tasks| == |s.tasks|;
      var b;
      b, t := DrainFrom(s2, k + 1);
      LeadsOn(s, [Switch(k)] + a, s2, b, t);
      more := [Switch(k)] + a + b;
    }
  }

  /** From any state of a cooperative run every task can get its messages out. */
  lemma Drain(s: State) returns (more: seq<Action>, t: State)
    requires Inv(s)
    ensures Leads(s, more, t) && Quiet(t) && forall j :: 0 <= j < |t.tasks| ==> t.tasks[j].pc == Idle
    ensures forall j :: 0 <= j < |t.tasks| ==> Of(t.sent, j) == t.tasks[j].called
  {
    hide Inv, Leads;
    var a, s1 := Settle(s);
    var b;
    b, t := DrainFrom(s1, 0);
    LeadsOn(s, a, s1, b, t);
    more := a + b;
    forall j | 0 <= j < |t.tasks|
      ensures Of(t.sent, j) == t.tasks[j].called
    {
      AllOut(t, j);
    }
  }

  // What the tasks ask for, read off the actions alone.

  /** The nonempty messages task `t` asks to print, when task `running` runs first. */
  function Asked(actions: seq<Action>, running: nat, t: nat): seq<Text>
    decreases |actions|
  {
    if actions == [] then []
    else
      match actions[0]
      case Call(msg) => (if running == t && msg != [] then [msg] else []) + Asked(actions[1..], running, t)
      case Go(_) => Asked(actions[1..], running, t)
      case Switch(u) => Asked(actions[1..], u, t)
  }

  /** The record each task keeps is what it has asked for. */
  lemma {:induction false} CalledIsAsked(s: State, actions: seq<Action>, t: nat, cooperative: bool)
    requires Run(s, actions, cooperative) && t < |s.tasks|
    ensures var u := After(s, actions, cooperative);
      |u.tasks| == |s.tasks| && u.tasks[t].called == s.tasks[t].called + Asked(actions, s.running, t)
    decreases |actions|
  {
    if actions != [] {
      CalledStep(s, actions[0], t);
      CalledIsAsked(Apply(s, actions[0]), actions[1..], t, cooperative);
    }
  }

  lemma CalledStep(s: State, a: Action, t: nat)
    requires Enabled(s, a, false) && t < |s.tasks|
    ensures var u := Apply(s, a);
      && |u.tasks| == |s.tasks| && u.running == (if a.Switch? then a.task else s.running)
      && u.tasks[t].called ==
           s.tasks[t].called + (if a.Call? && t == s.running && a.msg != [] then [a.msg] else [])
  {
  }

  /**
   Whatever has happened in a cooperative run of any number of tasks, it can go on, with nobody printing anything new,
   so that every message asked for is out: each task's in the order it asked, whole, and the buffer is free.
   */
  lemma EveryMessageComesOut(n: nat, actions: seq<Action>) returns (more: seq<Action>)
    requires n > 0 && Run(Initial(n), actions, true)
    ensures NoCall(more) && Run(Initial(n), actions + more, true)
    ensures var t := After(Initial(n), actions + more, true);
      && |t.tasks| == n && !t.bufLock && t.out == Concat(t.sent)
      && forall i :: 0 <= i < n ==> t.tasks[i].pc == Idle && Of(t.sent, i) == Asked(actions, 0, i)
  {
    var s0 := Initial(n);
    InitialInv(n);
    RunInv(s0, actions);
    var s := After(s0, actions, true);
    CalledIsAsked(s0, actions, 0, true);
    hide Inv, Run, After, WholeMessages, OneOwner, NothingLost, Asked, Of, Concat;
    var t;
    more, t := Drain(s);
    RunAppend(s0, actions, more, true);
    MessagesStayWhole(n, actions + more);
    forall i | 0 <= i < n
      ensures |t.tasks| == n && Of(t.sent, i) == Asked(actions, 0, i)
    {
      CalledIsAsked(s0, actions, i, true);
    }
  }

  /**
   A task that runs while it owns the buffer or nobody does gets everything it asked for out by at most 2 * |msg| + 7
   steps of its own, if the FIFO reports some space at each of them; the buffer is free then.
   */
  lemma OwnStepsSuffice(n: nat, actions: seq<Action>, reports: seq<Space>) returns (k: nat)
    requires n > 0 && Run(Initial(n), actions, true)
    requires var s := After(Initial(n), actions, true);
      && s.running < |s.tasks| && MayFinish(s)
      && |reports| >= 2 * |s.tasks[s.running].msg| + 7
    requires forall i :: 0 <= i < |reports| ==> reports[i] > 0
    ensures var s := After(Initial(n), actions, true); var r := s.running;
      && k <= 2 * |s.tasks[r].msg| + 7 && k <= |reports| && Run(s, Goes(reports[..k]), true) && r < n
      && FinishedBy(After(s, Goes(reports[..k]), true), r, Asked(actions, 0, r))
  {
    var s0 := Initial(n);
    InitialInv(n);
    RunInv(s0, actions);
    var s := After(s0, actions, true);
    var r := s.running;
    CalledIsAsked(s0, actions, 0, true);
    assert TaskInv(s, r);
    var bound := 2 * |s.tasks[r].msg| + 7;
    hide Inv, Run, After;
    k := OwnSteps(s, reports[..bound]);
    assert reports[..bound][..k] == reports[..k];
    CalledIsAsked(s0, actions, r, true);
    AllOut(After(s, Goes(reports[..k]), true), r);
  }

  /** Task `r` is done, the buffer is free, and what has come out of it is `asked`. */
  predicate FinishedBy(t: State, r: nat, asked: seq<Text>) {
    r < |t.tasks| && t.tasks[r].pc == Idle && !t.bufLock && Of(t.sent, r) == asked
  }

  lemma AllOut(t: State, r: nat)
    requires Inv(t) && r < |t.tasks| && t.tasks[r].pc == Idle
    ensures Of(t.sent, r) == t.tasks[r].called
  {
    assert Of(t.sent, r) + t.tasks[r].Pending() == t.tasks[r].called;
  }

  /** Task 0 waits for the FIFO in the middle of "x" and is switched away; task 1 then finds the buffer taken. */
  function WaitingRun(): seq<Action> {
    [Call("x"), Go(0), Go(0), Go(0), Go(0), Switch(1), Call("y"), Go(0)]
  }

  /** The states that run goes through. */
  function WaitingState(k: nat): State {
    var a: Task := Task(if k < 1 then Idle else if k < 2 then Test else if k < 3 then Claim else if k < 4 then Fill
                        else if k < 5 then Poll else SendDelayed,
                        if k < 1 then [] else "x", 0, if k < 1 then [] else ["x"]);
    var b: Task := Task(if k < 7 then Idle else if k < 8 then Test else Delayed,
                        if k < 7 then [] else "y", 0, if k < 7 then [] else ["y"]);
    var blank := seq(BUFF_MAX_LEN, _ => '\0');
    State([a, b], if k < 6 then 0 else 1, k >= 3, if k < 4 then blank else "x" + ['\0'] + blank[2..], [], [])
  }

  lemma WaitingStep(k: nat)
    requires k < 8
    ensures Enabled(WaitingState(k), WaitingRun()[k], true)
    ensures Apply(WaitingState(k), WaitingRun()[k]) == WaitingState(k + 1)
  {
    var s, s' := Apply(WaitingState(k), WaitingRun()[k]), WaitingState(k + 1);
    assert s.tasks[0] == s'.tasks[0] && s.tasks[1] == s'.tasks[1];
    assert s.tasks == s'.tasks;
  }

  lemma {:induction false} WaitingFrom(k: nat)
    requires k <= 8
    ensures Run(WaitingState(k), WaitingRun()[k..], true)
    ensures After(WaitingState(k), WaitingRun()[k..], true) == WaitingState(8)
    decreases 8 - k
  {
    if k < 8 {
      hide WaitingState, Enabled, Apply, WaitingRun;
      WaitingStep(k);
      WaitingFrom(k + 1);
      assert WaitingRun()[k..][0] == WaitingRun()[k] && WaitingRun()[k..][1..] == WaitingRun()[k + 1..];
    }
  }

  /** Tasks do meet at the buffer: one can wait with a message half out while another waits for it to finish. */
  lemma WaitingArises()
    ensures Run(Initial(2), WaitingRun(), true)
    ensures var s := After(Initial(2), WaitingRun(), true);
      s.tasks[0].pc == SendDelayed && s.tasks[1].pc == Delayed && s.bufLock
  {
    WaitingFrom(0);
    assert WaitingRun()[0..] == WaitingRun();
    assert Initial(2).tasks == WaitingState(0).tasks;
    assert Initial(2) == WaitingState(0);
  }
}
