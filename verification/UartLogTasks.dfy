/**
 Any number of tasks printing through `s_vprintf` (niobeu4/liteos_m/hals/log/log.c). They share one buffer, guarded
 by the flag bufLock, which is tested in one step and set in another. Tasks are switched only where they wait in
 LOS_TaskDelay or outside the writer; `cooperative` states that assumption.
 */
module UartLogTasks {
  import opened UartLog

  const BUFF_MAX_LEN: nat := 512
  const SAFE_OFFSET: nat := 4

  /** Where a task stands; `Delayed` and `SendDelayed` are inside LOS_TaskDelay. */
  datatype Pc = Idle | Test | Delayed | Claim | Fill | Poll | SendDelayed | Release

  /** `msg` is the formatted text, `pos` how much of it is out, `called` everything this task has asked to print. */
  datatype Task = Task(pc: Pc, msg: Text, pos: nat, called: seq<Text>)
  {
    predicate Owns() { pc == Fill || pc == Poll || pc == SendDelayed || pc == Release }

    predicate Sending() { pc == Poll || pc == SendDelayed }

    /** Asked for and not yet out, completely. */
    function Pending(): seq<Text> {
      if pc == Idle || pc == Release || msg == [] then [] else [msg]
    }
  }

  datatype Sent = Sent(task: nat, msg: Text)

  /** `out` is the task-side character stream, `sent` the messages completed so far. */
  datatype State = State(tasks: seq<Task>, running: nat, bufLock: bool, buf: Text, out: Text, sent: seq<Sent>)

  datatype Action = Call(msg: Text) | Go(free: Space) | Switch(task: nat)

  function Initial(n: nat): State {
    State(seq(n, _ => Task(Idle, [], 0, [])), 0, false, seq(BUFF_MAX_LEN, _ => '\0'), [], [])
  }

  predicate Enabled(s: State, a: Action, cooperative: bool) {
    && s.running < |s.tasks| && |s.buf| == BUFF_MAX_LEN
    && match a
       case Call(msg) => s.tasks[s.running].pc == Idle && |msg| < BUFF_MAX_LEN - SAFE_OFFSET
       case Go(_) => s.tasks[s.running].pc != Idle && |s.tasks[s.running].msg| < BUFF_MAX_LEN - SAFE_OFFSET
                  && s.tasks[s.running].pos <= |s.tasks[s.running].msg|
       case Switch(u) => u < |s.tasks| && (cooperative ==> s.tasks[s.running].pc in {Idle, Delayed, SendDelayed})
  }

  /** The running task's next step; `free` is what the FIFO reports if the step polls it. */
  function Advance(s: State, free: Space): State
    requires Enabled(s, Go(free), false)
  {
    var t := s.tasks[s.running];
    match t.pc
    case Test => s.(tasks := s.tasks[s.running := t.(pc := if s.bufLock then Delayed else Claim)])
    case Delayed => s.(tasks := s.tasks[s.running := t.(pc := Test)])
    case Claim => s.(bufLock := true, tasks := s.tasks[s.running := t.(pc := Fill)])
    case Fill =>
      s.(buf := t.msg + ['\0'] + s.buf[|t.msg| + 1..],
         tasks := s.tasks[s.running := t.(pc := if |t.msg| > 0 then Poll else Release, pos := 0)])
    case Poll =>
      if free < |t.msg| - t.pos then
        s.(out := s.out + s.buf[t.pos..t.pos + free],
           tasks := s.tasks[s.running := t.(pc := if s.bufLock then SendDelayed else Poll, pos := t.pos + free)])
      else
        s.(out := s.out + s.buf[t.pos..|t.msg|], sent := s.sent + [Sent(s.running, t.msg)],
           tasks := s.tasks[s.running := t.(pc := Release)])
    case SendDelayed => s.(tasks := s.tasks[s.running := t.(pc := Poll)])
    case Release => s.(bufLock := false, tasks := s.tasks[s.running := t.(pc := Idle)])
    case Idle => s
  }

  function Apply(s: State, a: Action): State
    requires Enabled(s, a, false)
  {
    match a
    case Call(msg) =>
      var t := s.tasks[s.running];
      s.(tasks := s.tasks[s.running := Task(Test, msg, 0, if msg == [] then t.called else t.called + [msg])])
    case Go(free) => Advance(s, free)
    case Switch(u) => s.(running := u)
  }

  /** A run of actions from `s`, each enabled where it happens. */
  predicate Run(s: State, actions: seq<Action>, cooperative: bool)
    decreases |actions|
  {
    actions != [] ==>
      Enabled(s, actions[0], cooperative) && Run(Apply(s, actions[0]), actions[1..], cooperative)
  }

  function After(s: State, actions: seq<Action>, cooperative: bool): State
    requires Run(s, actions, cooperative)
    decreases |actions|
  {
    if actions == [] then s else After(Apply(s, actions[0]), actions[1..], cooperative)
  }

  function Concat(sent: seq<Sent>): Text {
    if sent == [] then [] else Concat(sent[..|sent| - 1]) + sent[|sent| - 1].msg
  }

  /** The messages of task `t` among `sent`. */
  function Of(sent: seq<Sent>, t: nat): seq<Text> {
    if sent == [] then []
    else Of(sent[..|sent| - 1], t) + (if sent[|sent| - 1].task == t then [sent[|sent| - 1].msg] else [])
  }

  ghost predicate OneOwner(s: State) {
    forall t, u :: 0 <= t < |s.tasks| && 0 <= u < |s.tasks| && s.tasks[t].Owns() && s.tasks[u].Owns() ==> t == u
  }

  /** The stream is the completed messages, followed by the part of its message a sending task has got out. */
  ghost predicate WholeMessages(s: State) {
    && (forall t :: 0 <= t < |s.tasks| && s.tasks[t].Sending() ==>
          s.tasks[t].pos <= |s.tasks[t].msg| && s.out == Concat(s.sent) + s.tasks[t].msg[..s.tasks[t].pos])
    && ((forall t :: 0 <= t < |s.tasks| ==> !s.tasks[t].Sending()) ==> s.out == Concat(s.sent))
  }

  /** Each task's messages come out in its order, none lost and none twice. */
  ghost predicate NothingLost(s: State) {
    forall t :: 0 <= t < |s.tasks| ==> Of(s.sent, t) + s.tasks[t].Pending() == s.tasks[t].called
  }

  ghost predicate TaskInv(s: State, t: nat)
    requires t < |s.tasks| && |s.buf| == BUFF_MAX_LEN
  {
    var k := s.tasks[t];
    && |k.msg| < BUFF_MAX_LEN - SAFE_OFFSET && k.pos <= |k.msg|
    && (k.Owns() ==> s.bufLock)
    && (k.pc == Claim ==> !s.bufLock)
    && (k.pc !in {Idle, Delayed, SendDelayed} ==> t == s.running)
    && (k.Sending() ==> k.pos < |k.msg| && s.buf[..|k.msg|] == k.msg)
  }

  ghost predicate Inv(s: State) {
    && s.running < |s.tasks| && |s.buf| == BUFF_MAX_LEN
    && (forall t :: 0 <= t < |s.tasks| ==> TaskInv(s, t))
    && (s.bufLock ==> exists t :: 0 <= t < |s.tasks| && s.tasks[t].Owns())
    && OneOwner(s) && WholeMessages(s) && NothingLost(s)
  }

  lemma InitialInv(n: nat)
    requires n > 0
    ensures Inv(Initial(n))
  {
    forall t | 0 <= t < n
      ensures TaskInv(Initial(n), t) && Of([], t) == []
    {
    }
  }

  lemma SentAppend(sent: seq<Sent>, x: Sent, t: nat)
    ensures Concat(sent + [x]) == Concat(sent) + x.msg
    ensures Of(sent + [x], t) == Of(sent, t) + (if x.task == t then [x.msg] else [])
  {
    assert (sent + [x])[..|sent|] == sent;
  }

  /** A task that neither owns the buffer nor is the running one is not looked at by a step of the running one. */
  lemma OthersKept(s: State, s': State, t: nat)
    requires Inv(s) && s'.running == s.running && |s'.tasks| == |s.tasks| && |s'.buf| == BUFF_MAX_LEN
    requires t < |s.tasks| && t != s.running && s'.tasks[t] == s.tasks[t]
    requires s'.bufLock == s.bufLock && (s.tasks[t].Sending() ==> s'.buf == s.buf)
    ensures TaskInv(s', t)
  {
    assert TaskInv(s, t);
  }

  /** Nothing is lost by a step that completes no message and starts none. */
  lemma PendingKept(s: State, s': State)
    requires NothingLost(s) && s'.sent == s.sent && |s'.tasks| == |s.tasks|
    requires forall t :: 0 <= t < |s.tasks| ==>
               s'.tasks[t].Pending() == s.tasks[t].Pending() && s'.tasks[t].called == s.tasks[t].called
    ensures NothingLost(s')
  {
    hide Of;
    forall t | 0 <= t < |s.tasks|
      ensures Of(s'.sent, t) + s'.tasks[t].Pending() == s'.tasks[t].called
    {
      assert Of(s.sent, t) + s.tasks[t].Pending() == s.tasks[t].called;
    }
  }

  /** What a waiting or resuming step does: only where the running task stands changes, and not whether it owns. */
  lemma QuietEntry(s: State, a: Action)
    requires Inv(s) && Enabled(s, a, true) && a.Go? && s.tasks[s.running].pc in {Test, Delayed, SendDelayed}
    ensures var s', r := Apply(s, a), s.running;
      && s' == s.(tasks := s.tasks[r := s.tasks[r].(pc := s'.tasks[r].pc)]) && TaskInv(s', r)
      && (s'.tasks[r].Sending() <==> s.tasks[r].Sending()) && (s'.tasks[r].Owns() <==> s.tasks[r].Owns())
      && s'.tasks[r].Pending() == s.tasks[r].Pending()
  {
    hide WholeMessages, NothingLost, OneOwner;
    assert TaskInv(s, s.running);
  }

  /** Steps that touch neither the buffer, the lock, the stream nor any ownership. */
  lemma QuietStep(s: State, a: Action)
    requires Inv(s) && Enabled(s, a, true) && a.Go? && s.tasks[s.running].pc in {Test, Delayed, SendDelayed}
    ensures Inv(Apply(s, a))
  {
    hide Apply, TaskInv, NothingLost, WholeMessages, OneOwner;
    var s', r := Apply(s, a), s.running;
    QuietEntry(s, a);
    forall t | 0 <= t < |s.tasks|
      ensures TaskInv(s', t)
    {
      if t != r { OthersKept(s, s', t); }
    }
    OwnersStay(s, s');
    PendingKept(s, s');
    StreamSame(s, s');
  }

  lemma OwnersStay(s: State, s': State)
    requires OneOwner(s) && OwnersSame(s, s') && s'.bufLock == s.bufLock
    requires s.bufLock ==> exists t :: 0 <= t < |s.tasks| && s.tasks[t].Owns()
    ensures OneOwner(s') && (s'.bufLock ==> exists t :: 0 <= t < |s'.tasks| && s'.tasks[t].Owns())
  {
    if s.bufLock {
      var t :| 0 <= t < |s.tasks| && s.tasks[t].Owns();
      assert s'.tasks[t].Owns();
    }
  }

  ghost predicate OwnersSame(s: State, s': State) {
    && |s'.tasks| == |s.tasks|
    && forall t :: 0 <= t < |s.tasks| ==> (s'.tasks[t].Owns() <==> s.tasks[t].Owns())
  }

  /** The stream invariant moves along when every task sends what it sent before. */
  lemma StreamSame(s: State, s': State)
    requires WholeMessages(s) && |s'.tasks| == |s.tasks| && s'.out == s.out && s'.sent == s.sent
    requires forall t :: 0 <= t < |s.tasks| ==>
               (s'.tasks[t].Sending() <==> s.tasks[t].Sending())
               && (s.tasks[t].Sending() ==> s'.tasks[t].msg == s.tasks[t].msg && s'.tasks[t].pos == s.tasks[t].pos)
    ensures WholeMessages(s')
  {
    forall t | 0 <= t < |s'.tasks| && s'.tasks[t].Sending()
      ensures s'.tasks[t].pos <= |s'.tasks[t].msg|
      ensures s'.out == Concat(s'.sent) + s'.tasks[t].msg[..s'.tasks[t].pos]
    {
      assert s.tasks[t].Sending();
    }
    if forall t :: 0 <= t < |s'.tasks| ==> !s'.tasks[t].Sending() {
      assert forall t :: 0 <= t < |s.tasks| ==> !s.tasks[t].Sending();
    }
  }

  lemma CallStep(s: State, a: Action)
    requires Inv(s) && Enabled(s, a, true) && a.Call?
    ensures Inv(Apply(s, a))
  {
    CallLosesNothing(s, a);
    CallEntry(s, a);
    hide Apply, TaskInv, NothingLost, WholeMessages, OneOwner;
    var s', r := Apply(s, a), s.running;
    forall t | 0 <= t < |s.tasks|
      ensures TaskInv(s', t)
    {
      if t != r { OthersKept(s, s', t); }
    }
    OwnersStay(s, s');
    StreamSame(s, s');
  }

  lemma CallEntry(s: State, a: Action)
    requires Inv(s) && Enabled(s, a, true) && a.Call?
    ensures var s', r := Apply(s, a), s.running;
      && s' == s.(tasks := s.tasks[r := s'.tasks[r]]) && TaskInv(s', r)
      && !s'.tasks[r].Owns() && !s.tasks[r].Owns()
  {
    hide WholeMessages, NothingLost, OneOwner;
    assert TaskInv(s, s.running);
  }

  lemma CallLosesNothing(s: State, a: Action)
    requires Inv(s) && Enabled(s, a, true) && a.Call?
    ensures NothingLost(Apply(s, a))
  {
    hide Of, WholeMessages, OneOwner, TaskInv;
    var s' := Apply(s, a);
    forall t | 0 <= t < |s.tasks|
      ensures Of(s'.sent, t) + s'.tasks[t].Pending() == s'.tasks[t].called
    {
      assert Of(s.sent, t) + s.tasks[t].Pending() == s.tasks[t].called;
    }
  }

  lemma SwitchStep(s: State, a: Action)
    requires Inv(s) && Enabled(s, a, true) && a.Switch?
    ensures Inv(Apply(s, a))
  {
    var s' := Apply(s, a);
    assert TaskInv(s, s.running);
    forall t | 0 <= t < |s.tasks|
      ensures TaskInv(s', t)
    {
      assert TaskInv(s, t);
    }
    assert OwnersSame(s, s');
    StreamSame(s, s');
  }

  /** Nobody but the running task owns the buffer when the running one is about to own it or owns it. */
  lemma SoleOwner(s: State, t: nat)
    requires Inv(s) && t < |s.tasks| && t != s.running
    requires s.tasks[s.running].pc == Claim || s.tasks[s.running].Owns()
    ensures !s.tasks[t].Owns()
  {
    assert TaskInv(s, s.running) && TaskInv(s, t);
  }

  lemma ClaimStep(s: State, a: Action)
    requires Inv(s) && Enabled(s, a, true) && a.Go? && s.tasks[s.running].pc == Claim
    ensures Inv(Apply(s, a))
  {
    hide Concat, NothingLost;
    var s', r := Apply(s, a), s.running;
    assert TaskInv(s, r);
    forall t | 0 <= t < |s.tasks|
      ensures TaskInv(s', t) && (t != r ==> !s'.tasks[t].Owns())
    {
      assert TaskInv(s, t);
      if t != r { SoleOwner(s, t); }
    }
    assert s'.tasks[r].Owns();
    PendingKept(s, s');
    StreamSame(s, s');
  }

  lemma FillStep(s: State, a: Action)
    requires Inv(s) && Enabled(s, a, true) && a.Go? && s.tasks[s.running].pc == Fill
    ensures Inv(Apply(s, a))
  {
    hide Concat, NothingLost;
    var s', r := Apply(s, a), s.running;
    assert TaskInv(s, r);
    forall t | 0 <= t < |s.tasks|
      ensures TaskInv(s', t) && !s.tasks[t].Sending() && (t != r ==> !s'.tasks[t].Owns())
    {
      assert TaskInv(s, t);
      if t != r { SoleOwner(s, t); }
    }
    assert s.out == Concat(s.sent);
    assert s'.tasks[r].Owns() && s'.tasks[r].msg[..s'.tasks[r].pos] == [];
    PendingKept(s, s');
  }

  /** The FIFO takes less than the rest of the message. */
  lemma PollStep(s: State, a: Action)
    requires Inv(s) && Enabled(s, a, true) && a.Go? && s.tasks[s.running].pc == Poll
    requires a.free < |s.tasks[s.running].msg| - s.tasks[s.running].pos
    ensures Inv(Apply(s, a))
  {
    var s', r, k := Apply(s, a), s.running, s.tasks[s.running];
    assert TaskInv(s, r) && k.Sending();
    PollStream(s, a);
    PollShape(s, a);
    hide NothingLost, Apply, Advance, Concat, Of;
    assert TaskInv(s', r);
    hide TaskInv, OneOwner;
    OwnerMoves(s, s');
    assert s'.tasks[r].Owns();
    PendingKept(s, s');
  }

  lemma PollStream(s: State, a: Action)
    requires Inv(s) && Enabled(s, a, true) && a.Go? && s.tasks[s.running].pc == Poll
    requires a.free < |s.tasks[s.running].msg| - s.tasks[s.running].pos
    ensures var k := s.tasks[s.running]; var s' := Apply(s, a);
      s'.sent == s.sent && s'.out == Concat(s.sent) + k.msg[..k.pos + a.free]
  {
    hide Concat, Of, NothingLost, OneOwner;
    var k := s.tasks[s.running];
    assert TaskInv(s, s.running) && k.Sending();
    BufferPart(s.buf, k.msg, k.pos, k.pos + a.free);
    Rejoin(Concat(s.sent), k.msg, k.pos, k.pos + a.free);
  }

  lemma LastPollLosesNothing(s: State, a: Action)
    requires Inv(s) && Enabled(s, a, true) && a.Go? && s.tasks[s.running].pc == Poll
    requires a.free >= |s.tasks[s.running].msg| - s.tasks[s.running].pos
    ensures NothingLost(Apply(s, a))
  {
    hide Concat, Of, OneOwner, WholeMessages;
    var s', r := Apply(s, a), s.running;
    assert TaskInv(s, r);
    forall t | 0 <= t < |s.tasks|
      ensures Of(s'.sent, t) + s'.tasks[t].Pending() == s'.tasks[t].called
    {
      SentAppend(s.sent, Sent(r, s.tasks[r].msg), t);
      assert Of(s.sent, t) + s.tasks[t].Pending() == s.tasks[t].called;
    }
  }

  lemma LastPollStream(s: State, a: Action)
    requires Inv(s) && Enabled(s, a, true) && a.Go? && s.tasks[s.running].pc == Poll
    requires a.free >= |s.tasks[s.running].msg| - s.tasks[s.running].pos
    ensures WholeMessages(Apply(s, a))
  {
    hide Concat, Of, NothingLost, OneOwner;
    var s', r, k := Apply(s, a), s.running, s.tasks[s.running];
    assert TaskInv(s, r) && k.Sending();
    BufferPart(s.buf, k.msg, k.pos, |k.msg|);
    assert k.msg[..|k.msg|] == k.msg;
    Rejoin(Concat(s.sent), k.msg, k.pos, |k.msg|);
    SentAppend(s.sent, Sent(r, k.msg), r);
    assert s'.out == Concat(s'.sent);
    forall t | 0 <= t < |s.tasks|
      ensures !s'.tasks[t].Sending()
    {
      if t != r { OtherDoesNotOwn(s, t); }
    }
  }

  /** The buffer holds the message, so a part of one is that part of the other. */
  lemma BufferPart(buf: Text, msg: Text, from: nat, to: nat)
    requires from <= to <= |msg| <= |buf| && buf[..|msg|] == msg
    ensures buf[from..to] == msg[from..to]
  {
    forall i | from <= i < to
      ensures buf[i] == msg[i]
    {
      assert buf[i] == buf[..|msg|][i];
    }
  }

  lemma Rejoin(before: Text, msg: Text, from: nat, to: nat)
    requires from <= to <= |msg|
    ensures (before + msg[..from]) + msg[from..to] == before + msg[..to]
  {
    assert msg[..from] + msg[from..to] == msg[..to];
  }

  /** The same as SoleOwner, for a running task that polls. */
  lemma OtherDoesNotOwn(s: State, t: nat)
    requires Inv(s) && t < |s.tasks| && t != s.running && s.tasks[s.running].pc == Poll
    ensures !s.tasks[t].Owns()
  {
    hide WholeMessages, NothingLost;
    SoleOwner(s, t);
  }

  /** What a polling step does to everything but the stream. */
  lemma PollShape(s: State, a: Action)
    requires Enabled(s, a, true) && a.Go? && s.tasks[s.running].pc == Poll
    ensures var s', k := Apply(s, a), s.tasks[s.running];
      && s'.running == s.running && s'.bufLock == s.bufLock && s'.buf == s.buf
      && s'.tasks == s.tasks[s.running :=
           if a.free < |k.msg| - k.pos
           then k.(pc := if s.bufLock then SendDelayed else Poll, pos := k.pos + a.free)
           else k.(pc := Release)]
  {
  }

  /** The owner keeps the buffer while its own entry moves on; nothing else of the tasks changes. */
  lemma OwnerMoves(s: State, s': State)
    requires Inv(s) && s.tasks[s.running].pc == Poll
    requires s'.running == s.running && s'.bufLock == s.bufLock && s'.buf == s.buf
    requires |s'.tasks| == |s.tasks| && s'.tasks[s.running].Owns() && TaskInv(s', s.running)
    requires forall t :: 0 <= t < |s.tasks| && t != s.running ==> s'.tasks[t] == s.tasks[t]
    ensures forall t :: 0 <= t < |s.tasks| ==> TaskInv(s', t)
    ensures OneOwner(s')
  {
    hide TaskInv, WholeMessages, NothingLost;
    forall t | 0 <= t < |s.tasks|
      ensures TaskInv(s', t) && (t != s.running ==> !s'.tasks[t].Owns())
    {
      if t != s.running {
        OthersKept(s, s', t);
        SoleOwner(s, t);
      }
    }
  }

  lemma LastPollEntry(s: State, a: Action)
    requires Inv(s) && Enabled(s, a, true) && a.Go? && s.tasks[s.running].pc == Poll
    requires a.free >= |s.tasks[s.running].msg| - s.tasks[s.running].pos
    ensures TaskInv(Apply(s, a), s.running) && Apply(s, a).tasks[s.running].Owns() && Apply(s, a).bufLock
  {
    hide WholeMessages, NothingLost, OneOwner;
    assert TaskInv(s, s.running);
    PollShape(s, a);
    hide Apply, Advance;
  }

  /** The FIFO takes the whole rest. */
  lemma LastPollStep(s: State, a: Action)
    requires Inv(s) && Enabled(s, a, true) && a.Go? && s.tasks[s.running].pc == Poll
    requires a.free >= |s.tasks[s.running].msg| - s.tasks[s.running].pos
    ensures Inv(Apply(s, a))
  {
    hide WholeMessages, NothingLost, OneOwner, TaskInv, Apply;
    LastPollLosesNothing(s, a);
    LastPollStream(s, a);
    LastPollEntry(s, a);
    PollShape(s, a);
    OwnerMoves(s, Apply(s, a));
  }

  lemma ReleaseStep(s: State, a: Action)
    requires Inv(s) && Enabled(s, a, true) && a.Go? && s.tasks[s.running].pc == Release
    ensures Inv(Apply(s, a))
  {
    var s', r := Apply(s, a), s.running;
    assert TaskInv(s, r);
    forall t | 0 <= t < |s.tasks|
      ensures TaskInv(s', t) && !s'.tasks[t].Owns()
    {
      assert TaskInv(s, t);
      if t != r { SoleOwner(s, t); }
    }
    PendingKept(s, s');
    StreamSame(s, s');
  }

  lemma StepInv(s: State, a: Action)
    requires Inv(s) && Enabled(s, a, true)
    ensures Inv(Apply(s, a))
  {
    hide Inv;
    match a
    case Call(_) => CallStep(s, a);
    case Switch(_) => SwitchStep(s, a);
    case Go(free) =>
      match s.tasks[s.running].pc
      case Claim => ClaimStep(s, a);
      case Fill => FillStep(s, a);
      case Poll =>
        if free < |s.tasks[s.running].msg| - s.tasks[s.running].pos {
          PollStep(s, a);
        } else {
          LastPollStep(s, a);
        }
      case Release => ReleaseStep(s, a);
      case _ => QuietStep(s, a);
  }

  lemma {:induction false} RunInv(s: State, actions: seq<Action>)
    requires Inv(s) && Run(s, actions, true)
    ensures Inv(After(s, actions, true))
    decreases |actions|
  {
    hide Inv;
    if actions != [] {
      StepInv(s, actions[0]);
      RunInv(Apply(s, actions[0]), actions[1..]);
    }
  }

  /**
   For any number of tasks, any messages, any FIFO reports and any switching at the allowed points: at most one task
   owns the shared buffer, the stream is whole messages plus a prefix of the owner's, and every task's messages come
   out complete, in the order it printed them.
   */
  lemma MessagesStayWhole(n: nat, actions: seq<Action>)
    requires n > 0 && Run(Initial(n), actions, true)
    ensures var s := After(Initial(n), actions, true);
      && OneOwner(s) && WholeMessages(s) && NothingLost(s)
      && (!s.bufLock ==> s.out == Concat(s.sent))
  {
    InitialInv(n);
    RunInv(Initial(n), actions);
    var s := After(Initial(n), actions, true);
    forall t | 0 <= t < |s.tasks| && !s.bufLock
      ensures !s.tasks[t].Sending()
    {
      assert TaskInv(s, t);
    }
  }

  /** The run in which a switch falls between the test of bufLock and its assignment. */
  function RacyRun(): seq<Action> {
    [Call("a"), Go(0), Switch(1), Call("b"), Go(0), Go(0), Switch(0), Go(0)]
  }

  /** The states that run goes through. */
  function RacyState(k: nat): State {
    var a: Task := Task(if k < 1 then Idle else if k < 2 then Test else if k < 8 then Claim else Fill,
                        if k < 1 then [] else "a", 0, if k < 1 then [] else ["a"]);
    var b: Task := Task(if k < 4 then Idle else if k < 5 then Test else if k < 6 then Claim else Fill,
                        if k < 4 then [] else "b", 0, if k < 4 then [] else ["b"]);
    State([a, b], if 3 <= k < 7 then 1 else 0, k >= 6, seq(BUFF_MAX_LEN, _ => '\0'), [], [])
  }

  lemma RacyStep(k: nat)
    requires k < 8
    ensures Enabled(RacyState(k), RacyRun()[k], false)
    ensures Apply(RacyState(k), RacyRun()[k]) == RacyState(k + 1)
  {
    var s, s' := Apply(RacyState(k), RacyRun()[k]), RacyState(k + 1);
    assert s.tasks[0] == s'.tasks[0] && s.tasks[1] == s'.tasks[1];
    assert s.tasks == s'.tasks;
  }

  lemma {:induction false} RacyFrom(k: nat)
    requires k <= 8
    ensures Run(RacyState(k), RacyRun()[k..], false)
    ensures After(RacyState(k), RacyRun()[k..], false) == RacyState(8)
    decreases 8 - k
  {
    if k < 8 {
      hide RacyState, Enabled, Apply, RacyRun;
      RacyStep(k);
      RacyFrom(k + 1);
      assert RacyRun()[k..][0] == RacyRun()[k] && RacyRun()[k..][1..] == RacyRun()[k + 1..];
    }
  }

  /** Without the cooperative assumption two tasks can own the buffer. */
  lemma SwitchBetweenTestAndSetBreaksIt()
    ensures exists actions :: Run(Initial(2), actions, false) && !OneOwner(After(Initial(2), actions, false))
  {
    RacyFrom(0);
    assert RacyRun()[0..] == RacyRun();
    var s, t := Initial(2), RacyState(0);
    assert s.tasks == t.tasks;
    assert RacyState(8).tasks[0].Owns() && RacyState(8).tasks[1].Owns();
    assert !OneOwner(After(Initial(2), RacyRun(), false));
  }
}
