/**
 * Requests that complete through an engine's map, and a group that waits for all of them. Steps are what runs between
 * two points where a thread may have to wait for a lock. A reply holds the engine's lock throughout, takes the
 * request's lock to complete it, and needs the group's lock to tell the group. Opening and detaching hold the group's
 * lock throughout; detaching takes a child's lock and, with it, the engine's.
 */
module RequestGroups {
  import opened StreamOutputs
  import opened Bytes

  type Value = nat

  predicate Final(state: EventState) {
    state.Success? || state.Error? || state.Timeout? || state.Cancel?
  }

  /** A request: the event state, its listener and engine fields, its result list, and where its completion stands. */
  datatype Request = Request(
    state: EventState,
    listening: bool,        // the group is its listener
    engine: bool,           // m_engine is set
    results: seq<Value>,
    bound: bool,            // in the engine's map
    reply: Progress         // where a reply to it, or clearAll, stands
  )

  datatype Progress =
    | Quiet                 // none is in progress
    | Entering              // the engine's lock is held, the request has yet to be completed
    | Firing                // the request's lock is held too, the listener has yet to be told
    | Leaving               // all done but taking the request out of the map

  /** How far detach has come with a child. */
  datatype Hold = Approaching | Unlistened | Locked

  datatype Wait = NotWaiting | Waiting(sinceOpen: bool) | Detaching(next: nat, hold: Hold) | Returned

  datatype State = State(
    reqs: seq<Request>,
    children: seq<nat>,       // the group's result list
    finished: nat,            // m_finishedRequests
    isOpen: bool,
    opening: Option<nat>,     // the child open looks at next
    looked: bool,             // open found that child unfinished and is about to set its listener
    state: EventState,        // the group's own event state
    signalled: bool,          // the last count was made by onEvent
    openedWith: Option<nat>,  // how many children open had counted when it returned
    wait: Wait
  )

  datatype Outcome = Reply(value: Value) | Clear

  datatype Step =
    | Bind(r: nat) | Add(r: nat)
    | OpenStart | OpenLook | OpenListen | OpenEnd
    | Begin(r: nat) | Finish(r: nat, how: Outcome) | Fire(r: nat) | Unbind(r: nat)
    | WaitStart | WaitWake(timedOut: bool) | DetachUnlisten | DetachLock | DetachChild | DetachEnd

  function Initial(n: nat): State {
    State(seq(n, _ => Request(Idle, false, true, [], false, Quiet)), [], 0, false, None, false, Idle, false, None,
        NotWaiting)
  }

  /** The group's lock is free. */
  predicate GroupFree(s: State) {
    s.opening.None? && !s.wait.Detaching?
  }

  /** Detach has arrived at an existing child, and come this far with it. */
  predicate At(s: State, hold: Hold) {
    s.wait.Detaching? && s.wait.hold == hold && s.wait.next < |s.children| && s.children[s.wait.next] < |s.reqs|
  }

  /** The child detach has arrived at. */
  function Child(s: State): Request
    requires s.wait.Detaching? && At(s, s.wait.hold)
  {
    s.reqs[s.children[s.wait.next]]
  }

  predicate Enabled(s: State, step: Step) {
    match step
    case Bind(r) => r < |s.reqs| && !s.reqs[r].bound && s.reqs[r].engine && s.reqs[r].state == Idle
    case Add(r) => GroupFree(s) && !s.isOpen && s.wait != Returned && r < |s.reqs| && r !in s.children
    case OpenStart => GroupFree(s) && !s.isOpen && s.wait != Returned
    case OpenLook => s.opening.Some? && !s.looked && s.opening.value < |s.children|
    case OpenListen => s.opening.Some? && s.looked && s.opening.value < |s.children|
    case OpenEnd => s.opening.Some? && !s.looked && s.opening.value == |s.children|
    case Begin(r) => r < |s.reqs| && s.reqs[r].bound && s.reqs[r].reply.Quiet?
    case Finish(r, _) => r < |s.reqs| && s.reqs[r].reply.Entering? && !(At(s, Locked) && s.children[s.wait.next] == r)
    case Fire(r) => GroupFree(s) && r < |s.reqs| && s.reqs[r].reply.Firing?
    case Unbind(r) => r < |s.reqs| && s.reqs[r].reply.Leaving?
    case WaitStart => GroupFree(s) && s.wait.NotWaiting?
    case WaitWake(_) => GroupFree(s) && s.wait.Waiting?
    case DetachUnlisten => At(s, Approaching) && !Child(s).reply.Firing?
    case DetachLock => At(s, Unlistened) && !Child(s).reply.Firing?
    case DetachChild => At(s, Locked) && (Child(s).engine ==> Child(s).reply.Quiet?)
    case DetachEnd => s.wait.Detaching? && s.wait.next == |s.children|
  }

  function SetReq(s: State, r: nat, q: Request): State
    requires r < |s.reqs|
  {
    s.(reqs := s.reqs[r := q])
  }

  /** The group's onEvent for a child that is final: count it, and succeed when all are counted. */
  function OnEvent(s: State): State {
    var t := s.(finished := s.finished + 1, signalled := true);
    if t.finished == |s.children| then t.(state := Success) else t
  }

  ghost predicate ChildrenOk(s: State) {
    forall i | 0 <= i < |s.children| :: s.children[i] < |s.reqs|
  }

  function Apply(s: State, step: Step): State
    requires Enabled(s, step) && ChildrenOk(s)
  {
    match step
    case Bind(r) => SetReq(s, r, s.reqs[r].(bound := true))
    case Add(r) => s.(children := s.children + [r])
    case OpenStart => s.(isOpen := true, opening := Some(0), looked := false)
    case OpenLook =>
      if Final(s.reqs[s.children[s.opening.value]].state)
      then s.(finished := s.finished + 1, signalled := false, opening := Some(s.opening.value + 1))
      else s.(looked := true)
    case OpenListen =>
      var r := s.children[s.opening.value];
      var t := SetReq(s, r, s.reqs[r].(listening := true)).(looked := false, opening := Some(s.opening.value + 1));
      if Final(s.reqs[r].state) then OnEvent(t) else t
    case OpenEnd => s.(opening := None, openedWith := Some(s.finished))
    case Begin(r) => SetReq(s, r, s.reqs[r].(reply := Entering))
    case Finish(r, how) =>
      var q := s.reqs[r];
      var done := match how
        case Reply(v) => q.(state := Success, results := q.results + [v])
        case Clear => q.(state := Cancel);
      SetReq(s, r, done.(engine := false, reply := if q.listening then Firing else Leaving))
    case Fire(r) => OnEvent(SetReq(s, r, s.reqs[r].(reply := Leaving)))
    case Unbind(r) => SetReq(s, r, s.reqs[r].(bound := false, reply := Quiet))
    case WaitStart =>
      if s.finished == |s.children| then s.(state := Success, wait := Detaching(0, Approaching))
      else if Final(s.state) then s.(wait := Detaching(0, Approaching))
      else s.(wait := Waiting(s.isOpen))
    case WaitWake(timedOut) =>
      if timedOut then s.(state := Timeout, wait := Detaching(0, Approaching))
      else if Final(s.state) then s.(wait := Detaching(0, Approaching))
      else s
    case DetachUnlisten =>
      SetReq(s, s.children[s.wait.next], Child(s).(listening := false)).(wait := Detaching(s.wait.next, Unlistened))
    case DetachLock => s.(wait := Detaching(s.wait.next, Locked))
    case DetachChild =>
      var q := Child(s).(engine := false, bound := Child(s).bound && !Child(s).engine, state := Cancel);
      SetReq(s, s.children[s.wait.next], q).(wait := Detaching(s.wait.next + 1, Approaching))
    case DetachEnd => s.(wait := Returned)
  }

  // ----- Counting -----

  /** How many children open has dealt with. */
  function Processed(s: State): nat {
    if !s.isOpen then 0 else match s.opening case None => |s.children| case Some(i) => i
  }

  /** The children that are final and about whom the group has been told. */
  ghost function Counted(s: State): set<nat>
    requires ChildrenOk(s)
  {
    set i: nat | i < |s.children| && IsCounted(s, i)
  }

  ghost predicate IsCounted(s: State, i: nat)
    requires ChildrenOk(s) && i < |s.children|
  {
    i < Processed(s) && Told(s.reqs[s.children[i]])
  }

  predicate Told(q: Request) {
    Final(q.state) && !q.reply.Firing?
  }

  ghost predicate Live(s: State) {
    s.wait.NotWaiting? || s.wait.Waiting?
  }

  /** A request has its engine until it is completed or let go of; a reply finds it in the map. */
  ghost predicate RequestOk(q: Request) {
    && (q.engine <==> q.state == Idle) && (q.engine || q.state == Success || q.state == Cancel)
    && (q.engine ==> q.results == []) && |q.results| <= 1 && (q.state == Success ==> q.results != [])
    && (q.reply.Entering? ==> q.bound && q.engine)
    && (q.reply.Firing? ==> q.bound && !q.engine && q.listening)
    && (q.reply.Leaving? ==> q.bound && !q.engine)
    && (q.bound && q.reply.Quiet? ==> q.engine)
  }

  ghost predicate Inv(s: State) {
    Core(s) && (Live(s) ==> LiveInv(s))
  }

  /** What holds whether or not the group has begun to detach. */
  ghost predicate Core(s: State) {
    && ChildrenOk(s)
    && (forall i, j | 0 <= i < j < |s.children| :: s.children[i] != s.children[j])
    && (forall r | 0 <= r < |s.reqs| :: RequestOk(s.reqs[r]))
    && (!s.isOpen ==> s.opening.None? && !s.looked)
    && (s.opening.Some? ==> s.opening.value <= |s.children| && !s.wait.Detaching? && s.wait != Returned)
    && (s.looked ==> s.opening.Some? && s.opening.value < |s.children|)
    && (s.wait.Detaching? ==>
          s.wait.next <= |s.children| && forall i | 0 <= i < s.wait.next :: LetGo(s.reqs[s.children[i]]))
    && (At(s, Unlistened) || At(s, Locked) ==> !Child(s).listening)
    && (s.wait.Detaching? && s.wait.next == |s.children| ==> s.wait.hold == Approaching)
    && (s.wait.Returned? ==> forall i | 0 <= i < |s.children| :: LetGo(s.reqs[s.children[i]]))
    && (forall r | 0 <= r < |s.reqs| && r !in s.children :: !s.reqs[r].listening)
    && (!Live(s) ==> s.state == Timeout || (s.state == Success && s.finished == |s.children| && AllFinal(s)))
  }

  /** Before detaching: who listens, what is counted, and when the group has succeeded. */
  ghost predicate LiveInv(s: State)
    requires ChildrenOk(s)
  {
    && (forall i | 0 <= i < Processed(s) && i < |s.children| ::
          Final(s.reqs[s.children[i]].state) || s.reqs[s.children[i]].listening)
    && (forall i | Processed(s) <= i < |s.children| :: !s.reqs[s.children[i]].listening)
    && s.finished == |Counted(s)|
    && s.state == (if s.finished == |s.children| && s.signalled then Success else Idle)
    && (s.signalled ==> s.isOpen)
    && (s.openedWith.Some? <==> s.isOpen && s.opening.None?)
    && (s.openedWith.Some? ==> s.openedWith.value <= s.finished && (s.openedWith.value < s.finished ==> s.signalled))
    && (s.wait == Waiting(true) ==> s.openedWith.Some? && s.openedWith.value < |s.children|)
  }

  /** A child the group has let go of: nobody listens, and only a reply already in progress can still find it. */
  ghost predicate LetGo(q: Request) {
    !q.listening && !q.engine && q.state == Cancel && (q.bound ==> q.reply.Leaving?)
  }

  lemma {:induction false} Bounded(S: set<nat>, n: nat)
    requires forall i | i in S :: i < n
    ensures |S| <= n
    ensures |S| == n ==> forall i: nat | i < n :: i in S
  {
    if n == 0 {
      assert S == {};
    } else if n - 1 in S {
      Bounded(S - {n - 1}, n - 1);
      assert S == (S - {n - 1}) + {n - 1};
    } else {
      Bounded(S, n - 1);
    }
  }

  /** The group never counts more children than open has dealt with; if it counts all, all are final. */
  lemma CountedBound(s: State)
    requires Inv(s) && Live(s)
    ensures s.finished <= Processed(s) <= |s.children|
    ensures s.finished == |s.children| ==> forall i: nat | i < |s.children| :: i in Counted(s)
  {
    Bounded(Counted(s), Processed(s));
  }

  lemma CountOne(s: State, t: State, i: nat)
    requires ChildrenOk(s) && ChildrenOk(t) && |s.children| == |t.children| && i < |s.children|
    requires forall j: nat | j < |s.children| && j != i :: IsCounted(t, j) == IsCounted(s, j)
    requires !IsCounted(s, i) && IsCounted(t, i)
    ensures |Counted(t)| == |Counted(s)| + 1
  {
    assert Counted(t) == Counted(s) + {i};
  }

  lemma BindKeepsInv(s: State, r: nat)
    requires Inv(s) && Enabled(s, Bind(r))
    ensures Inv(Apply(s, Bind(r)))
  {
    var t := Apply(s, Bind(r));
    assert Counted(t) == Counted(s);
  }

  lemma AddKeepsInv(s: State, r: nat)
    requires Inv(s) && Enabled(s, Add(r))
    ensures Inv(Apply(s, Add(r)))
  {
    var t := Apply(s, Add(r));
    assert Counted(t) == Counted(s);
    assert Counted(s) == {};
  }

  lemma BeginKeepsInv(s: State, r: nat)
    requires Inv(s) && Enabled(s, Begin(r))
    ensures Inv(Apply(s, Begin(r)))
  {
    BeginKeepsCore(s, r);
    if Live(s) {
      assert Counted(Apply(s, Begin(r))) == Counted(s);
    }
  }

  lemma BeginKeepsCore(s: State, r: nat)
    requires Inv(s) && Enabled(s, Begin(r))
    ensures Core(Apply(s, Begin(r)))
  {
  }

  lemma FinishKeepsInv(s: State, r: nat, how: Outcome)
    requires Inv(s) && Enabled(s, Finish(r, how))
    ensures Inv(Apply(s, Finish(r, how)))
  {
    FinishKeepsCore(s, r, how);
    var t := Apply(s, Finish(r, how));
    if Live(s) {
      forall i | i in Counted(t) ensures i in Counted(s) {}
      assert Counted(t) == Counted(s);
    }
  }

  lemma FinishKeepsCore(s: State, r: nat, how: Outcome)
    requires Inv(s) && Enabled(s, Finish(r, how))
    ensures Core(Apply(s, Finish(r, how)))
  {
  }

  lemma OpenStartKeepsInv(s: State)
    requires Inv(s) && Enabled(s, OpenStart)
    ensures Inv(Apply(s, OpenStart))
  {
    assert Counted(Apply(s, OpenStart)) == Counted(s);
  }

  lemma OpenLookKeepsInv(s: State)
    requires Inv(s) && Enabled(s, OpenLook)
    ensures Inv(Apply(s, OpenLook))
  {
    var t := Apply(s, OpenLook);
    var i := s.opening.value;
    CountedBound(s);
    if Final(s.reqs[s.children[i]].state) {
      CountOne(s, t, i);
    } else {
      assert Counted(t) == Counted(s);
    }
  }

  /** The child completed between open's look and its setListener: setListener tells the group itself. */
  lemma OpenListenFinalKeepsInv(s: State)
    requires Inv(s) && Enabled(s, OpenListen) && Final(s.reqs[s.children[s.opening.value]].state)
    ensures Inv(Apply(s, OpenListen))
  {
    var t := Apply(s, OpenListen);
    var i := s.opening.value;
    var r := s.children[i];
    CountedBound(s);
    assert t.reqs == s.reqs[r := s.reqs[r].(listening := true)];
    forall j: nat | j < |s.children| && j != i
      ensures t.reqs[t.children[j]] == s.reqs[s.children[j]]
    {
    }
    CountOne(s, t, i);
  }

  lemma OpenListenPendingKeepsInv(s: State)
    requires Inv(s) && Enabled(s, OpenListen) && !Final(s.reqs[s.children[s.opening.value]].state)
    ensures Inv(Apply(s, OpenListen))
  {
    var t := Apply(s, OpenListen);
    var i := s.opening.value;
    var r := s.children[i];
    CountedBound(s);
    assert t.reqs == s.reqs[r := s.reqs[r].(listening := true)];
    forall j: nat | j < |s.children| && j != i
      ensures t.reqs[t.children[j]] == s.reqs[s.children[j]]
    {
    }
    assert Counted(t) == Counted(s);
  }

  lemma OpenEndKeepsInv(s: State)
    requires Inv(s) && Enabled(s, OpenEnd)
    ensures Inv(Apply(s, OpenEnd))
  {
    assert Counted(Apply(s, OpenEnd)) == Counted(s);
  }

  lemma FireKeepsInv(s: State, r: nat)
    requires Inv(s) && Enabled(s, Fire(r))
    ensures Inv(Apply(s, Fire(r)))
  {
    FireKeepsCore(s, r);
    if Live(s) {
      FireKeepsLive(s, r);
    }
  }

  lemma FireKeepsCore(s: State, r: nat)
    requires Inv(s) && Enabled(s, Fire(r))
    ensures Core(Apply(s, Fire(r)))
  {
    assert Apply(s, Fire(r)).reqs == s.reqs[r := s.reqs[r].(reply := Leaving)];
  }

  lemma FireKeepsLive(s: State, r: nat)
    requires Inv(s) && Live(s) && Enabled(s, Fire(r)) && Core(Apply(s, Fire(r)))
    ensures LiveInv(Apply(s, Fire(r)))
  {
    var t := Apply(s, Fire(r));
    assert t.reqs == s.reqs[r := s.reqs[r].(reply := Leaving)];
    CountedBound(s);
    assert r in s.children;
    var i :| 0 <= i < |s.children| && s.children[i] == r;
    forall j: nat | j < |s.children| && j != i
      ensures t.reqs[t.children[j]] == s.reqs[s.children[j]]
    {
    }
    assert i !in Counted(s);
    CountOne(s, t, i);
  }

  lemma UnbindKeepsInv(s: State, r: nat)
    requires Inv(s) && Enabled(s, Unbind(r))
    ensures Inv(Apply(s, Unbind(r)))
  {
    UnbindKeepsCore(s, r);
    if Live(s) {
      assert Counted(Apply(s, Unbind(r))) == Counted(s);
    }
  }

  lemma UnbindKeepsCore(s: State, r: nat)
    requires Inv(s) && Enabled(s, Unbind(r))
    ensures Core(Apply(s, Unbind(r)))
  {
  }

  /** When all children are counted, all are final. */
  lemma CountedAreFinal(s: State)
    requires Inv(s) && Live(s) && s.finished == |s.children|
    ensures AllFinal(s)
  {
    CountedBound(s);
    forall i: nat | i < |s.children|
      ensures Final(s.reqs[s.children[i]].state)
    {
      assert i in Counted(s);
    }
  }

  lemma WaitKeepsInv(s: State, step: Step)
    requires Inv(s) && Enabled(s, step) && (step.WaitStart? || step.WaitWake?)
    ensures Inv(Apply(s, step))
  {
    if s.finished == |s.children| {
      CountedAreFinal(s);
    }
    CountedBound(s);
    WaitKeepsCore(s, step);
    var t := Apply(s, step);
    assert t.reqs == s.reqs && t.children == s.children && Processed(t) == Processed(s);
    if Live(t) {
      assert Counted(t) == Counted(s);
    }
  }

  lemma WaitKeepsCore(s: State, step: Step)
    requires Inv(s) && Enabled(s, step) && (step.WaitStart? || step.WaitWake?)
    requires s.finished == |s.children| ==> AllFinal(s)
    ensures Core(Apply(s, step))
  {
  }

  lemma DetachKeepsInv(s: State, step: Step)
    requires Inv(s) && Enabled(s, step) && IsDetach(step)
    ensures Inv(Apply(s, step))
  {
    if step.DetachChild? {
      LetGoKeepsInv(s);
    } else {
      ApproachKeepsInv(s, step);
    }
  }

  lemma LetGoKeepsInv(s: State)
    requires Inv(s) && Enabled(s, DetachChild)
    ensures Inv(Apply(s, DetachChild))
  {
    var r := s.children[s.wait.next];
    var t := Apply(s, DetachChild);
    assert forall k | 0 <= k < |s.reqs| && k != r :: t.reqs[k] == s.reqs[k];
  }

  lemma ApproachKeepsInv(s: State, step: Step)
    requires Inv(s) && Enabled(s, step) && (step.DetachUnlisten? || step.DetachLock? || step.DetachEnd?)
    ensures Inv(Apply(s, step))
  {
  }

  predicate IsDetach(step: Step) {
    step.DetachUnlisten? || step.DetachLock? || step.DetachChild? || step.DetachEnd?
  }

  lemma StepKeepsInv(s: State, step: Step)
    requires Inv(s) && Enabled(s, step)
    ensures Inv(Apply(s, step))
  {
    match step
    case Bind(r) => BindKeepsInv(s, r);
    case Add(r) => AddKeepsInv(s, r);
    case OpenStart => OpenStartKeepsInv(s);
    case OpenLook => OpenLookKeepsInv(s);
    case OpenListen =>
      if Final(s.reqs[s.children[s.opening.value]].state) {
        OpenListenFinalKeepsInv(s);
      } else {
        OpenListenPendingKeepsInv(s);
      }
    case OpenEnd => OpenEndKeepsInv(s);
    case Begin(r) => BeginKeepsInv(s, r);
    case Finish(r, how) => FinishKeepsInv(s, r, how);
    case Fire(r) => FireKeepsInv(s, r);
    case Unbind(r) => UnbindKeepsInv(s, r);
    case WaitStart => WaitKeepsInv(s, step);
    case WaitWake(_) => WaitKeepsInv(s, step);
    case DetachUnlisten => DetachKeepsInv(s, step);
    case DetachLock => DetachKeepsInv(s, step);
    case DetachChild => DetachKeepsInv(s, step);
    case DetachEnd => DetachKeepsInv(s, step);
  }

  // ----- Whole runs -----

  /** A step that is not possible is skipped. */
  ghost function Next(s: State, step: Step): State {
    if ChildrenOk(s) && Enabled(s, step) then Apply(s, step) else s
  }

  ghost function Execute(s: State, steps: seq<Step>): State
    decreases |steps|
  {
    if steps == [] then s else Execute(Next(s, steps[0]), steps[1..])
  }

  lemma {:induction false} ExecuteKeepsInv(s: State, steps: seq<Step>)
    requires Inv(s)
    ensures Inv(Execute(s, steps))
    decreases |steps|
  {
    if steps != [] {
      if Enabled(s, steps[0]) {
        StepKeepsInv(s, steps[0]);
      }
      ExecuteKeepsInv(Next(s, steps[0]), steps[1..]);
    }
  }

  lemma RunInv(n: nat, steps: seq<Step>)
    ensures Inv(Execute(Initial(n), steps))
  {
    InitialInv(n);
    ExecuteKeepsInv(Initial(n), steps);
  }

  lemma InitialInv(n: nat)
    ensures Inv(Initial(n))
  {
    assert Counted(Initial(n)) == {};
  }

  ghost predicate AllFinal(s: State)
    requires ChildrenOk(s)
  {
    forall i | 0 <= i < |s.children| :: Final(s.reqs[s.children[i]].state)
  }

  /** No completion is waiting to be told to the group. */
  ghost predicate Settled(s: State) {
    s.opening.None? && forall r | 0 <= r < |s.reqs| :: !s.reqs[r].reply.Firing?
  }

  /** The indices of the children in a final state. */
  ghost function FinalChildren(s: State): set<nat>
    requires ChildrenOk(s)
  {
    set i: nat | i < |s.children| && Final(s.reqs[s.children[i]].state)
  }

  /**
   * Group completion, in every run: the finished counter never exceeds the number of final children; once open has
   * returned and no completion is on its way it equals it. The group is in state Success only when all its children
   * are final; and when they are and no completion is on its way, it is in state Success exactly when the last count
   * was made by onEvent, which is so if open returned before it had counted them all.
   */
  lemma GroupCompletion(n: nat, steps: seq<Step>)
    ensures var s := Execute(Initial(n), steps);
            ChildrenOk(s) && (Live(s) ==>
              && s.finished <= |FinalChildren(s)|
              && (s.isOpen && Settled(s) ==> s.finished == |FinalChildren(s)|)
              && (s.state == Success ==> s.isOpen && AllFinal(s))
              && (s.isOpen && Settled(s) && AllFinal(s) ==> (s.state == Success <==> s.signalled))
              && (s.isOpen && Settled(s) && AllFinal(s) ==>
                    s.openedWith.Some? && (s.openedWith.value < |s.children| ==> s.state == Success)))
  {
    RunInv(n, steps);
    var s := Execute(Initial(n), steps);
    if Live(s) {
      assert Counted(s) <= FinalChildren(s);
      Smaller(Counted(s), FinalChildren(s));
      if s.isOpen && Settled(s) {
        assert Counted(s) == FinalChildren(s);
      }
      if s.isOpen && Settled(s) && AllFinal(s) {
        AllCounted(s);
      }
      if s.state == Success {
        CountedBound(s);
        forall i: nat | i < |s.children|
          ensures Final(s.reqs[s.children[i]].state)
        {
          assert i in Counted(s);
        }
      }
    }
  }

  // ----- Outcomes -----

  /** Whether a run contains a wait that times out. */
  ghost predicate TimesOut(s: State, steps: seq<Step>)
    decreases |steps|
  {
    steps != [] &&
    ((ChildrenOk(s) && Enabled(s, steps[0]) && steps[0] == WaitWake(true)) || TimesOut(Next(s, steps[0]), steps[1..]))
  }

  lemma StepTimesOut(s: State, step: Step)
    requires Inv(s) && Enabled(s, step)
    ensures Apply(s, step).state == Timeout <==> s.state == Timeout || step == WaitWake(true)
  {
  }

  lemma {:induction false} TimeoutExactly(s: State, steps: seq<Step>)
    requires Inv(s)
    ensures Inv(Execute(s, steps))
    ensures Execute(s, steps).state == Timeout <==> s.state == Timeout || TimesOut(s, steps)
    decreases |steps|
  {
    if steps != [] {
      if Enabled(s, steps[0]) {
        StepKeepsInv(s, steps[0]);
        StepTimesOut(s, steps[0]);
      }
      TimeoutExactly(Next(s, steps[0]), steps[1..]);
    }
  }

  /**
   * How a wait ends, in every run: once the group is detaching or has returned, its state is Timeout if the wait timed
   * out; otherwise it is Success, every child was counted, and all are final.
   */
  lemma WaitOutcome(n: nat, steps: seq<Step>)
    ensures var s := Execute(Initial(n), steps);
      && ChildrenOk(s)
      && (s.state == Timeout <==> TimesOut(Initial(n), steps))
      && (s.wait.Detaching? || s.wait.Returned? ==>
            if TimesOut(Initial(n), steps) then s.state == Timeout
            else s.state == Success && s.finished == |s.children| && AllFinal(s))
  {
    InitialInv(n);
    TimeoutExactly(Initial(n), steps);
  }

  /** When a waiting thread leaves its wait: at once if all children are counted, later at success or on timeout. */
  lemma WaitLeaves(s: State, step: Step)
    requires Inv(s) && Enabled(s, step) && (step.WaitStart? || step.WaitWake?)
    ensures var t := Apply(s, step);
      && (step.WaitStart? ==> (t.wait.Detaching? <==> s.finished == |s.children|))
      && (step.WaitWake? ==> (t.wait.Detaching? <==> step.timedOut || s.state == Success))
      && (!t.wait.Detaching? ==> t.wait.Waiting?)
  {
  }

  /** The reply that reaches a request in a step. */
  ghost function Answer(s: State, step: Step, r: nat): seq<Value> {
    if ChildrenOk(s) && Enabled(s, step) && step.Finish? && step.r == r && step.how.Reply? then [step.how.value] else []
  }

  /** The replies that reach a request in a run. */
  ghost function Answers(s: State, steps: seq<Step>, r: nat): seq<Value>
    decreases |steps|
  {
    if steps == [] then [] else Answer(s, steps[0], r) + Answers(Next(s, steps[0]), steps[1..], r)
  }

  /** Only completing a request, or letting go of it, changes its state or its results. */
  lemma StepElsewhere(s: State, step: Step, r: nat)
    requires ChildrenOk(s) && Enabled(s, step) && r < |s.reqs| && !step.Finish? && !step.DetachChild?
    ensures var t := Apply(s, step);
      && |t.reqs| == |s.reqs| && t.reqs[r].results == s.reqs[r].results && t.reqs[r].state == s.reqs[r].state
      && s.children <= t.children && (!Live(s) ==> !Live(t))
  {
  }

  lemma StepAnswers(s: State, step: Step, r: nat)
    requires Inv(s) && Enabled(s, step) && r < |s.reqs|
    ensures |Apply(s, step).reqs| == |s.reqs|
    ensures Apply(s, step).reqs[r].results == s.reqs[r].results + Answer(s, step, r)
  {
    if !step.Finish? && !step.DetachChild? {
      StepElsewhere(s, step, r);
    }
  }

  lemma {:induction false} ResultsAreAnswers(s: State, steps: seq<Step>, r: nat)
    requires Inv(s) && r < |s.reqs|
    ensures var t := Execute(s, steps);
            Inv(t) && |t.reqs| == |s.reqs| && t.reqs[r].results == s.reqs[r].results + Answers(s, steps, r)
    decreases |steps|
  {
    if steps != [] {
      var first := Answer(s, steps[0], r);
      if Enabled(s, steps[0]) {
        StepKeepsInv(s, steps[0]);
        StepAnswers(s, steps[0], r);
      }
      var t := Next(s, steps[0]);
      assert t.reqs[r].results == s.reqs[r].results + first;
      ResultsAreAnswers(t, steps[1..], r);
      Assoc(s.reqs[r].results, first, Answers(t, steps[1..], r));
    }
  }

  /**
   * What becomes of a request, in every run: it holds exactly the replies that reached it, at most one; it is in state
   * Success only with a reply, and in state Cancel if it was cleared, or let go of by a group that is done waiting.
   */
  lemma RequestOutcome(n: nat, steps: seq<Step>, r: nat)
    requires r < n
    ensures var s := Execute(Initial(n), steps);
      && |s.reqs| == n && s.reqs[r].results == Answers(Initial(n), steps, r) && |s.reqs[r].results| <= 1
      && (s.reqs[r].state == Idle || s.reqs[r].state == Success || s.reqs[r].state == Cancel)
      && (s.reqs[r].state == Success ==> s.reqs[r].results != [])
      && (s.reqs[r].state == Idle ==> s.reqs[r].results == [])
      && (s.reqs[r].state == Cancel && s.reqs[r].results != [] ==> r in s.children && !Live(s))
  {
    InitialInv(n);
    ResultsAreAnswers(Initial(n), steps, r);
    CancelledLate(Initial(n), steps, r);
    assert Initial(n).reqs[r].results + Answers(Initial(n), steps, r) == Answers(Initial(n), steps, r);
  }

  /** A request that was answered is cancelled only by a group letting go of it. */
  ghost predicate LateCancel(s: State, r: nat)
    requires r < |s.reqs|
  {
    s.reqs[r].state == Cancel && s.reqs[r].results != [] ==> r in s.children && !Live(s)
  }

  lemma StepCancels(s: State, step: Step, r: nat)
    requires Inv(s) && Enabled(s, step) && r < |s.reqs| && LateCancel(s, r)
    ensures |Apply(s, step).reqs| == |s.reqs| && LateCancel(Apply(s, step), r)
  {
    if !step.Finish? && !step.DetachChild? {
      StepElsewhere(s, step, r);
      assert forall i | 0 <= i < |s.children| :: Apply(s, step).children[i] == s.children[i];
    } else if step.Finish? {
      FinishCancels(s, step.r, step.how, r);
    }
  }

  lemma FinishCancels(s: State, k: nat, how: Outcome, r: nat)
    requires Inv(s) && Enabled(s, Finish(k, how)) && r < |s.reqs| && LateCancel(s, r)
    ensures LateCancel(Apply(s, Finish(k, how)), r)
  {
  }

  lemma {:induction false} CancelledLate(s: State, steps: seq<Step>, r: nat)
    requires Inv(s) && r < |s.reqs| && LateCancel(s, r)
    ensures |Execute(s, steps).reqs| == |s.reqs| && LateCancel(Execute(s, steps), r)
    decreases |steps|
  {
    if steps != [] {
      if Enabled(s, steps[0]) {
        StepKeepsInv(s, steps[0]);
        StepCancels(s, steps[0], r);
      }
      CancelledLate(Next(s, steps[0]), steps[1..], r);
    }
  }

  /** A reply to a request that is not completed yet can always run to its end while no one holds the group's lock. */
  lemma ReplyLands(s: State, r: nat, v: Value) returns (steps: seq<Step>)
    requires Inv(s) && GroupFree(s) && r < |s.reqs| && s.reqs[r].engine && s.reqs[r].reply.Quiet?
    ensures var t := Execute(s, steps);
      && |t.reqs| == |s.reqs| && t.reqs[r].state == Success && t.reqs[r].results == [v]
      && !t.reqs[r].bound && t.reqs[r].reply.Quiet? && t.children == s.children
      && t.finished == s.finished + if s.reqs[r].listening then 1 else 0
  {
    if s.reqs[r].bound {
      steps := BoundReplyLands(s, r, v);
    } else {
      var t := Next(s, Bind(r));
      var rest := BoundReplyLands(t, r, v);
      Chain(s, Bind(r), rest);
      steps := [Bind(r)] + rest;
    }
  }

  lemma BoundReplyLands(s: State, r: nat, v: Value) returns (steps: seq<Step>)
    requires ChildrenOk(s) && GroupFree(s) && r < |s.reqs| && s.reqs[r].bound && s.reqs[r].reply.Quiet?
    requires s.reqs[r].results == []
    ensures var t := Execute(s, steps);
      && |t.reqs| == |s.reqs| && t.reqs[r].state == Success && t.reqs[r].results == [v]
      && !t.reqs[r].bound && t.reqs[r].reply.Quiet? && t.children == s.children
      && t.finished == s.finished + if s.reqs[r].listening then 1 else 0
  {
    var t := Next(s, Begin(r));
    var rest := CompletionLands(t, r, v);
    Chain(s, Begin(r), rest);
    steps := [Begin(r)] + rest;
  }

  lemma Chain(s: State, step: Step, rest: seq<Step>)
    ensures Execute(s, [step] + rest) == Execute(Next(s, step), rest)
  {
    assert ([step] + rest)[1..] == rest;
  }

  lemma CompletionLands(s: State, r: nat, v: Value) returns (steps: seq<Step>)
    requires ChildrenOk(s) && GroupFree(s) && r < |s.reqs| && s.reqs[r].reply.Entering? && s.reqs[r].results == []
    ensures var t := Execute(s, steps);
      && |t.reqs| == |s.reqs| && t.reqs[r].state == Success && t.reqs[r].results == [v]
      && !t.reqs[r].bound && t.reqs[r].reply.Quiet? && t.children == s.children
      && t.finished == s.finished + if s.reqs[r].listening then 1 else 0
  {
    var t := Next(s, Finish(r, Reply(v)));
    assert [] + [v] == [v];
    var rest;
    if s.reqs[r].listening {
      rest := TellingLands(t, r);
    } else {
      Chain(t, Unbind(r), []);
      rest := [Unbind(r)] + [];
    }
    Chain(s, Finish(r, Reply(v)), rest);
    steps := [Finish(r, Reply(v))] + rest;
  }

  lemma TellingLands(s: State, r: nat) returns (steps: seq<Step>)
    requires ChildrenOk(s) && GroupFree(s) && r < |s.reqs| && s.reqs[r].reply.Firing?
    ensures var t := Execute(s, steps);
      && |t.reqs| == |s.reqs| && t.reqs[r] == s.reqs[r].(bound := false, reply := Quiet)
      && t.children == s.children && t.finished == s.finished + 1
  {
    var u := Next(s, Fire(r));
    Chain(u, Unbind(r), []);
    Chain(s, Fire(r), [Unbind(r)] + []);
    steps := [Fire(r)] + ([Unbind(r)] + []);
  }

  function OpenStep(s: State): Step
    requires s.opening.Some?
  {
    if s.opening.value == |s.children| then OpenEnd else if s.looked then OpenListen else OpenLook
  }

  /** The opening thread never has to wait, and gets on with every step. */
  lemma OpenTurn(s: State)
    requires Inv(s) && s.opening.Some?
    ensures Enabled(s, OpenStep(s))
    ensures var t := Apply(s, OpenStep(s));
      && t.children == s.children && t.isOpen
      && (t.opening.Some? ==> t.opening.value > s.opening.value || (t.opening == s.opening && !s.looked && t.looked))
      && (t.opening.None? ==> OpenStep(s) == OpenEnd)
  {
  }

  /** Opening can always run to its end: every child is counted, or listened to. */
  lemma {:induction false} OpenReturns(s: State) returns (steps: seq<Step>)
    requires Inv(s) && s.opening.Some?
    ensures var t := Execute(s, steps);
      && Inv(t) && t.isOpen && t.opening == None && t.children == s.children
      && forall i | 0 <= i < |t.children| ::
           Final(t.reqs[t.children[i]].state) || t.reqs[t.children[i]].listening
    decreases |s.children| - s.opening.value, !s.looked
  {
    var step := OpenStep(s);
    OpenTurn(s);
    StepKeepsInv(s, step);
    var t := Next(s, step);
    if step == OpenEnd {
      Chain(s, step, []);
      steps := [step] + [];
    } else {
      var rest := OpenReturns(t);
      Chain(s, step, rest);
      steps := [step] + rest;
    }
  }

  lemma Smaller(a: set<nat>, b: set<nat>)
    requires a <= b
    ensures |a| <= |b|
  {
    assert b == a + (b - a);
  }

  /**
   * No missed wake-up: a thread that began waiting after open returned finds the group in state Success as soon as
   * all children are final and no completion is on its way.
   */
  lemma NoMissedWakeUp(n: nat, steps: seq<Step>)
    ensures var s := Execute(Initial(n), steps);
            ChildrenOk(s) && (s.wait == Waiting(true) && AllFinal(s) && Settled(s) ==> s.state == Success)
  {
    GroupCompletion(n, steps);
    RunInv(n, steps);
  }

  lemma AllCounted(s: State)
    requires Inv(s) && Live(s) && s.isOpen && Settled(s) && AllFinal(s)
    ensures s.finished == |s.children|
  {
    assert forall i: nat | i < |s.children| :: i in Counted(s);
    Full(Counted(s), |s.children|);
    CountedBound(s);
  }

  lemma {:induction false} Full(S: set<nat>, n: nat)
    requires forall i: nat | i < n :: i in S
    ensures |S| >= n
  {
    if n > 0 {
      Full(S - {n - 1}, n - 1);
    }
  }

  ghost predicate Reachable(n: nat, s: State) {
    exists steps :: Execute(Initial(n), steps) == s
  }

  lemma ReachInitial(n: nat)
    ensures Reachable(n, Initial(n))
  {
    assert Execute(Initial(n), []) == Initial(n);
  }

  lemma {:induction false} ExecuteSnoc(s: State, steps: seq<Step>, step: Step)
    ensures Execute(s, steps + [step]) == Next(Execute(s, steps), step)
    decreases |steps|
  {
    if steps == [] {
      assert steps + [step] == [step] && [step][1..] == [];
    } else {
      assert (steps + [step])[1..] == steps[1..] + [step];
      ExecuteSnoc(Next(s, steps[0]), steps[1..], step);
    }
  }

  lemma Reach(n: nat, s: State, step: Step, t: State)
    requires Reachable(n, s) && ChildrenOk(s) && Enabled(s, step) && Apply(s, step) == t
    ensures Reachable(n, t)
  {
    var steps :| Execute(Initial(n), steps) == s;
    ExecuteSnoc(Initial(n), steps, step);
  }

  /** One request, waiting for a reply, in a group that is not open yet. */
  function OneChild(q: Request): State {
    Initial(1).(reqs := [q], children := [0])
  }

  const Asked := Request(Idle, false, true, [], true, Quiet)
  const Answered := Request(Success, false, false, [5], false, Quiet)

  lemma ReachOneChild()
    ensures Reachable(1, OneChild(Asked))
  {
    ReachInitial(1);
    var s1 := Initial(1).(reqs := [Asked]);
    Reach(1, Initial(1), Bind(0), s1);
    Reach(1, s1, Add(0), OneChild(Asked));
  }

  lemma ReachAnswered()
    ensures Reachable(1, OneChild(Answered).(wait := Waiting(false)))
  {
    ReachOneChild();
    var s3 := OneChild(Asked).(wait := Waiting(false));
    Reach(1, OneChild(Asked), WaitStart, s3);
    assert Asked.results + [5] == [5];
    var s4 := s3.(reqs := [Asked.(reply := Entering)]);
    Reach(1, s3, Begin(0), s4);
    var s5 := s3.(reqs := [Answered.(bound := true, reply := Leaving)]);
    Reach(1, s4, Finish(0, Reply(5)), s5);
    Reach(1, s5, Unbind(0), s3.(reqs := [Answered]));
  }

  /**
   * A thread that waits before open can miss it: open counts a child that is already final without signalling, so
   * the thread sleeps although every child is final.
   */
  lemma WaitBeforeOpenSleeps() returns (s: State)
    ensures Reachable(1, s) && ChildrenOk(s)
    ensures s.wait == Waiting(false) && AllFinal(s) && Settled(s) && s.finished == |s.children| &&
        s.state == Idle && !s.signalled
  {
    ReachAnswered();
    var s5 := OneChild(Answered).(wait := Waiting(false));
    var s6 := s5.(isOpen := true, opening := Some(0));
    var s7 := s6.(finished := 1, opening := Some(1));
    s := s7.(opening := None, openedWith := Some(1));
    Reach(1, s5, OpenStart, s6);
    Reach(1, s6, OpenLook, s7);
    Reach(1, s7, OpenEnd, s);
  }

  /**
   * No late effects: once the group's wait has returned, by success or by timeout, no child listens any more and no
   * reply can reach one except a reply that was already in progress, however the run continues.
   */
  lemma NoLateEffects(n: nat, steps: seq<Step>, i: nat)
    ensures var s := Execute(Initial(n), steps);
            ChildrenOk(s) && (s.wait.Returned? && i < |s.children| ==>
              && !s.reqs[s.children[i]].listening && s.reqs[s.children[i]].state == Cancel
              && !Enabled(s, Begin(s.children[i]))
              && (forall how :: !Enabled(s, Finish(s.children[i], how)))
              && !Enabled(s, Bind(s.children[i])))
  {
    RunInv(n, steps);
  }

  lemma ReachListening()
    ensures Reachable(1, OneChild(Asked.(listening := true)).(isOpen := true, openedWith := Some(0)))
  {
    ReachOneChild();
    var s3 := OneChild(Asked).(isOpen := true, opening := Some(0));
    var s4 := s3.(looked := true);
    var s5 := OneChild(Asked.(listening := true)).(isOpen := true, opening := Some(1));
    Reach(1, OneChild(Asked), OpenStart, s3);
    Reach(1, s3, OpenLook, s4);
    Reach(1, s4, OpenListen, s5);
    Reach(1, s5, OpenEnd, s5.(opening := None, openedWith := Some(0)));
  }

  // ----- When detaching returns -----

  /**
   * A child yet to be let go of has a completion on its way, which waits for the group's lock; or detach holds a
   * child's lock and waits for the engine's, which a reply holds that waits for the child's.
   */
  ghost predicate Doomed(s: State)
    requires ChildrenOk(s)
  {
    && s.wait.Detaching?
    && ((exists i | s.wait.next <= i < |s.children| :: s.reqs[s.children[i]].reply.Firing?)
        || (At(s, Locked) && Child(s).reply.Entering?))
  }

  /** A child yet to be let go of has not been completed, or its completion is on its way. */
  ghost predicate Threatened(s: State)
    requires ChildrenOk(s)
  {
    s.wait.Detaching? && exists i | s.wait.next <= i < |s.children| :: Pending(s.reqs[s.children[i]])
  }

  predicate Pending(q: Request) {
    q.engine || q.reply.Firing?
  }

  /**
   * Detaching takes a child's lock while holding the group's; a completing child takes them the other way round.
   * A timeout that strikes while a completion is on its way therefore stops both: neither can take another step.
   */
  lemma TimeoutCanDeadlock() returns (s: State)
    ensures Reachable(1, s) && ChildrenOk(s) && Doomed(s)
    ensures forall step :: !Enabled(s, step)
  {
    ReachFiring();
    var s9 := Fired();
    s := s9.(state := Timeout, wait := Detaching(0, Approaching));
    Reach(1, s9, WaitWake(true), s);
    assert s.reqs[s.children[0]].reply.Firing?;
  }

  /** A waiting group whose one child has a completion on its way. */
  function Fired(): State {
    OneChild(Request(Success, true, false, [5], true, Firing)).(isOpen := true, openedWith := Some(0),
        wait := Waiting(true))
  }

  lemma ReachFiring()
    ensures Reachable(1, Fired())
  {
    ReachListening();
    var s6 := OneChild(Asked.(listening := true)).(isOpen := true, openedWith := Some(0));
    var s7 := s6.(wait := Waiting(true));
    Reach(1, s6, WaitStart, s7);
    var s8 := s7.(reqs := [Asked.(listening := true, reply := Entering)]);
    Reach(1, s7, Begin(0), s8);
    assert Asked.results + [5] == [5];
    Reach(1, s8, Finish(0, Reply(5)), Fired());
  }

  /** Once doomed, the wait never returns, whatever the other threads do. */
  lemma {:induction false} BlockedForever(s: State, steps: seq<Step>)
    requires Inv(s) && Doomed(s)
    ensures Inv(Execute(s, steps)) && Doomed(Execute(s, steps))
    decreases |steps|
  {
    if steps != [] {
      var t := Next(s, steps[0]);
      if Enabled(s, steps[0]) {
        StepKeepsInv(s, steps[0]);
        BlockedStep(s, steps[0]);
      }
      BlockedForever(t, steps[1..]);
    }
  }

  lemma BlockedStep(s: State, step: Step)
    requires Inv(s) && Doomed(s) && Enabled(s, step) && Inv(Apply(s, step))
    ensures Doomed(Apply(s, step))
  {
    var t := Apply(s, step);
    if i: int :| s.wait.next <= i < |s.children| && s.reqs[s.children[i]].reply.Firing? {
      assert t.children == s.children && t.reqs[t.children[i]].reply.Firing?;
    }
  }

  /** What the detaching thread does next. */
  function DetachStep(s: State): Step
    requires s.wait.Detaching?
  {
    if s.wait.next >= |s.children| then DetachEnd
    else match s.wait.hold
      case Approaching => DetachUnlisten
      case Unlistened => DetachLock
      case Locked => DetachChild
  }

  function Taken(hold: Hold): nat {
    match hold case Approaching => 0 case Unlistened => 1 case Locked => 2
  }

  /** How many steps detach has yet to take. */
  function DetachWork(s: State): nat {
    if !s.wait.Detaching? || s.wait.next > |s.children| then 0
    else if s.wait.next == |s.children| then 1
    else 3 * (|s.children| - s.wait.next) + 1 - Taken(s.wait.hold)
  }

  /** How many of these steps a run contains. */
  ghost function Turns(s: State, steps: seq<Step>): nat
    decreases |steps|
  {
    if steps == [] then 0
    else (if s.wait.Detaching? && steps[0] == DetachStep(s) then 1 else 0) + Turns(Next(s, steps[0]), steps[1..])
  }

  /** With no child threatened, detach never has to wait. */
  lemma SafeTurn(s: State)
    requires Inv(s) && s.wait.Detaching? && !Threatened(s)
    ensures Enabled(s, DetachStep(s))
  {
    if s.wait.next < |s.children| {
      assert !Pending(s.reqs[s.children[s.wait.next]]);
    }
  }

  /** No step threatens a child anew, and only detach's own steps change what it has left to do. */
  lemma SafeStep(s: State, step: Step)
    requires Inv(s) && s.wait.Detaching? && !Threatened(s) && Enabled(s, step) && Inv(Apply(s, step))
    ensures var t := Apply(s, step);
      && (t.wait.Returned? || (t.wait.Detaching? && !Threatened(t)))
      && DetachWork(t) + (if step == DetachStep(s) then 1 else 0) == DetachWork(s)
  {
    var t := Apply(s, step);
    assert t.children == s.children;
    forall i | 0 <= i < |s.children| && !Pending(s.reqs[s.children[i]])
      ensures !Pending(t.reqs[t.children[i]])
    {
      NeverPendingAgain(s, step, s.children[i]);
    }
  }

  lemma NeverPendingAgain(s: State, step: Step, r: nat)
    requires Inv(s) && Enabled(s, step) && r < |s.reqs| && !Pending(s.reqs[r])
    ensures !Pending(Apply(s, step).reqs[r])
  {
  }

  /**
   * When no child yet to be let go of is threatened, detach returns under every continuation: it never has to wait,
   * and it is through after as many turns as it has steps left.
   */
  lemma {:induction false} DetachReturns(s: State, steps: seq<Step>)
    requires Inv(s) && (s.wait.Returned? || (s.wait.Detaching? && !Threatened(s)))
    ensures var t := Execute(s, steps);
      && Inv(t) && DetachWork(t) + Turns(s, steps) == DetachWork(s)
      && (t.wait.Returned? || (t.wait.Detaching? && !Threatened(t) && Enabled(t, DetachStep(t))))
    decreases |steps|
  {
    if s.wait.Detaching? {
      SafeTurn(s);
    }
    if steps != [] {
      if Enabled(s, steps[0]) {
        StepKeepsInv(s, steps[0]);
        if s.wait.Detaching? {
          SafeStep(s, steps[0]);
        }
      }
      DetachReturns(Next(s, steps[0]), steps[1..]);
    }
  }

  /** When a child is threatened, some continuation blocks detach for good. */
  lemma {:induction false} ThreatCanBlock(s: State) returns (steps: seq<Step>)
    requires Inv(s) && Threatened(s)
    ensures Inv(Execute(s, steps)) && Doomed(Execute(s, steps))
    decreases DetachWork(s), if s.wait.Detaching? && At(s, s.wait.hold) && Child(s).bound then 0 else 1,
              if s.wait.Detaching? && At(s, s.wait.hold) && Child(s).reply.Entering? then 0 else 1
  {
    if Doomed(s) {
      return [];
    }
    var step := ThreatStep(s);
    ThreatStays(s);
    StepKeepsInv(s, step);
    var t := Apply(s, step);
    assert Next(s, step) == t;
    var rest := ThreatCanBlock(t);
    steps := [step] + rest;
    assert steps[1..] == rest;
  }

  /** The step that leads towards a deadlock: put the next child into the map and reply to it, then go on detaching. */
  function ThreatStep(s: State): Step
    requires s.wait.Detaching?
  {
    if At(s, s.wait.hold) && Child(s).engine && !Child(s).bound then Bind(s.children[s.wait.next])
    else if At(s, s.wait.hold) && Child(s).engine && Child(s).reply.Quiet? then Begin(s.children[s.wait.next])
    else DetachStep(s)
  }

  lemma ThreatStays(s: State)
    requires Inv(s) && Threatened(s) && !Doomed(s)
    ensures Enabled(s, ThreatStep(s)) && ChildrenOk(Apply(s, ThreatStep(s))) && Threatened(Apply(s, ThreatStep(s)))
  {
  }

  /**
   * The exact condition: some continuation blocks detach for good if and only if a child yet to be let go of has not
   * been completed or has a completion on its way.
   */
  lemma DetachBlocksExactly(s: State)
    requires Inv(s) && s.wait.Detaching?
    ensures Threatened(s) <==> exists steps :: BlocksFor(s, steps)
  {
    if Threatened(s) {
      var steps := ThreatCanBlock(s);
      assert BlocksFor(s, steps);
    } else {
      forall steps
        ensures !BlocksFor(s, steps)
      {
        DetachReturns(s, steps);
        if ChildrenOk(Execute(s, steps)) {
          DoomedIsThreatened(Execute(s, steps));
        }
      }
    }
  }

  ghost predicate BlocksFor(s: State, steps: seq<Step>) {
    ChildrenOk(Execute(s, steps)) && Doomed(Execute(s, steps))
  }

  lemma DoomedIsThreatened(s: State)
    requires Inv(s)
    ensures Doomed(s) ==> Threatened(s)
  {
  }

  /** A wait that ends by success threatens no child: all have been completed and the group told. */
  lemma SuccessIsSafe(s: State, step: Step)
    requires Inv(s) && Live(s) && Enabled(s, step) && (step.WaitStart? || step == WaitWake(false))
    ensures var t := Apply(s, step); t.wait.Detaching? ==> t.state == Success && ChildrenOk(t) && !Threatened(t)
  {
    var t := Apply(s, step);
    CountedBound(s);
    if t.wait.Detaching? {
      forall i: nat | i < |s.children|
        ensures !Pending(t.reqs[t.children[i]])
      {
        assert i in Counted(s);
      }
    }
  }

  // ----- Every group can succeed -----

  /** Any requests, each once, can be put into a group. */
  lemma {:induction false} CanAdd(n: nat, rs: seq<nat>) returns (s: State)
    requires (forall i | 0 <= i < |rs| :: rs[i] < n) && forall i, j | 0 <= i < j < |rs| :: rs[i] != rs[j]
    ensures Reachable(n, s) && s == Initial(n).(children := rs)
    decreases |rs|
  {
    ReachInitial(n);
    if rs == [] {
      s := Initial(n);
    } else {
      var k := |rs| - 1;
      var t := CanAdd(n, rs[..k]);
      s := Initial(n).(children := rs);
      assert rs[..k] + [rs[k]] == rs;
      Reach(n, t, Add(rs[k]), s);
    }
  }

  /** Where a group stands after a part of its children has been answered. */
  ghost predicate Answering(s: State, n: nat, rs: seq<nat>, i: nat) {
    && Reachable(n, s) && |s.reqs| == n && s.children == rs && i <= |rs| && rs != []
    && s.state == (if i == |rs| then Success else Idle)
    && s.isOpen && s.opening == None && s.finished == i && s.openedWith == Some(0)
    && s.wait == Waiting(true)
    && (forall k | 0 <= k < |rs| :: rs[k] < n)
    && (forall k | i <= k < |rs| :: s.reqs[rs[k]] == Request(Idle, true, true, [], false, Quiet))
    && (forall k | 0 <= k < i :: Final(s.reqs[rs[k]].state) && !s.reqs[rs[k]].reply.Firing?)
  }

  /** Where a group stands while it is opened and no child has been answered. */
  ghost predicate Opening(s: State, n: nat, rs: seq<nat>, i: nat) {
    && Reachable(n, s) && |s.reqs| == n && s.children == rs && i <= |rs|
    && s.isOpen && s.opening == Some(i) && !s.looked && s.finished == 0 && s.wait == NotWaiting
    && (forall k | 0 <= k < |rs| :: rs[k] < n)
    && (forall k | 0 <= k < |rs| :: s.reqs[rs[k]] == Request(Idle, k < i, true, [], false, Quiet))
  }

  lemma OpensNext(s: State, n: nat, rs: seq<nat>, i: nat) returns (t: State)
    requires Opening(s, n, rs, i) && i < |rs| && forall k, j | 0 <= k < j < |rs| :: rs[k] != rs[j]
    ensures Opening(t, n, rs, i + 1)
  {
    var u := Apply(s, OpenLook);
    Reach(n, s, OpenLook, u);
    t := Apply(u, OpenListen);
    Reach(n, u, OpenListen, t);
  }

  lemma {:induction false} CanOpen(s: State, n: nat, rs: seq<nat>, i: nat) returns (t: State)
    requires Opening(s, n, rs, i) && forall k, j | 0 <= k < j < |rs| :: rs[k] != rs[j]
    ensures Opening(t, n, rs, |rs|)
    decreases |rs| - i
  {
    if i == |rs| {
      t := s;
    } else {
      var u := OpensNext(s, n, rs, i);
      t := CanOpen(u, n, rs, i + 1);
    }
  }

  /** One more child is answered. */
  lemma AnswersNext(s: State, n: nat, rs: seq<nat>, i: nat, v: Value) returns (t: State)
    requires Answering(s, n, rs, i) && i < |rs| && forall k, j | 0 <= k < j < |rs| :: rs[k] != rs[j]
    ensures Answering(t, n, rs, i + 1) && t.reqs[rs[i]].results == [v]
    ensures forall k | 0 <= k < i :: t.reqs[rs[k]] == s.reqs[rs[k]]
  {
    var r := rs[i];
    var s3 := AnswerArrives(s, n, r, v);
    var s4 := Apply(s3, Fire(r));
    Reach(n, s3, Fire(r), s4);
    t := Apply(s4, Unbind(r));
    Reach(n, s4, Unbind(r), t);
  }

  lemma AnswerArrives(s: State, n: nat, r: nat, v: Value) returns (t: State)
    requires Reachable(n, s) && ChildrenOk(s) && r < |s.reqs| && !s.wait.Detaching?
    requires s.reqs[r] == Request(Idle, true, true, [], false, Quiet)
    ensures Reachable(n, t) && t == SetReq(s, r, Request(Success, true, false, [v], true, Firing))
  {
    var s1 := SetReq(s, r, s.reqs[r].(bound := true));
    Reach(n, s, Bind(r), s1);
    var s2 := SetReq(s, r, s1.reqs[r].(reply := Entering));
    assert Apply(s1, Begin(r)) == s2;
    Reach(n, s1, Begin(r), s2);
    t := SetReq(s, r, Request(Success, true, false, [v], true, Firing));
    assert [] + [v] == [v];
    assert Apply(s2, Finish(r, Reply(v))) == t;
    Reach(n, s2, Finish(r, Reply(v)), t);
  }

  /** The first children hold these results. */
  ghost predicate Holding(s: State, rs: seq<nat>, vs: seq<Value>, i: nat) {
    i <= |rs| && i <= |vs| && forall k | 0 <= k < i :: rs[k] < |s.reqs| && s.reqs[rs[k]].results == [vs[k]]
  }

  lemma {:induction false} CanAnswer(s: State, n: nat, rs: seq<nat>, vs: seq<Value>, i: nat) returns (t: State)
    requires Answering(s, n, rs, i) && |vs| == |rs| && Holding(s, rs, vs, i)
    requires forall k, j | 0 <= k < j < |rs| :: rs[k] != rs[j]
    ensures Answering(t, n, rs, |rs|) && Holding(t, rs, vs, |rs|)
    decreases |rs| - i
  {
    if i == |rs| {
      t := s;
    } else {
      var u := AnswersNext(s, n, rs, i, vs[i]);
      t := CanAnswer(u, n, rs, vs, i + 1);
    }
  }

  lemma ReachInv(n: nat, s: State)
    requires Reachable(n, s)
    ensures Inv(s)
  {
    var steps :| Execute(Initial(n), steps) == s;
    RunInv(n, steps);
  }

  /** A detach with no child threatened can run to its end, and leaves the results alone. */
  lemma {:induction false} CanReturn(n: nat, s: State, rs: seq<nat>, vs: seq<Value>) returns (t: State)
    requires Reachable(n, s) && ChildrenOk(s) && s.wait.Detaching? && !Threatened(s)
    requires s.children == rs && |vs| == |rs| && Holding(s, rs, vs, |rs|)
    ensures Reachable(n, t) && t.wait.Returned? && t.state == s.state && t.children == rs && Holding(t, rs, vs, |rs|)
    decreases DetachWork(s)
  {
    ReachInv(n, s);
    SafeTurn(s);
    var step := DetachStep(s);
    var u := Apply(s, step);
    StepKeepsInv(s, step);
    SafeStep(s, step);
    Reach(n, s, step, u);
    DetachKeepsResults(s, rs, vs);
    if u.wait.Returned? {
      t := u;
    } else {
      t := CanReturn(n, u, rs, vs);
    }
  }

  lemma DetachKeepsResults(s: State, rs: seq<nat>, vs: seq<Value>)
    requires ChildrenOk(s) && s.wait.Detaching? && Enabled(s, DetachStep(s)) && |vs| == |rs| && Holding(s, rs, vs, |rs|)
    ensures var u := Apply(s, DetachStep(s));
            Holding(u, rs, vs, |rs|) && u.children == s.children && u.state == s.state
  {
  }

  /**
   * For any requests and any values there is a run in which a group of just these requests is opened, waits, has each
   * request answered with its value, and returns from its wait in state Success.
   */
  lemma EveryGroupCanSucceed(n: nat, rs: seq<nat>, vs: seq<Value>) returns (s: State)
    requires |vs| == |rs| && forall i | 0 <= i < |rs| :: rs[i] < n
    requires forall i, j | 0 <= i < j < |rs| :: rs[i] != rs[j]
    ensures Reachable(n, s) && s.children == rs && s.wait.Returned? && s.state == Success && Holding(s, rs, vs, |rs|)
  {
    var s1 := CanAdd(n, rs);
    var s2 := Apply(s1, OpenStart);
    Reach(n, s1, OpenStart, s2);
    var s3 := CanOpen(s2, n, rs, 0);
    var s4 := Apply(s3, OpenEnd);
    Reach(n, s3, OpenEnd, s4);
    ReachInv(n, s4);
    var s5 := Apply(s4, WaitStart);
    Reach(n, s4, WaitStart, s5);
    if rs == [] {
      SuccessIsSafe(s4, WaitStart);
      s := CanReturn(n, s5, rs, vs);
    } else {
      s := CanSucceed(n, s5, rs, vs);
    }
  }

  lemma CanSucceed(n: nat, s: State, rs: seq<nat>, vs: seq<Value>) returns (t: State)
    requires Answering(s, n, rs, 0) && |vs| == |rs| && forall i, j | 0 <= i < j < |rs| :: rs[i] != rs[j]
    ensures Reachable(n, t) && t.children == rs && t.wait.Returned? && t.state == Success && Holding(t, rs, vs, |rs|)
  {
    var u := CanAnswer(s, n, rs, vs, 0);
    ReachInv(n, u);
    var v := Apply(u, WaitWake(false));
    Reach(n, u, WaitWake(false), v);
    SuccessIsSafe(u, WaitWake(false));
    t := CanReturn(n, v, rs, vs);
  }

  // ----- Futures -----

  /** A future: results are collected until it is detached, which hands the list out and leaves none behind. */
  class EventFuture {
    const expectedSize: nat
    var state: EventState
    var result: Option<seq<Value>>       // m_result; None once detached

    ghost var accepted: seq<Value>       // every result setFuture took
    ghost var handedOut: seq<seq<Value>> // every list detach gave away

    /** The list is handed out at most once, and it is, or was, every accepted result in order. */
    ghost predicate Valid()
      reads this
    {
      match result
      case Some(list) => list == accepted && handedOut == []
      case None => handedOut == [accepted]
    }

    constructor (expectedSize: nat)
      ensures Valid() && result == Some([]) && state == Idle && accepted == [] && this.expectedSize == expectedSize
    {
      this.expectedSize, state, result := expectedSize, Idle, Some([]);
      accepted, handedOut := [], [];
    }

    method SetFuture(value: Value) returns (ret: int)
      requires Valid()
      modifies this
      ensures Valid() && handedOut == old(handedOut)
      ensures ret == if old(result).Some? then 0 else -1
      ensures ret == 0 ==> accepted == old(accepted) + [value]
      ensures ret == 0 ==> state == if |accepted| >= expectedSize then Success else old(state)
      ensures ret == -1 ==> accepted == old(accepted) && state == old(state) && result == None
    {
      if result.None? {
        return -1;
      }
      result := Some(result.value + [value]);
      accepted := accepted + [value];
      if |result.value| >= expectedSize {
        state := Success;
      }
      return 0;
    }

    method Detach() returns (list: Option<seq<Value>>)
      requires Valid()
      modifies this`result, this`handedOut
      ensures Valid() && result == None && list == old(result)
      ensures list.Some? ==> list.value == accepted && old(handedOut) == [] && handedOut == [accepted]
      ensures list.None? ==> handedOut == old(handedOut)
    {
      list := result;
      if result.Some? {
        handedOut := [result.value];
      }
      result := None;
    }
  }
}
