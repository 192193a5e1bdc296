/**
 * The channel manager and the channels' close protocol: remove calls close, close calls back into remove, and any
 * number of threads do so at once. Each thread is a stack of call frames; every step runs one frame up to its next
 * point where another thread can intervene. The manager's lock and the channels' locks are recursive mutexes; who
 * holds them can be read off the stacks.
 */
module ChannelManagers {

  type Channel = nat

  /** The two fields of a channel the protocol uses. A channel's only possible listener is the manager. */
  datatype Fields = Fields(closed: bool, listening: bool)

  /** setCloseListener: refused when a listener is set already or the channel is closed. */
  function SetCloseListener(f: Fields, listen: bool): (int, Fields) {
    if f.listening || f.closed then (-1, f) else (0, f.(listening := listen))
  }

  /** The call that is meant to clear the listener never changes anything. */
  lemma ClearingListenerHasNoEffect(f: Fields)
    ensures SetCloseListener(f, false).1 == f
  {
  }

  datatype Frame =
    | Close0(ch: Channel)    // close: take the channel's lock, test m_close, release the lock
    | Close1(ch: Channel)    // set m_close, without the lock
    | Close2(ch: Channel)    // read the listener, without the lock, and call it back
    | Remove0(ch: Channel)   // remove: take the manager's lock, take the channel out of the map
    | Remove1(ch: Channel)   // it was in: clear the listener under the channel's lock, call close
    | Remove2(ch: Channel)   // close returned: tell the manager's listener, release the manager's lock
    | Add0(ch: Channel)      // add: take the manager's lock, put the channel into the map
    | Add1(ch: Channel)      // setCloseListener: take the channel's lock, test
    | Add2(ch: Channel)      // setCloseListener: assign, release the channel's lock
    | Add3(ch: Channel)      // tell the manager's listener, release the manager's lock
    | Add4(ch: Channel)      // the channel was refused and removed: release the manager's lock
    | Send0(ch: Channel)     // a synchronous send or receive that fails: take the channel's lock, test m_close
    | Send1(ch: Channel)     // its call of close returned: release the channel's lock

  type Stack = seq<Frame>

  datatype State = State(
    fields: map<Channel, Fields>,
    bound: set<Channel>,          // the manager's map
    binds: multiset<Channel>,     // successful binds so far
    onAdds: multiset<Channel>,    // onAdd calls so far
    onCloses: multiset<Channel>,  // onClose calls so far
    threads: seq<Stack>
  )

  function FieldsOf(s: State, ch: Channel): Fields {
    if ch in s.fields then s.fields[ch] else Fields(false, false)
  }

  // ----- Locks -----

  /** Frames whose call holds the manager's lock. */
  predicate ManagerFrame(f: Frame) {
    f.Remove1? || f.Remove2? || f.Add1? || f.Add2? || f.Add3? || f.Add4?
  }

  /** Frames whose call holds the lock of their channel. */
  predicate ChannelFrame(f: Frame) {
    f.Add2? || f.Send1?
  }

  /** Frames that begin by taking the manager's lock. */
  predicate NeedsManager(f: Frame) {
    f.Remove0? || f.Add0?
  }

  /** Frames that begin by taking the lock of their channel. */
  predicate NeedsChannel(f: Frame) {
    f.Close0? || f.Remove1? || f.Add1? || f.Send0?
  }

  ghost predicate Managing(stack: Stack) {
    exists i :: 0 <= i < |stack| && ManagerFrame(stack[i])
  }

  ghost predicate Locking(stack: Stack, ch: Channel) {
    exists i :: 0 <= i < |stack| && ChannelFrame(stack[i]) && stack[i].ch == ch
  }

  // ----- Steps -----

  predicate CanStep(s: State, t: nat) {
    t < |s.threads| && s.threads[t] != []
  }

  function Top(s: State, t: nat): Frame
    requires CanStep(s, t)
  {
    s.threads[t][|s.threads[t]| - 1]
  }

  /** No other thread holds the manager's lock. */
  ghost predicate ManagerFree(s: State, t: nat) {
    forall u | 0 <= u < |s.threads| && u != t :: !Managing(s.threads[u])
  }

  /** No other thread holds the lock of the channel. */
  ghost predicate ChannelFree(s: State, t: nat, ch: Channel) {
    forall u | 0 <= u < |s.threads| && u != t :: !Locking(s.threads[u], ch)
  }

  /** Thread `t` has something to do and does not have to wait for a lock. */
  ghost predicate CanRun(s: State, t: nat) {
    && CanStep(s, t)
    && (NeedsManager(Top(s, t)) ==> ManagerFree(s, t))
    && (NeedsChannel(Top(s, t)) ==> ChannelFree(s, t, Top(s, t).ch))
  }

  /** Replace the top frame of thread `t`. */
  function Goto(s: State, t: nat, frames: seq<Frame>): State
    requires CanStep(s, t)
  {
    var stack := s.threads[t];
    s.(threads := s.threads[t := stack[..|stack| - 1] + frames])
  }

  /** The frames that take the place of a frame, given its channel's fields and whether the map has the channel. */
  function Successors(f: Frame, c: Fields, inMap: bool): seq<Frame> {
    var ch := f.ch;
    match f
    case Close0(_) => if c.closed then [] else [Close1(ch)]
    case Close1(_) => [Close2(ch)]
    case Close2(_) => if c.listening then [Remove0(ch)] else []
    case Remove0(_) => if inMap then [Remove1(ch)] else []
    case Remove1(_) => [Remove2(ch), Close0(ch)]
    case Remove2(_) => []
    case Add0(_) => [Add1(ch)]
    case Add1(_) => if SetCloseListener(c, true).0 == -1 then [Add4(ch), Remove0(ch)] else [Add2(ch)]
    case Add2(_) => [Add3(ch)]
    case Add3(_) => []
    case Add4(_) => []
    case Send0(_) => if c.closed then [] else [Send1(ch), Close0(ch)]
    case Send1(_) => []
  }

  function After(s: State, t: nat): seq<Frame>
    requires CanStep(s, t)
  {
    Successors(Top(s, t), FieldsOf(s, Top(s, t).ch), Top(s, t).ch in s.bound)
  }

  /** What the top frame does to the data. */
  function Effect(s: State, f: Frame): State {
    var ch := f.ch;
    var c := FieldsOf(s, ch);
    match f
    case Close1(_) => s.(fields := s.fields[ch := c.(closed := true)])
    case Remove0(_) => s.(bound := s.bound - {ch})
    case Remove1(_) => s.(fields := s.fields[ch := SetCloseListener(c, false).1])
    case Remove2(_) => s.(onCloses := s.onCloses + multiset{ch})
    case Add0(_) =>
      if ch in s.bound then s else s.(bound := s.bound + {ch}, binds := s.binds + multiset{ch})
    case Add2(_) => s.(fields := s.fields[ch := c.(listening := true)])
    case Add3(_) => s.(onAdds := s.onAdds + multiset{ch})
    case _ => s
  }

  /** One step of thread `t`. */
  function Step(s: State, t: nat): State
    requires CanStep(s, t)
  {
    Goto(Effect(s, Top(s, t)), t, After(s, t))
  }

  datatype Call = CallClose(ch: Channel) | CallRemove(ch: Channel) | CallAdd(ch: Channel) | CallSend(ch: Channel)

  /** The first frame of a call: by channel or by identifier makes no difference to remove. */
  function Entry(call: Call): Frame {
    match call
    case CallClose(ch) => Close0(ch)
    case CallRemove(ch) => Remove0(ch)
    case CallAdd(ch) => Add0(ch)
    case CallSend(ch) => Send0(ch)
  }

  /** An application thread makes a call. */
  function Start(s: State, call: Call): State {
    s.(threads := s.threads + [[Entry(call)]])
  }

  datatype Event = Arrive(call: Call) | Run(t: nat)

  /** The next state; a thread that is idle or has to wait stays where it is. */
  ghost function Next(s: State, e: Event): State {
    match e
    case Arrive(call) => Start(s, call)
    case Run(t) => if CanRun(s, t) then Step(s, t) else s
  }

  ghost function Execute(s: State, events: seq<Event>): State
    decreases |events|
  {
    if events == [] then s else Execute(Next(s, events[0]), events[1..])
  }

  function Initial(): State {
    State(map[], {}, multiset{}, multiset{}, multiset{}, [])
  }

  // ----- Sums over the threads' stacks -----

  function Weigh(stack: Stack, w: Frame -> nat): nat {
    if stack == [] then 0 else w(stack[0]) + Weigh(stack[1..], w)
  }

  function WeighAll(threads: seq<Stack>, w: Frame -> nat): nat {
    if threads == [] then 0 else Weigh(threads[0], w) + WeighAll(threads[1..], w)
  }

  lemma {:induction false} WeighConcat(a: Stack, b: Stack, w: Frame -> nat)
    ensures Weigh(a + b, w) == Weigh(a, w) + Weigh(b, w)
  {
    if a == [] {
      assert a + b == b;
    } else {
      WeighConcat(a[1..], b, w);
      assert (a + b)[1..] == a[1..] + b;
    }
  }

  lemma {:induction false} WeighUpdate(threads: seq<Stack>, t: nat, stack: Stack, w: Frame -> nat)
    requires t < |threads|
    ensures WeighAll(threads[t := stack], w) + Weigh(threads[t], w) == WeighAll(threads, w) + Weigh(stack, w)
  {
    var after := threads[t := stack];
    if t == 0 {
      assert after[1..] == threads[1..];
    } else {
      WeighUpdate(threads[1..], t - 1, stack, w);
      assert after[1..] == threads[1..][t - 1 := stack];
    }
  }

  lemma {:induction false} WeighAppend(threads: seq<Stack>, stack: Stack, w: Frame -> nat)
    ensures WeighAll(threads + [stack], w) == WeighAll(threads, w) + Weigh(stack, w)
  {
    if threads == [] {
      assert threads + [stack] == [stack] && [stack][1..] == [];
    } else {
      WeighAppend(threads[1..], stack, w);
      assert (threads + [stack])[1..] == threads[1..] + [stack];
    }
  }

  lemma {:induction false} WeighIdle(threads: seq<Stack>, w: Frame -> nat)
    requires forall t | 0 <= t < |threads| :: threads[t] == []
    ensures WeighAll(threads, w) == 0
  {
    if threads != [] {
      WeighIdle(threads[1..], w);
    }
  }

  /** Replacing the top frame changes a sum by the difference of the frames. */
  lemma WeighGoto(s: State, t: nat, frames: seq<Frame>, w: Frame -> nat)
    requires CanStep(s, t)
    ensures WeighAll(Goto(s, t, frames).threads, w) + w(Top(s, t)) == WeighAll(s.threads, w) + Weigh(frames, w)
  {
    var stack := s.threads[t];
    var rest := stack[..|stack| - 1];
    assert stack == rest + [Top(s, t)];
    WeighConcat(rest, [Top(s, t)], w);
    WeighConcat(rest, frames, w);
    WeighUpdate(s.threads, t, rest + frames, w);
    assert Weigh([Top(s, t)], w) == w(Top(s, t)) + Weigh([], w);
  }

  lemma WeighStep(s: State, t: nat, w: Frame -> nat)
    requires CanStep(s, t)
    ensures WeighAll(Step(s, t).threads, w) + w(Top(s, t)) == WeighAll(s.threads, w) + Weigh(After(s, t), w)
  {
    WeighGoto(s, t, After(s, t), w);
    assert Step(s, t).threads == Goto(s, t, After(s, t)).threads;
  }

  // ----- Exactly once -----

  /** Frames of calls that took `ch` out of the map and have not told the listener yet. */
  function Owes(ch: Channel): Frame -> nat {
    (f: Frame) => if (f.Remove1? || f.Remove2?) && f.ch == ch then 1 else 0
  }

  /** Every successful bind of a channel is still in the map, owed a notification, or has had exactly one. */
  ghost predicate Balanced(s: State, ch: Channel) {
    s.onCloses[ch] + WeighAll(s.threads, Owes(ch)) + (if ch in s.bound then 1 else 0) == s.binds[ch]
  }

  lemma WeighAfter(frames: seq<Frame>, w: Frame -> nat)
    requires |frames| <= 2
    ensures Weigh(frames, w) == (if |frames| > 0 then w(frames[0]) else 0) + (if |frames| > 1 then w(frames[1]) else 0)
  {
    if |frames| > 0 {
      assert |frames| > 1 ==> frames[1..][0] == frames[1] && frames[1..][1..] == [];
    }
  }

  lemma StepKeepsBalance(s: State, t: nat, ch: Channel)
    requires CanStep(s, t) && Balanced(s, ch)
    ensures Balanced(Step(s, t), ch)
  {
    var w, frames, f := Owes(ch), After(s, t), Top(s, t);
    WeighStep(s, t, w);
    WeighAfter(frames, w);
    if f.ch != ch {
      assert w(f) == 0 && Weigh(frames, w) == 0;
    }
  }

  lemma NextKeepsBalance(s: State, e: Event, ch: Channel)
    requires Balanced(s, ch)
    ensures Balanced(Next(s, e), ch)
  {
    match e
    case Arrive(call) =>
      var stack := Start(s, call).threads[|s.threads|];
      WeighAppend(s.threads, stack, Owes(ch));
      WeighAfter(stack, Owes(ch));
    case Run(t) =>
      if CanRun(s, t) {
        StepKeepsBalance(s, t, ch);
      }
  }

  lemma {:induction false} ExecuteKeepsBalance(s: State, events: seq<Event>, ch: Channel)
    requires Balanced(s, ch)
    ensures Balanced(Execute(s, events), ch)
    decreases |events|
  {
    if events != [] {
      NextKeepsBalance(s, events[0], ch);
      ExecuteKeepsBalance(Next(s, events[0]), events[1..], ch);
    }
  }

  ghost predicate Quiescent(s: State) {
    forall t | 0 <= t < |s.threads| :: s.threads[t] == []
  }

  // ----- What is announced -----

  function Closed(s: State, ch: Channel): bool {
    FieldsOf(s, ch).closed
  }

  /** Frames that are about to close `ch`. */
  function Shuts(ch: Channel): Frame -> nat {
    (f: Frame) => if f == Remove1(ch) || f == Close0(ch) || f == Close1(ch) then 1 else 0
  }

  /** The manager's listener is told of a removed channel only after close has returned. */
  ghost predicate ClosesFirst(s: State, stack: Stack) {
    var n := |stack|;
    && (n > 0 && stack[n - 1].Remove2? ==> Closed(s, stack[n - 1].ch))
    && (forall i | 0 <= i < n - 1 && stack[i].Remove2? ::
          || (i == n - 2 && stack[n - 1].ch == stack[i].ch && (stack[n - 1].Close0? || stack[n - 1].Close1?))
          || Closed(s, stack[i].ch))
  }

  /** A channel that left the map is closed or about to be, and one that was announced is closed. */
  ghost predicate Shut(s: State, ch: Channel) {
    && (s.binds[ch] > 0 && ch !in s.bound ==> Closed(s, ch) || WeighAll(s.threads, Shuts(ch)) > 0)
    && (s.onCloses[ch] > 0 ==> Closed(s, ch))
    && (forall t | 0 <= t < |s.threads| :: ClosesFirst(s, s.threads[t]))
  }

  lemma StepClosesFirst(s: State, t: nat)
    requires CanStep(s, t) && ClosesFirst(s, s.threads[t])
    ensures ClosesFirst(Step(s, t), Step(s, t).threads[t])
  {
    var stack := s.threads[t];
    var below := stack[..|stack| - 1];
    assert Step(s, t).threads[t] == below + After(s, t);
    assert forall i | 0 <= i < |below| :: Step(s, t).threads[t][i] == stack[i];
  }

  lemma StepKeepsShut(s: State, t: nat, ch: Channel)
    requires CanStep(s, t) && Shut(s, ch)
    ensures Shut(Step(s, t), ch)
  {
    WeighStep(s, t, Shuts(ch));
    WeighAfter(After(s, t), Shuts(ch));
    StepClosesFirst(s, t);
    assert forall u | 0 <= u < |s.threads| && u != t :: Step(s, t).threads[u] == s.threads[u];
    assert forall c: Channel :: Closed(s, c) ==> Closed(Step(s, t), c);
  }

  lemma NextKeepsShut(s: State, e: Event, ch: Channel)
    requires Shut(s, ch)
    ensures Shut(Next(s, e), ch)
  {
    match e
    case Arrive(call) =>
      WeighAppend(s.threads, [Entry(call)], Shuts(ch));
      assert forall u | 0 <= u < |s.threads| :: Next(s, e).threads[u] == s.threads[u];
    case Run(t) =>
      if CanRun(s, t) {
        StepKeepsShut(s, t, ch);
      }
  }

  lemma {:induction false} ExecuteKeepsShut(s: State, events: seq<Event>, ch: Channel)
    requires Shut(s, ch)
    ensures Shut(Execute(s, events), ch)
    decreases |events|
  {
    if events != [] {
      NextKeepsShut(s, events[0], ch);
      ExecuteKeepsShut(Next(s, events[0]), events[1..], ch);
    }
  }

  /**
   * For every interleaving of adds, removes, closes and failing sends by any number of threads: a channel is never
   * announced closed before it is, nor more often than it was bound; and once all calls have returned, exactly the
   * channels that left the map have been announced, each once per bind, and all of them are closed.
   */
  lemma ExactlyOnce(events: seq<Event>, ch: Channel)
    ensures var s := Execute(Initial(), events);
            && s.onCloses[ch] <= s.binds[ch]
            && (s.onCloses[ch] > 0 ==> FieldsOf(s, ch).closed)
            && (Quiescent(s) ==> s.binds[ch] == s.onCloses[ch] + if ch in s.bound then 1 else 0)
            && (Quiescent(s) && s.binds[ch] > 0 && ch !in s.bound ==> FieldsOf(s, ch).closed)
  {
    ExecuteKeepsBalance(Initial(), events, ch);
    ExecuteKeepsShut(Initial(), events, ch);
    var s := Execute(Initial(), events);
    if Quiescent(s) {
      WeighIdle(s.threads, Owes(ch));
      WeighIdle(s.threads, Shuts(ch));
    }
  }

  /** Closing a channel that is closed returns at once and changes nothing. */
  lemma LateCloseHasNoEffect(s: State, call: Call)
    requires FieldsOf(s, call.ch).closed && (call.CallClose? || call.CallSend?) && ChannelFree(s, |s.threads|, call.ch)
    ensures Next(Next(s, Arrive(call)), Run(|s.threads|)) == s.(threads := s.threads + [[]])
  {
    var n, t := Start(s, call), |s.threads|;
    assert forall u | 0 <= u < t :: n.threads[u] == s.threads[u];
    assert n.threads[t] == [Entry(call)] && CanRun(n, t);
    assert [Entry(call)][..0] + After(n, t) == [];
    assert n.threads[t := []] == s.threads + [[]];
  }

  // ----- Termination -----

  /** A bound on the steps a frame can still cause: removing from the map pays for the close that follows. */
  function Fuel(f: Frame): nat {
    match f
    case Close0(_) => 4 case Close1(_) => 3 case Close2(_) => 2
    case Remove0(_) => 1 case Remove1(_) => 6 case Remove2(_) => 1
    case Add0(_) => 10 case Add1(_) => 3 case Add2(_) => 2 case Add3(_) => 1 case Add4(_) => 1
    case Send0(_) => 6 case Send1(_) => 1
  }

  function Remaining(s: State): nat {
    6 * |s.bound| + WeighAll(s.threads, Fuel)
  }

  /** The remove, close, onClose, remove recursion ends: every step of every thread uses up fuel. */
  lemma StepsRunOut(s: State, t: nat)
    requires CanStep(s, t)
    ensures Remaining(Step(s, t)) < Remaining(s)
  {
    WeighStep(s, t, Fuel);
    WeighAfter(After(s, t), Fuel);
  }

  // ----- What the locks give -----

  /** Below the top of a stack there are only calls waiting for another to return, all about one channel. */
  ghost predicate Shaped(stack: Stack) {
    && (forall i | 0 <= i < |stack| - 1 :: stack[i].Remove2? || stack[i].Add4? || stack[i].Send1?)
    && (forall i | 0 <= i < |stack| :: stack[i].ch == stack[0].ch)
  }

  ghost predicate AllShaped(s: State) {
    forall t | 0 <= t < |s.threads| :: Shaped(s.threads[t])
  }

  /** At most one thread holds the manager's lock, and at most one the lock of a channel. */
  ghost predicate Exclusive(s: State) {
    forall t, u | 0 <= t < |s.threads| && 0 <= u < |s.threads| && t != u ::
      && !(Managing(s.threads[t]) && Managing(s.threads[u]))
      && forall ch: Channel :: !(Locking(s.threads[t], ch) && Locking(s.threads[u], ch))
  }

  /** Some thread is inside setCloseListener for `ch`, between the test and the assignment. */
  ghost predicate InWindow(s: State, ch: Channel) {
    exists u :: CanStep(s, u) && Top(s, u) == Add2(ch)
  }

  /** Frames that will see to it that `ch` gets its listener or leaves the map. */
  function Wiring(ch: Channel): Frame -> nat {
    (f: Frame) => if f == Add1(ch) || f == Add2(ch) || f == Remove0(ch) then 1 else 0
  }

  /** While `ch` is being added it is in the map, and inside the window it has no listener. */
  predicate AddOk(s: State, f: Frame, ch: Channel) {
    && (f == Add1(ch) || f == Add2(ch) ==> ch in s.bound)
    && (f == Add2(ch) ==> !FieldsOf(s, ch).listening)
  }

  ghost predicate Inv(s: State, ch: Channel) {
    && AllShaped(s)
    && Exclusive(s)
    && (forall t | CanStep(s, t) :: AddOk(s, Top(s, t), ch))
    && (forall t | CanStep(s, t) && Top(s, t) == Close2(ch) :: FieldsOf(s, ch).closed)
    && (ch in s.bound && !FieldsOf(s, ch).listening ==> WeighAll(s.threads, Wiring(ch)) > 0)
  }

  /** A step replaces the top frame of its own thread and nothing of the others. */
  lemma StepThreads(s: State, t: nat)
    requires CanStep(s, t)
    ensures var n := Step(s, t).threads;
      && |n| == |s.threads| && n[t] == s.threads[t][..|s.threads[t]| - 1] + After(s, t)
      && forall u | 0 <= u < |n| && u != t :: n[u] == s.threads[u]
  {
  }

  /** A lock that a frame's successors hold was held by the frame, or is the one it began by taking. */
  lemma SuccessorLocks(f: Frame, c: Fields, inMap: bool, i: nat)
    requires i < |Successors(f, c, inMap)|
    ensures var g := Successors(f, c, inMap)[i];
      && g.ch == f.ch
      && (i < |Successors(f, c, inMap)| - 1 ==> g.Remove2? || g.Add4? || g.Send1?)
      && (ManagerFrame(g) ==> ManagerFrame(f) || NeedsManager(f))
      && (ChannelFrame(g) ==> NeedsChannel(f))
  {
  }

  /** Where the frames of thread `t` after its step come from. */
  lemma StepFrames(s: State, t: nat, i: nat)
    requires CanStep(s, t) && Shaped(s.threads[t]) && i < |Step(s, t).threads[t]|
    ensures var below, now := |s.threads[t]| - 1, Step(s, t).threads[t];
      && |now| == below + |After(s, t)| && Top(s, t).ch == s.threads[t][0].ch
      && (if i < below then now[i] == s.threads[t][i] else now[i] == After(s, t)[i - below])
  {
    StepThreads(s, t);
  }

  lemma StepShape(s: State, t: nat)
    requires CanStep(s, t) && Shaped(s.threads[t])
    ensures Shaped(Step(s, t).threads[t])
  {
    var below, now := |s.threads[t]| - 1, Step(s, t).threads[t];
    forall i | 0 <= i < |now|
      ensures now[i].ch == s.threads[t][0].ch
      ensures i < |now| - 1 ==> now[i].Remove2? || now[i].Add4? || now[i].Send1?
    {
      StepFrames(s, t, i);
      if i >= below {
        SuccessorLocks(Top(s, t), FieldsOf(s, Top(s, t).ch), Top(s, t).ch in s.bound, i - below);
      }
    }
  }

  lemma StepManaging(s: State, t: nat)
    requires CanStep(s, t) && Shaped(s.threads[t])
    ensures Managing(Step(s, t).threads[t]) ==> Managing(s.threads[t]) || NeedsManager(Top(s, t))
  {
    var below, now := |s.threads[t]| - 1, Step(s, t).threads[t];
    if Managing(now) {
      var i :| 0 <= i < |now| && ManagerFrame(now[i]);
      StepFrames(s, t, i);
      if i < below {
        assert ManagerFrame(s.threads[t][i]);
      } else {
        SuccessorLocks(Top(s, t), FieldsOf(s, Top(s, t).ch), Top(s, t).ch in s.bound, i - below);
        assert ManagerFrame(Top(s, t)) ==> ManagerFrame(s.threads[t][below]);
      }
    }
  }

  lemma StepLocking(s: State, t: nat, ch: Channel)
    requires CanStep(s, t) && Shaped(s.threads[t])
    ensures Locking(Step(s, t).threads[t], ch) ==>
            Locking(s.threads[t], ch) || (NeedsChannel(Top(s, t)) && Top(s, t).ch == ch)
  {
    var below, now := |s.threads[t]| - 1, Step(s, t).threads[t];
    if Locking(now, ch) {
      var i :| 0 <= i < |now| && ChannelFrame(now[i]) && now[i].ch == ch;
      StepFrames(s, t, i);
      if i < below {
        assert ChannelFrame(s.threads[t][i]);
      } else {
        SuccessorLocks(Top(s, t), FieldsOf(s, Top(s, t).ch), Top(s, t).ch in s.bound, i - below);
      }
    }
  }

  lemma RunKeepsLocks(s: State, t: nat)
    requires AllShaped(s) && Exclusive(s) && CanRun(s, t)
    ensures AllShaped(Step(s, t)) && Exclusive(Step(s, t))
  {
    StepThreads(s, t);
    StepShape(s, t);
    StepManaging(s, t);
    forall ch: Channel
      ensures Locking(Step(s, t).threads[t], ch) ==> ChannelFree(s, t, ch)
    {
      StepLocking(s, t, ch);
    }
  }

  /** The top frame of `t` after its step, or the frame below. */
  lemma TopAfter(s: State, t: nat)
    requires CanStep(s, t) && AllShaped(s) && CanStep(Step(s, t), t)
    ensures var f := Top(Step(s, t), t);
      if After(s, t) != [] then f == After(s, t)[|After(s, t)| - 1] else f.Remove2? || f.Add4? || f.Send1?
  {
    StepThreads(s, t);
  }

  /** While another thread holds the manager's lock, a step changes neither the map nor a listener. */
  lemma OthersWait(s: State, t: nat, u: nat, ch: Channel)
    requires Exclusive(s) && CanRun(s, t) && u < |s.threads| && u != t && Managing(s.threads[u])
    ensures Step(s, t).bound == s.bound && FieldsOf(Step(s, t), ch).listening == FieldsOf(s, ch).listening
  {
    assert !Managing(s.threads[t]);
    assert !ManagerFrame(s.threads[t][|s.threads[t]| - 1]);
  }

  lemma RunKeepsAddOk(s: State, t: nat, ch: Channel, u: nat)
    requires Inv(s, ch) && CanRun(s, t) && CanStep(Step(s, t), u)
    ensures AddOk(Step(s, t), Top(Step(s, t), u), ch)
  {
    StepThreads(s, t);
    if u == t {
      TopAfter(s, t);
    } else {
      assert CanStep(s, u) && Top(s, u) == Top(Step(s, t), u);
      if Top(s, u) == Add1(ch) || Top(s, u) == Add2(ch) {
        assert ManagerFrame(s.threads[u][|s.threads[u]| - 1]);
        OthersWait(s, t, u, ch);
      }
    }
  }

  lemma RunKeepsClosed(s: State, t: nat, ch: Channel, u: nat)
    requires Inv(s, ch) && CanRun(s, t) && CanStep(Step(s, t), u) && Top(Step(s, t), u) == Close2(ch)
    ensures FieldsOf(Step(s, t), ch).closed
  {
    StepThreads(s, t);
    if u == t {
      TopAfter(s, t);
    } else {
      assert CanStep(s, u) && Top(s, u) == Close2(ch);
    }
  }

  lemma RunKeepsInv(s: State, t: nat, ch: Channel)
    requires Inv(s, ch) && CanRun(s, t)
    ensures Inv(Step(s, t), ch)
  {
    RunKeepsLocks(s, t);
    forall u: nat | CanStep(Step(s, t), u)
      ensures AddOk(Step(s, t), Top(Step(s, t), u), ch)
    {
      RunKeepsAddOk(s, t, ch, u);
    }
    forall u: nat | CanStep(Step(s, t), u) && Top(Step(s, t), u) == Close2(ch)
      ensures FieldsOf(Step(s, t), ch).closed
    {
      RunKeepsClosed(s, t, ch, u);
    }
    RunKeepsWiring(s, t, ch);
  }

  lemma RunKeepsWiring(s: State, t: nat, ch: Channel)
    requires Inv(s, ch) && CanRun(s, t)
    ensures var n := Step(s, t);
            ch in n.bound && !FieldsOf(n, ch).listening ==> WeighAll(n.threads, Wiring(ch)) > 0
  {
    WeighStep(s, t, Wiring(ch));
    WeighAfter(After(s, t), Wiring(ch));
  }

  lemma ArriveKeepsLocks(s: State, call: Call)
    requires AllShaped(s) && Exclusive(s)
    ensures AllShaped(Start(s, call)) && Exclusive(Start(s, call))
  {
    var n := Start(s, call);
    assert forall t | 0 <= t < |s.threads| :: n.threads[t] == s.threads[t];
    assert !Managing([Entry(call)]) && forall ch: Channel :: !Locking([Entry(call)], ch);
  }

  lemma ArriveKeepsInv(s: State, call: Call, ch: Channel)
    requires Inv(s, ch)
    ensures Inv(Start(s, call), ch)
  {
    ArriveKeepsLocks(s, call);
    var n := Start(s, call);
    WeighAppend(s.threads, [Entry(call)], Wiring(ch));
    forall u: nat | CanStep(n, u)
      ensures AddOk(n, Top(n, u), ch) && (Top(n, u) == Close2(ch) ==> FieldsOf(n, ch).closed)
    {
      if u < |s.threads| {
        assert CanStep(s, u) && Top(s, u) == Top(n, u);
      }
    }
  }

  lemma NextKeepsInv(s: State, e: Event, ch: Channel)
    requires Inv(s, ch)
    ensures Inv(Next(s, e), ch)
  {
    match e
    case Arrive(call) => ArriveKeepsInv(s, call, ch);
    case Run(t) =>
      if CanRun(s, t) {
        RunKeepsInv(s, t, ch);
      }
  }

  // ----- Acceptance -----

  /** Frames that are about to tell the manager's listener of a new channel. */
  function Welcomes(ch: Channel): Frame -> nat {
    (f: Frame) => if f == Add3(ch) then 1 else 0
  }

  /** A channel gets its listener once, and is then announced as added, or is about to be. */
  ghost predicate Welcomed(s: State, ch: Channel) {
    s.onAdds[ch] + WeighAll(s.threads, Welcomes(ch)) == if FieldsOf(s, ch).listening then 1 else 0
  }

  lemma RunKeepsWelcomed(s: State, t: nat, ch: Channel)
    requires Inv(s, ch) && Welcomed(s, ch) && CanRun(s, t)
    ensures Welcomed(Step(s, t), ch)
  {
    WeighStep(s, t, Welcomes(ch));
    WeighAfter(After(s, t), Welcomes(ch));
    assert AddOk(s, Top(s, t), ch);
  }

  lemma NextKeepsWelcomed(s: State, e: Event, ch: Channel)
    requires Inv(s, ch) && Welcomed(s, ch)
    ensures Welcomed(Next(s, e), ch)
  {
    match e
    case Arrive(call) =>
      WeighAppend(s.threads, [Entry(call)], Welcomes(ch));
      WeighAfter([Entry(call)], Welcomes(ch));
    case Run(t) =>
      if CanRun(s, t) {
        RunKeepsWelcomed(s, t, ch);
      }
  }

  lemma {:induction false} ExecuteKeepsWelcomed(s: State, events: seq<Event>, ch: Channel)
    requires Inv(s, ch) && Welcomed(s, ch)
    ensures Welcomed(Execute(s, events), ch)
    decreases |events|
  {
    if events != [] {
      NextKeepsInv(s, events[0], ch);
      NextKeepsWelcomed(s, events[0], ch);
      ExecuteKeepsWelcomed(Next(s, events[0]), events[1..], ch);
    }
  }

  /** In every run a channel is announced as added at most once, and once all calls have returned if it was accepted. */
  lemma AddedOnce(events: seq<Event>, ch: Channel)
    ensures var s := Execute(Initial(), events);
            s.onAdds[ch] <= 1 && (Quiescent(s) ==> (s.onAdds[ch] == 1 <==> FieldsOf(s, ch).listening))
  {
    InitialInv(ch);
    ExecuteKeepsWelcomed(Initial(), events, ch);
    var s := Execute(Initial(), events);
    if Quiescent(s) {
      WeighIdle(s.threads, Welcomes(ch));
    }
  }

  // ----- When a closed channel is left behind -----

  /** Frames that will take a closed channel out of the map, or refuse it. */
  function Attends(ch: Channel): Frame -> nat {
    (f: Frame) =>
      if f == Add0(ch) || f == Add1(ch) || f == Remove0(ch) || f == Close1(ch) || f == Close2(ch) then 1 else 0
  }

  /** The channel is closed, still in the map, and no call in progress will take it out. */
  ghost predicate LeftBehind(s: State, ch: Channel) {
    ch in s.bound && FieldsOf(s, ch).closed && WeighAll(s.threads, Attends(ch)) == 0
  }

  /**
   * The step that loses a channel: close looks for a listener inside the window of setCloseListener, and no other
   * call that would take the channel out of the map is in progress.
   */
  ghost predicate Lost(s: State, t: nat, ch: Channel) {
    CanRun(s, t) && Top(s, t) == Close2(ch) && InWindow(s, ch) && WeighAll(s.threads, Attends(ch)) == 1
  }

  function Closing(ch: Channel): Frame -> nat {
    (f: Frame) => if f == Close2(ch) then 1 else 0
  }

  function Assigning(ch: Channel): Frame -> nat {
    (f: Frame) => if f == Add2(ch) then 1 else 0
  }

  /** Sums respect an inequality that holds frame by frame. */
  lemma {:induction false} WeighBelow(threads: seq<Stack>, a: Frame -> nat, b: Frame -> nat, c: Frame -> nat,
                                      d: Frame -> nat)
    requires forall f :: a(f) + b(f) <= c(f) + d(f)
    ensures WeighAll(threads, a) + WeighAll(threads, b) <= WeighAll(threads, c) + WeighAll(threads, d)
  {
    if threads != [] {
      StackBelow(threads[0], a, b, c, d);
      WeighBelow(threads[1..], a, b, c, d);
    }
  }

  lemma {:induction false} StackBelow(stack: Stack, a: Frame -> nat, b: Frame -> nat, c: Frame -> nat, d: Frame -> nat)
    requires forall f :: a(f) + b(f) <= c(f) + d(f)
    ensures Weigh(stack, a) + Weigh(stack, b) <= Weigh(stack, c) + Weigh(stack, d)
  {
    if stack != [] {
      StackBelow(stack[1..], a, b, c, d);
    }
  }

  /** A sum over all stacks is at least the weight of any top frame. */
  lemma WeighTop(s: State, t: nat, w: Frame -> nat)
    requires CanStep(s, t)
    ensures WeighAll(s.threads, w) >= w(Top(s, t))
  {
    WeighGoto(s, t, [], w);
  }

  /** A positive sum of assignments means that some thread is in the window. */
  lemma {:induction false} FindWindow(s: State, ch: Channel, threads: seq<Stack>, k: nat)
    requires AllShaped(s) && k <= |s.threads| && threads == s.threads[k..]
    requires WeighAll(threads, Assigning(ch)) > 0
    ensures InWindow(s, ch)
    decreases |threads|
  {
    if Weigh(threads[0], Assigning(ch)) > 0 {
      var i := FindFrame(threads[0], ch);
      assert threads[0] == s.threads[k];
      assert CanStep(s, k) && Top(s, k) == Add2(ch);
    } else {
      FindWindow(s, ch, threads[1..], k + 1);
    }
  }

  lemma {:induction false} FindFrame(stack: Stack, ch: Channel) returns (i: nat)
    requires Weigh(stack, Assigning(ch)) > 0
    ensures i < |stack| && stack[i] == Add2(ch)
  {
    if stack[0] == Add2(ch) {
      i := 0;
    } else {
      i := FindFrame(stack[1..], ch);
      i := i + 1;
    }
  }

  /** A step leaves a channel behind exactly when it is left behind already or this step loses it. */
  lemma LostExactly(s: State, t: nat, ch: Channel)
    requires Inv(s, ch) && CanRun(s, t)
    ensures LeftBehind(Step(s, t), ch) <==> LeftBehind(s, ch) || Lost(s, t, ch)
  {
    if Top(s, t) == Close2(ch) {
      CloseLosesExactly(s, t, ch);
    } else {
      OthersLoseNone(s, t, ch);
    }
  }

  lemma CloseLosesExactly(s: State, t: nat, ch: Channel)
    requires Inv(s, ch) && CanRun(s, t) && Top(s, t) == Close2(ch)
    ensures LeftBehind(Step(s, t), ch) <==> Lost(s, t, ch)
    ensures !LeftBehind(s, ch)
  {
    WeighStep(s, t, Attends(ch));
    WeighAfter(After(s, t), Attends(ch));
    WeighTop(s, t, Attends(ch));
    LastCloseInWindow(s, t, ch);
  }

  lemma OthersLoseNone(s: State, t: nat, ch: Channel)
    requires Inv(s, ch) && CanRun(s, t) && Top(s, t) != Close2(ch)
    ensures LeftBehind(Step(s, t), ch) <==> LeftBehind(s, ch)
  {
    WeighStep(s, t, Attends(ch));
    WeighAfter(After(s, t), Attends(ch));
    WeighTop(s, t, Attends(ch));
  }

  /** A channel in the map without a listener, attended to by one close alone, is inside the window. */
  lemma LastCloseInWindow(s: State, t: nat, ch: Channel)
    requires Inv(s, ch) && CanRun(s, t) && Top(s, t) == Close2(ch)
    ensures ch in s.bound && !FieldsOf(s, ch).listening && WeighAll(s.threads, Attends(ch)) == 1 ==> InWindow(s, ch)
  {
    if ch in s.bound && !FieldsOf(s, ch).listening && WeighAll(s.threads, Attends(ch)) == 1 {
      WeighTop(s, t, Closing(ch));
      WeighBelow(s.threads, Wiring(ch), Closing(ch), Attends(ch), Assigning(ch));
      assert s.threads[0..] == s.threads;
      FindWindow(s, ch, s.threads, 0);
    }
  }

  /** Only adding or removing the channel again can attend to one that was left behind. */
  lemma ArriveExactly(s: State, call: Call, ch: Channel)
    ensures LeftBehind(Start(s, call), ch) <==>
            LeftBehind(s, ch) && call != CallAdd(ch) && call != CallRemove(ch)
  {
    WeighAppend(s.threads, [Entry(call)], Attends(ch));
    WeighAfter([Entry(call)], Attends(ch));
  }

  /** Whether a run loses the channel and never adds or removes it again: read off its events. */
  ghost function Loses(s: State, events: seq<Event>, ch: Channel, lost: bool): bool
    decreases |events|
  {
    if events == [] then lost
    else
      var now := match events[0]
        case Arrive(call) => lost && call != CallAdd(ch) && call != CallRemove(ch)
        case Run(t) => lost || Lost(s, t, ch);
      Loses(Next(s, events[0]), events[1..], ch, now)
  }

  lemma {:induction false} LosesExactly(s: State, events: seq<Event>, ch: Channel)
    requires Inv(s, ch)
    ensures Inv(Execute(s, events), ch)
    ensures LeftBehind(Execute(s, events), ch) <==> Loses(s, events, ch, LeftBehind(s, ch))
    decreases |events|
  {
    if events != [] {
      var n := Next(s, events[0]);
      NextKeepsInv(s, events[0], ch);
      LosesExactly(n, events[1..], ch);
      match events[0]
      case Arrive(call) => ArriveExactly(s, call, ch);
      case Run(t) =>
        if CanRun(s, t) {
          LostExactly(s, t, ch);
        }
    }
  }

  lemma InitialInv(ch: Channel)
    ensures Inv(Initial(), ch) && !LeftBehind(Initial(), ch)
  {
  }

  /**
   * Once all calls have returned, a channel in the map is open and will call the manager back when it closes, unless
   * the run lost it and never added or removed it again; then it is in the map and closed, and its last bind is
   * never announced.
   */
  lemma LeftBehindExactly(events: seq<Event>, ch: Channel)
    ensures var s := Execute(Initial(), events);
      && (Quiescent(s) && ch in s.bound ==>
            (FieldsOf(s, ch) == Fields(false, true) <==> !Loses(Initial(), events, ch, false)))
      && (Loses(Initial(), events, ch, false) ==> ch in s.bound && FieldsOf(s, ch).closed)
      && (Quiescent(s) && Loses(Initial(), events, ch, false) ==> s.binds[ch] == s.onCloses[ch] + 1)
  {
    InitialInv(ch);
    LosesExactly(Initial(), events, ch);
    ExactlyOnce(events, ch);
    var s := Execute(Initial(), events);
    if Quiescent(s) {
      WeighIdle(s.threads, Attends(ch));
      WeighIdle(s.threads, Wiring(ch));
    }
  }

  /** No close looks for the listener of `ch` inside the window. */
  ghost predicate Timely(s: State, events: seq<Event>, ch: Channel)
    decreases |events|
  {
    events != [] ==>
      && (events[0].Run? && CanRun(s, events[0].t) && Top(s, events[0].t) == Close2(ch) ==> !InWindow(s, ch))
      && Timely(Next(s, events[0]), events[1..], ch)
  }

  lemma {:induction false} TimelyLosesNone(s: State, events: seq<Event>, ch: Channel)
    requires Timely(s, events, ch)
    ensures !Loses(s, events, ch, false)
    decreases |events|
  {
    if events != [] {
      TimelyLosesNone(Next(s, events[0]), events[1..], ch);
    }
  }

  /** In every run in which no close strikes inside the window, no channel is left behind. */
  lemma NoneLeftBehind(events: seq<Event>, ch: Channel)
    requires Timely(Initial(), events, ch)
    ensures var s := Execute(Initial(), events);
            Quiescent(s) && ch in s.bound ==> FieldsOf(s, ch) == Fields(false, true)
  {
    TimelyLosesNone(Initial(), events, ch);
    LeftBehindExactly(events, ch);
  }

  // ----- What the calls of a program make possible -----

  /** A run in which the application makes no other calls than these. */
  ghost predicate Within(events: seq<Event>, calls: set<Call>) {
    forall i | 0 <= i < |events| :: events[i].Arrive? ==> events[i].call in calls
  }

  ghost predicate ReachedBy(s: State, calls: set<Call>) {
    exists events :: Within(events, calls) && Execute(Initial(), events) == s
  }

  lemma {:induction false} ExecuteSnoc(s: State, events: seq<Event>, e: Event)
    ensures Execute(s, events + [e]) == Next(Execute(s, events), e)
    decreases |events|
  {
    if events == [] {
      assert events + [e] == [e] && [e][1..] == [];
    } else {
      assert (events + [e])[1..] == events[1..] + [e];
      ExecuteSnoc(Next(s, events[0]), events[1..], e);
    }
  }

  lemma ReachNext(s: State, e: Event, calls: set<Call>)
    requires ReachedBy(s, calls) && (e.Arrive? ==> e.call in calls)
    ensures ReachedBy(Next(s, e), calls)
  {
    var events :| Within(events, calls) && Execute(Initial(), events) == s;
    ExecuteSnoc(Initial(), events, e);
    assert Within(events + [e], calls);
  }

  lemma ReachInitial(calls: set<Call>)
    ensures ReachedBy(Initial(), calls)
  {
    assert Within([], calls) && Execute(Initial(), []) == Initial();
  }

  /**
   * Which call of the application a frame comes from. A frame that is not at the bottom of its stack is a nested
   * call: never add, and remove only as the callback of a channel that was added.
   */
  predicate ComesFrom(f: Frame, nested: bool, calls: set<Call>) {
    && (f.Send0? || f.Send1? ==> CallSend(f.ch) in calls)
    && (f.Add0? || f.Add1? || f.Add2? || f.Add3? || f.Add4? ==> CallAdd(f.ch) in calls)
    && (nested ==> !f.Add0? && (f.Remove0? ==> CallAdd(f.ch) in calls))
    && (!nested && (f.Close0? || f.Close1? || f.Close2?) ==> CallClose(f.ch) in calls)
  }

  ghost predicate StackComesFrom(stack: Stack, calls: set<Call>) {
    forall i | 0 <= i < |stack| :: ComesFrom(stack[i], i > 0, calls)
  }

  /** Every frame comes from a call, and only channels that were added have a listener. */
  ghost predicate Accounted(s: State, calls: set<Call>) {
    && (forall t | 0 <= t < |s.threads| :: StackComesFrom(s.threads[t], calls))
    && (forall ch: Channel :: FieldsOf(s, ch).listening ==> CallAdd(ch) in calls)
  }

  lemma SuccessorsComeFrom(f: Frame, c: Fields, inMap: bool, i: nat, deep: bool, calls: set<Call>)
    requires ComesFrom(f, deep, calls) && i < |Successors(f, c, inMap)| && (c.listening ==> CallAdd(f.ch) in calls)
    ensures ComesFrom(Successors(f, c, inMap)[i], deep || i > 0, calls)
  {
  }

  lemma StepStackComesFrom(s: State, t: nat, calls: set<Call>)
    requires Accounted(s, calls) && CanStep(s, t) && Shaped(s.threads[t])
    ensures StackComesFrom(Step(s, t).threads[t], calls)
  {
    var below, now := |s.threads[t]| - 1, Step(s, t).threads[t];
    forall i | 0 <= i < |now|
      ensures ComesFrom(now[i], i > 0, calls)
    {
      StepFrames(s, t, i);
      if i >= below {
        var f := Top(s, t);
        assert ComesFrom(s.threads[t][below], below > 0, calls);
        SuccessorsComeFrom(f, FieldsOf(s, f.ch), f.ch in s.bound, i - below, below > 0, calls);
      }
    }
  }

  lemma NextKeepsAccounted(s: State, e: Event, calls: set<Call>)
    requires Accounted(s, calls) && AllShaped(s) && (e.Arrive? ==> e.call in calls)
    ensures Accounted(Next(s, e), calls)
  {
    if e.Run? && CanRun(s, e.t) {
      StepThreads(s, e.t);
      StepStackComesFrom(s, e.t, calls);
      var below := |s.threads[e.t]| - 1;
      assert ComesFrom(s.threads[e.t][below], below > 0, calls);
    }
  }

  /** Only a close that the application itself calls can lose a channel. */
  lemma LostByClose(s: State, t: nat, ch: Channel, calls: set<Call>)
    requires Inv(s, ch) && Accounted(s, calls) && Lost(s, t, ch)
    ensures CallAdd(ch) in calls && CallClose(ch) in calls
  {
    var u: nat :| CanStep(s, u) && Top(s, u) == Add2(ch);
    var mine, other := s.threads[t], s.threads[u];
    var top, last := |mine| - 1, |other| - 1;
    assert ComesFrom(other[last], last > 0, calls);
    assert ManagerFrame(other[last]) && ChannelFrame(other[last]) && other[last].ch == ch;
    assert Managing(other) && Locking(other, ch) && t != u;
    assert !Managing(mine) && !Locking(mine, ch);
    assert mine[top] == Close2(ch) && mine[0].ch == ch;
    assert !ManagerFrame(mine[0]) && !ChannelFrame(mine[0]);
    assert ComesFrom(mine[0], false, calls);
  }

  /** What every run within the calls keeps. */
  ghost predicate Blamed(s: State, ch: Channel, calls: set<Call>) {
    Inv(s, ch) && Accounted(s, calls) && (LeftBehind(s, ch) ==> CallAdd(ch) in calls && CallClose(ch) in calls)
  }

  lemma NextKeepsBlamed(s: State, e: Event, ch: Channel, calls: set<Call>)
    requires Blamed(s, ch, calls) && (e.Arrive? ==> e.call in calls)
    ensures Blamed(Next(s, e), ch, calls)
  {
    NextKeepsInv(s, e, ch);
    NextKeepsAccounted(s, e, calls);
    match e
    case Arrive(call) => ArriveExactly(s, call, ch);
    case Run(t) =>
      if CanRun(s, t) {
        LostExactly(s, t, ch);
        if Lost(s, t, ch) {
          LostByClose(s, t, ch, calls);
        }
      }
  }

  lemma {:induction false} ExecuteKeepsBlamed(s: State, events: seq<Event>, ch: Channel, calls: set<Call>)
    requires Blamed(s, ch, calls) && Within(events, calls)
    ensures Blamed(Execute(s, events), ch, calls)
    decreases |events|
  {
    if events != [] {
      assert events[0].Arrive? ==> events[0].call in calls;
      NextKeepsBlamed(s, events[0], ch, calls);
      assert Within(events[1..], calls);
      ExecuteKeepsBlamed(Next(s, events[0]), events[1..], ch, calls);
    }
  }

  lemma ReachedIsBlamed(s: State, ch: Channel, calls: set<Call>)
    requires ReachedBy(s, calls)
    ensures Blamed(s, ch, calls)
  {
    var events :| Within(events, calls) && Execute(Initial(), events) == s;
    InitialInv(ch);
    ExecuteKeepsBlamed(Initial(), events, ch, calls);
  }

  // ----- Runs put together step by step -----

  /** The run so far, within some calls, as far as one channel is concerned. */
  datatype Scope = Scope(calls: set<Call>, ch: Channel) {
    ghost predicate Looks(s: State, c: Fields, adds: nat, stacks: seq<Stack>) {
      && ReachedBy(s, calls) && s.threads == stacks
      && FieldsOf(s, ch) == c && ch in s.bound && s.onAdds[ch] == adds && s.onCloses[ch] == 0
    }
  }

  /** No thread but `t` holds a lock that `t` needs. */
  ghost predicate Unhindered(stacks: seq<Stack>, t: nat) {
    && t < |stacks| && stacks[t] != []
    && forall u, i | 0 <= u < |stacks| && u != t && 0 <= i < |stacks[u]| ::
         && (NeedsManager(stacks[t][|stacks[t]| - 1]) ==> !ManagerFrame(stacks[u][i]))
         && (NeedsChannel(stacks[t][|stacks[t]| - 1]) ==> !ChannelFrame(stacks[u][i]))
  }

  lemma Unhinders(s: State, t: nat)
    requires Unhindered(s.threads, t)
    ensures CanRun(s, t)
  {
  }

  /** One step of such a run. */
  lemma StepLooks(w: Scope, s: State, t: nat, c: Fields, adds: nat, stacks: seq<Stack>, now: Stack) returns (n: State)
    requires w.Looks(s, c, adds, stacks) && Unhindered(stacks, t)
    requires var f := stacks[t][|stacks[t]| - 1];
             f.ch == w.ch && !f.Remove0? && !f.Remove2? && now == stacks[t][..|stacks[t]| - 1] + Successors(f, c, true)
    ensures var f := stacks[t][|stacks[t]| - 1];
      w.Looks(n, if f.Close1? then Fields(true, c.listening) else if f.Add2? then Fields(c.closed, true) else c,
              if f.Add3? then adds + 1 else adds, stacks[t := now])
  {
    Unhinders(s, t);
    n := Step(s, t);
    ReachNext(s, Run(t), w.calls);
  }

  /** The application makes another call. */
  lemma ArriveLooks(w: Scope, s: State, call: Call, c: Fields, adds: nat, stacks: seq<Stack>) returns (n: State)
    requires w.Looks(s, c, adds, stacks) && call in w.calls
    ensures w.Looks(n, c, adds, stacks + [[Entry(call)]])
  {
    n := Start(s, call);
    ReachNext(s, Arrive(call), w.calls);
  }

  /** Add enters the channel into the map before close has done anything. */
  lemma FirstAdd(w: Scope, s: State, t: nat, stacks: seq<Stack>) returns (n: State)
    requires ReachedBy(s, w.calls) && s.threads == stacks && Unhindered(stacks, t) && stacks[t] == [Add0(w.ch)]
    requires FieldsOf(s, w.ch) == Fields(false, false) && s.onAdds[w.ch] == 0 && s.onCloses[w.ch] == 0
    ensures w.Looks(n, Fields(false, false), 0, stacks[t := [Add1(w.ch)]])
  {
    Unhinders(s, t);
    n := Step(s, t);
    ReachNext(s, Run(t), w.calls);
    assert stacks[t][..0] + After(s, t) == [Add1(w.ch)];
  }

  /**
   * A run that loses a channel: close passes its test, then setCloseListener passes its own; close marks the channel
   * and finds no listener, which is assigned too late. The channel stays in the map, closed, and is never announced.
   */
  lemma LeftBehindByRace(ch: Channel, calls: set<Call>) returns (s: State)
    requires CallAdd(ch) in calls && CallClose(ch) in calls
    ensures ReachedBy(s, calls) && Quiescent(s) && ch in s.bound && FieldsOf(s, ch).closed
    ensures s.onAdds[ch] == 1 && s.onCloses[ch] == 0
  {
    var w := Scope(calls, ch);
    ReachInitial(calls);
    ReachNext(Initial(), Arrive(CallClose(ch)), calls);
    var s1 := Start(Initial(), CallClose(ch));
    ReachNext(s1, Arrive(CallAdd(ch)), calls);
    var s2 := Start(s1, CallAdd(ch));
    var s3 := FirstAdd(w, s2, 1, [[Close0(ch)], [Add0(ch)]]);
    s := CloseOvertakes(w, s3);
  }

  /** The rest of that run. */
  lemma CloseOvertakes(w: Scope, s: State) returns (n: State)
    requires w.Looks(s, Fields(false, false), 0, [[Close0(w.ch)], [Add1(w.ch)]])
    ensures w.Looks(n, Fields(true, true), 1, [[], []])
  {
    var s2 := BothPass(w, s);
    var s4 := CloseFindsNone(w, s2);
    n := AssignTooLate(w, s4);
  }

  lemma BothPass(w: Scope, s: State) returns (n: State)
    requires w.Looks(s, Fields(false, false), 0, [[Close0(w.ch)], [Add1(w.ch)]])
    ensures w.Looks(n, Fields(false, false), 0, [[Close1(w.ch)], [Add2(w.ch)]])
  {
    var s1 := StepLooks(w, s, 0, Fields(false, false), 0, [[Close0(w.ch)], [Add1(w.ch)]], [Close1(w.ch)]);
    n := StepLooks(w, s1, 1, Fields(false, false), 0, [[Close1(w.ch)], [Add1(w.ch)]], [Add2(w.ch)]);
  }

  lemma CloseFindsNone(w: Scope, s: State) returns (n: State)
    requires w.Looks(s, Fields(false, false), 0, [[Close1(w.ch)], [Add2(w.ch)]])
    ensures w.Looks(n, Fields(true, false), 0, [[], [Add2(w.ch)]])
  {
    var s1 := StepLooks(w, s, 0, Fields(false, false), 0, [[Close1(w.ch)], [Add2(w.ch)]], [Close2(w.ch)]);
    n := StepLooks(w, s1, 0, Fields(true, false), 0, [[Close2(w.ch)], [Add2(w.ch)]], []);
  }

  lemma AssignTooLate(w: Scope, s: State) returns (n: State)
    requires w.Looks(s, Fields(true, false), 0, [[], [Add2(w.ch)]])
    ensures w.Looks(n, Fields(true, true), 1, [[], []])
  {
    var s1 := StepLooks(w, s, 1, Fields(true, false), 0, [[], [Add2(w.ch)]], [Add3(w.ch)]);
    n := StepLooks(w, s1, 1, Fields(true, true), 0, [[], [Add3(w.ch)]], []);
  }

  /** A program can leave a channel behind if and only if it both adds it and closes it. */
  lemma LeavingBehindExactly(ch: Channel, calls: set<Call>)
    ensures (exists s :: ReachedBy(s, calls) && LeftBehind(s, ch)) <==> CallAdd(ch) in calls && CallClose(ch) in calls
  {
    if s :| ReachedBy(s, calls) && LeftBehind(s, ch) {
      ReachedIsBlamed(s, ch, calls);
    }
    if CallAdd(ch) in calls && CallClose(ch) in calls {
      var s := LeftBehindByRace(ch, calls);
      WeighIdle(s.threads, Attends(ch));
      assert ReachedBy(s, calls) && LeftBehind(s, ch);
    }
  }

  // ----- Deadlock -----

  /**
   * Thread `t` holds the manager's lock and waits for a channel's, which `u` holds while it waits for the
   * manager's.
   */
  ghost predicate Deadlocked(s: State, t: nat, u: nat) {
    && t != u && CanStep(s, t) && CanStep(s, u)
    && Managing(s.threads[t]) && NeedsChannel(Top(s, t))
    && Locking(s.threads[u], Top(s, t).ch) && NeedsManager(Top(s, u))
  }

  /** Two threads so entangled never move again, whatever the others do. */
  lemma {:induction false} DeadlockForever(s: State, events: seq<Event>, t: nat, u: nat)
    requires Deadlocked(s, t, u)
    ensures Deadlocked(Execute(s, events), t, u)
    decreases |events|
  {
    if events != [] {
      var e := events[0];
      if e.Run? && CanRun(s, e.t) {
        StepThreads(s, e.t);
      }
      DeadlockForever(Next(s, e), events[1..], t, u);
    }
  }

  /** What a thread that cannot run is waiting for. */
  lemma Waits(s: State, v: nat) returns (u: nat)
    requires CanStep(s, v) && !CanRun(s, v)
    ensures u < |s.threads| && u != v
    ensures
      || (NeedsManager(Top(s, v)) && Managing(s.threads[u]))
      || (NeedsChannel(Top(s, v)) && Locking(s.threads[u], Top(s, v).ch))
  {
    if NeedsManager(Top(s, v)) && !ManagerFree(s, v) {
      u :| 0 <= u < |s.threads| && u != v && Managing(s.threads[u]);
    } else {
      u :| 0 <= u < |s.threads| && u != v && Locking(s.threads[u], Top(s, v).ch);
    }
  }

  /** A thread that holds a channel's lock and cannot run waits for the manager's. */
  lemma LockerWaits(s: State, u: nat, ch: Channel) returns (t: nat)
    requires AllShaped(s) && Exclusive(s) && u < |s.threads| && Locking(s.threads[u], ch) && !CanRun(s, u)
    ensures CanStep(s, u) && NeedsManager(Top(s, u)) && t < |s.threads| && Managing(s.threads[t])
  {
    assert Top(s, u).ch == ch;
    t := Waits(s, u);
  }

  /** A thread that holds the manager's lock and cannot run waits for a channel's. */
  lemma ManagerWaits(s: State, t: nat) returns (u: nat)
    requires AllShaped(s) && Exclusive(s) && t < |s.threads| && Managing(s.threads[t]) && !CanRun(s, t)
    ensures CanStep(s, t) && NeedsChannel(Top(s, t)) && u < |s.threads| && u != t && Locking(s.threads[u], Top(s, t).ch)
  {
    u := Waits(s, t);
  }

  /** If no thread can run although some call has not returned, two threads are deadlocked. */
  lemma StuckMeansDeadlock(s: State)
    requires AllShaped(s) && Exclusive(s) && !Quiescent(s) && forall t: nat :: !CanRun(s, t)
    ensures exists t, u :: Deadlocked(s, t, u)
  {
    var v: nat :| v < |s.threads| && s.threads[v] != [];
    var t := Waits(s, v);
    if NeedsChannel(Top(s, v)) {
      t := LockerWaits(s, t, Top(s, v).ch);
    }
    var u := ManagerWaits(s, t);
    var _ := LockerWaits(s, u, Top(s, t).ch);
    assert Deadlocked(s, t, u);
  }

  lemma {:induction false} ExecuteKeepsInv(s: State, events: seq<Event>, ch: Channel)
    requires Inv(s, ch)
    ensures Inv(Execute(s, events), ch)
    decreases |events|
  {
    if events != [] {
      NextKeepsInv(s, events[0], ch);
      ExecuteKeepsInv(Next(s, events[0]), events[1..], ch);
    }
  }

  /** In every run: as long as some call has not returned, some thread can run, or two threads are deadlocked. */
  lemma ProgressOrDeadlock(events: seq<Event>)
    ensures var s := Execute(Initial(), events);
            Quiescent(s) || (exists t: nat :: CanRun(s, t)) || exists t, u :: Deadlocked(s, t, u)
  {
    InitialInv(0);
    ExecuteKeepsInv(Initial(), events, 0);
    var s := Execute(Initial(), events);
    if !Quiescent(s) && forall t: nat :: !CanRun(s, t) {
      StuckMeansDeadlock(s);
    }
  }

  /** A deadlock is between a failing send and another call, on a channel that was added. */
  lemma DeadlockComesFrom(s: State, t: nat, u: nat, calls: set<Call>)
    requires AllShaped(s) && Accounted(s, calls) && Deadlocked(s, t, u)
    ensures CallAdd(Top(s, t).ch) in calls && CallSend(Top(s, t).ch) in calls
  {
    var stack, ch := s.threads[u], Top(s, t).ch;
    var i :| 0 <= i < |stack| && ChannelFrame(stack[i]) && stack[i].ch == ch;
    var last := |stack| - 1;
    assert i < last && stack[i].Send1? && stack[last].ch == ch;
    assert ComesFrom(stack[i], i > 0, calls) && ComesFrom(stack[last], true, calls);
  }

  /** A channel is added and stays in the map, open and with its listener set. */
  lemma AddedAlone(w: Scope) returns (n: State)
    requires CallAdd(w.ch) in w.calls
    ensures w.Looks(n, Fields(false, true), 1, [[]])
  {
    ReachInitial(w.calls);
    ReachNext(Initial(), Arrive(CallAdd(w.ch)), w.calls);
    var s1 := FirstAdd(w, Start(Initial(), CallAdd(w.ch)), 0, [[Add0(w.ch)]]);
    var s2 := StepLooks(w, s1, 0, Fields(false, false), 0, [[Add1(w.ch)]], [Add2(w.ch)]);
    var s3 := StepLooks(w, s2, 0, Fields(false, false), 0, [[Add2(w.ch)]], [Add3(w.ch)]);
    n := StepLooks(w, s3, 0, Fields(false, true), 0, [[Add3(w.ch)]], []);
  }

  /** A synchronous send fails: it calls close while it holds the channel's lock. */
  lemma SendCallsClose(w: Scope, s: State) returns (n: State)
    requires w.Looks(s, Fields(false, true), 1, [[], [Send0(w.ch)], [Add0(w.ch)]])
    ensures w.Looks(n, Fields(false, true), 1, [[], [Send1(w.ch), Close1(w.ch)], [Add0(w.ch)]])
  {
    var s1 := StepLooks(w, s, 1, Fields(false, true), 1, [[], [Send0(w.ch)], [Add0(w.ch)]],
                        [Send1(w.ch), Close0(w.ch)]);
    n := StepLooks(w, s1, 1, Fields(false, true), 1, [[], [Send1(w.ch), Close0(w.ch)], [Add0(w.ch)]],
                   [Send1(w.ch), Close1(w.ch)]);
  }

  /** Close calls the manager back. */
  lemma CloseCallsBack(w: Scope, s: State) returns (n: State)
    requires w.Looks(s, Fields(false, true), 1, [[], [Send1(w.ch), Close1(w.ch)], [Add0(w.ch)]])
    ensures w.Looks(n, Fields(true, true), 1, [[], [Send1(w.ch), Remove0(w.ch)], [Add0(w.ch)]])
  {
    var s1 := StepLooks(w, s, 1, Fields(false, true), 1, [[], [Send1(w.ch), Close1(w.ch)], [Add0(w.ch)]],
                        [Send1(w.ch), Close2(w.ch)]);
    n := StepLooks(w, s1, 1, Fields(true, true), 1, [[], [Send1(w.ch), Close2(w.ch)], [Add0(w.ch)]],
                   [Send1(w.ch), Remove0(w.ch)]);
  }

  /** A failing synchronous send on a channel and a second add of it can deadlock. */
  lemma SendCanDeadlock(ch: Channel, calls: set<Call>) returns (s: State)
    requires CallAdd(ch) in calls && CallSend(ch) in calls
    ensures ReachedBy(s, calls) && Deadlocked(s, 2, 1)
  {
    var w := Scope(calls, ch);
    var s1 := AddedAlone(w);
    var s2 := ArriveLooks(w, s1, CallSend(ch), Fields(false, true), 1, [[]]);
    var s3 := ArriveLooks(w, s2, CallAdd(ch), Fields(false, true), 1, [[], [Send0(ch)]]);
    var s4 := SendCallsClose(w, s3);
    var s5 := CloseCallsBack(w, s4);
    s := StepLooks(w, s5, 2, Fields(true, true), 1, [[], [Send1(ch), Remove0(ch)], [Add0(ch)]], [Add1(ch)]);
    assert s.threads[1][0] == Send1(ch) && s.threads[2][0] == Add1(ch);
    assert Managing(s.threads[2]) && Locking(s.threads[1], ch);
  }

  /**
   * A program can deadlock if and only if there is a channel that it both adds to the manager and uses for
   * synchronous sends or receives.
   */
  lemma DeadlockExactly(calls: set<Call>)
    ensures (exists s, t, u :: ReachedBy(s, calls) && Deadlocked(s, t, u)) <==>
            (exists ch :: CallAdd(ch) in calls && CallSend(ch) in calls)
  {
    if s, t, u :| ReachedBy(s, calls) && Deadlocked(s, t, u) {
      ReachedIsBlamed(s, 0, calls);
      DeadlockComesFrom(s, t, u, calls);
    }
    if ch :| CallAdd(ch) in calls && CallSend(ch) in calls {
      var s := SendCanDeadlock(ch, calls);
      assert ReachedBy(s, calls) && Deadlocked(s, 2, 1);
    }
  }

  /** A program with no such channel never gets stuck: as long as some call has not returned, some thread can run. */
  lemma NoDeadlockWithoutSends(events: seq<Event>, calls: set<Call>)
    requires Within(events, calls) && forall ch: Channel :: !(CallAdd(ch) in calls && CallSend(ch) in calls)
    ensures var s := Execute(Initial(), events);
            (Quiescent(s) || exists t: nat :: CanRun(s, t)) && forall t, u :: !Deadlocked(s, t, u)
  {
    assert ReachedBy(Execute(Initial(), events), calls);
    DeadlockExactly(calls);
    ProgressOrDeadlock(events);
  }
}
