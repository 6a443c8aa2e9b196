/**
 The terminal spinner (`src/utils/spinner.rs`) as interleaved steps: a ticker
 thread, and any number of threads that each own a handle.
 */
module Spinner {
  import opened Wrappers

  const FRAMES: nat := 10

  /** What to leave on screen when the spinner stops. */
  datatype Finish = Clear | Message(text: string) | Abandon

  /** What one critical section writes. */
  datatype Event =
    | Frame(frame: nat, message: string)
    | Line(text: string, redrawn: bool)
    | Final(mode: Finish)

  datatype Call = Println(text: string) | SetMessage(text: string) | Stop(mode: Finish)

  /** Where a thread is; `last` marks the finish that the drop of the last handle runs. */
  datatype Pc =
    | Starting
    | Idle
    | Wants(call: Call, last: bool)
    | Inside(call: Call, last: bool)
    | WantsTicker(last: bool)
    | Joining(last: bool)
    | Gone

  datatype TickerPc = NotSpawned | WantsState | Drawing | Asleep | Exited

  datatype Owner = Free | Ticker | Thread(id: nat)

  datatype State = State(
    animated: bool,
    message: string,
    frame: nat,
    finished: bool,
    out: seq<Event>,
    stateLock: Owner,
    tickerLock: Option<nat>,
    hasJoinHandle: bool,
    handles: int,
    threads: map<nat, Pc>,
    ticker: TickerPc)

  /** `start`: the ticker already runs when its join handle is stored. */
  function Init(message: string, animated: bool): State {
    State(animated, message, 0, false, [], Free, None, false, 1,
          map[0 := if animated then Starting else Idle], if animated then WantsState else NotSpawned)
  }

  datatype Action =
    | StoreJoinHandle(t: nat)
    | Invoke(t: nat, call: Call)
    | Clone(t: nat, clone: nat)
    | Drop(t: nat)
    | Lock(t: nat)
    | Critical(t: nat)
    | TakeTicker(t: nat)
    | Join(t: nat)
    | TickerLock
    | TickerStep
    | TickerWake

  predicate At(s: State, t: nat, pc: Pc) {
    t in s.threads && s.threads[t] == pc
  }

  predicate Enabled(s: State, a: Action) {
    match a
    case StoreJoinHandle(t) => At(s, t, Starting)
    case Invoke(t, _) => At(s, t, Idle)
    case Clone(t, clone) => At(s, t, Idle) && clone !in s.threads
    case Drop(t) => At(s, t, Idle)
    case Lock(t) => t in s.threads && s.threads[t].Wants? && s.stateLock == Free
    case Critical(t) => t in s.threads && s.threads[t].Inside?
    case TakeTicker(t) => t in s.threads && s.threads[t].WantsTicker? && s.tickerLock == None
    case Join(t) => t in s.threads && s.threads[t].Joining? && s.ticker == Exited
    case TickerLock => s.ticker == WantsState && s.stateLock == Free
    case TickerStep => s.ticker == Drawing
    case TickerWake => s.ticker == Asleep
  }

  function Returned(last: bool): Pc {
    if last then Gone else Idle
  }

  function Goto(s: State, t: nat, pc: Pc): State {
    s.(threads := s.threads[t := pc])
  }

  function Apply(s: State, a: Action): State
    requires Enabled(s, a)
  {
    match a
    case StoreJoinHandle(t) => Goto(s, t, Idle).(hasJoinHandle := true)
    case Invoke(t, call) => Goto(s, t, Wants(call, false))
    case Clone(_, clone) => Goto(s, clone, Idle).(handles := s.handles + 1)
    case Drop(t) =>
      Goto(s, t, if s.handles == 1 then Wants(Stop(Clear), true) else Gone).(handles := s.handles - 1)
    case Lock(t) =>
      var pc := s.threads[t];
      Goto(s, t, Inside(pc.call, pc.last)).(stateLock := Thread(t))
    case Critical(t) => ApplyCritical(s, t)
    case TakeTicker(t) =>
      var last := s.threads[t].last;
      if s.hasJoinHandle then Goto(s, t, Joining(last)).(hasJoinHandle := false, tickerLock := Some(t))
      else Goto(s, t, Returned(last))
    case Join(t) => Goto(s, t, Returned(s.threads[t].last)).(tickerLock := None)
    case TickerLock => s.(ticker := Drawing, stateLock := Ticker)
    case TickerStep =>
      if s.finished then s.(ticker := Exited, stateLock := Free)
      else s.(out := s.out + [Frame(s.frame, s.message)], frame := (s.frame + 1) % FRAMES, ticker := Asleep, stateLock := Free)
    case TickerWake => s.(ticker := WantsState)
  }

  /** The body of a call under the state lock, which it releases. */
  function ApplyCritical(s: State, t: nat): State
    requires t in s.threads && s.threads[t].Inside?
  {
    var last := s.threads[t].last;
    var u := s.(stateLock := Free);
    match s.threads[t].call
    case Println(text) => Goto(u, t, Returned(last)).(out := s.out + [Line(text, s.animated && !s.finished)])
    case SetMessage(text) => Goto(u, t, Returned(last)).(message := text)
    case Stop(mode) =>
      if s.finished then Goto(u, t, Returned(last))
      else Goto(u, t, WantsTicker(last)).(finished := true, out := s.out + [Final(mode)])
  }

  // ---- runs -----------------------------------------------------------

  predicate IsRun(s: State, actions: seq<Action>)
    decreases |actions|
  {
    actions == [] || (Enabled(s, actions[0]) && IsRun(Apply(s, actions[0]), actions[1..]))
  }

  function After(s: State, actions: seq<Action>): State
    requires IsRun(s, actions)
    decreases |actions|
  {
    if actions == [] then s else After(Apply(s, actions[0]), actions[1..])
  }

  // ---- what every step keeps ------------------------------------------

  /** An event that leaves a moving line on the screen. */
  predicate Animates(e: Event) {
    e.Frame? || (e.Line? && e.redrawn)
  }

  function Finals(out: seq<Event>): nat {
    if out == [] then 0 else Finals(out[..|out| - 1]) + if out[|out| - 1].Final? then 1 else 0
  }

  /** Once a finishing event is out, nothing animates any more. */
  ghost predicate Quiet(out: seq<Event>) {
    forall i, j | 0 <= i < j < |out| && out[i].Final? :: !Animates(out[j])
  }

  /** The thread still counts in `handles`. */
  predicate IsLive(pc: Pc) {
    !pc.Gone? && !((pc.Wants? || pc.Inside? || pc.WantsTicker? || pc.Joining?) && pc.last)
  }

  function Live(s: State): set<nat> {
    set t | t in s.threads && IsLive(s.threads[t])
  }

  ghost predicate LocksAgree(s: State) {
    && (s.stateLock == Ticker <==> s.ticker == Drawing)
    && (forall t | t in s.threads :: s.stateLock == Thread(t) <==> s.threads[t].Inside?)
    && (s.stateLock.Thread? ==> s.stateLock.id in s.threads)
    && (forall t | t in s.threads :: s.tickerLock == Some(t) <==> s.threads[t].Joining?)
    && (s.tickerLock.Some? ==> s.tickerLock.value in s.threads)
  }

  ghost predicate OutputAgrees(s: State) {
    && Quiet(s.out)
    && Finals(s.out) == (if s.finished then 1 else 0)
    && (!s.finished ==> forall i | 0 <= i < |s.out| :: !s.out[i].Final?)
    && (!s.animated ==> forall i | 0 <= i < |s.out| :: !Animates(s.out[i]))
    && s.frame < FRAMES
    && (forall i | 0 <= i < |s.out| && s.out[i].Frame? :: s.out[i].frame < FRAMES)
  }

  /** The constructor has not returned yet: its thread is the only one. */
  ghost predicate StartAgrees(s: State) {
    forall t | At(s, t, Starting) ::
      s.animated && !s.hasJoinHandle && !s.finished && forall u | u in s.threads :: u == t
  }

  predicate IsFinisher(s: State, t: nat) {
    t in s.threads && s.threads[t].WantsTicker?
  }

  predicate IsWaiter(s: State, t: nat) {
    t in s.threads && (s.threads[t].Joining? || s.threads[t].Starting?)
  }

  /** The ticker is stopped only by a finish, and never left without someone to join it. */
  ghost predicate TickerAgrees(s: State) {
    && (s.animated <==> s.ticker != NotSpawned)
    && (!s.animated ==> !s.hasJoinHandle)
    && (s.ticker == Exited ==> s.finished)
    && (forall t | t in s.threads && (s.threads[t].WantsTicker? || s.threads[t].Joining?) :: s.finished)
    && (forall t | t in s.threads && s.threads[t].Joining? :: s.animated)
    && (s.finished && s.hasJoinHandle ==> exists t :: IsFinisher(s, t))
    && (s.animated && !s.hasJoinHandle && s.ticker != Exited ==> exists t :: IsWaiter(s, t))
  }

  /** The thread runs the finish of the last drop. */
  predicate IsLastDrop(s: State, t: nat) {
    t in s.threads && (s.threads[t].Wants? || s.threads[t].Inside?) && s.threads[t].last
  }

  ghost predicate HandlesAgree(s: State) {
    && s.handles == |Live(s)|
    && (forall t | IsLastDrop(s, t) :: s.threads[t].call.Stop?)
    && (Live(s) == {} && !s.finished ==> exists t :: IsLastDrop(s, t))
  }

  ghost predicate Inv(s: State) {
    LocksAgree(s) && OutputAgrees(s) && StartAgrees(s) && TickerAgrees(s) && HandlesAgree(s)
  }

  lemma InitInv(message: string, animated: bool)
    ensures Inv(Init(message, animated))
  {
    var s := Init(message, animated);
    assert Live(s) == {0};
    assert IsWaiter(s, 0) <==> animated;
  }

  lemma LocksKept(s: State, a: Action)
    requires LocksAgree(s) && Enabled(s, a)
    ensures LocksAgree(Apply(s, a))
  {
    match a
    case Critical(t) => CriticalKeepsLocks(s, t);
    case Lock(t) =>
    case TakeTicker(t) =>
    case _ =>
  }

  lemma CriticalKeepsLocks(s: State, t: nat)
    requires LocksAgree(s) && Enabled(s, Critical(t))
    ensures LocksAgree(ApplyCritical(s, t))
  {
    var u := ApplyCritical(s, t);
    assert u.threads == s.threads[t := u.threads[t]] && !u.threads[t].Inside? && !u.threads[t].Joining?;
    hide *;
    LocksReleased(s, u, t);
  }

  lemma LocksReleased(s: State, u: State, t: nat)
    requires LocksAgree(s) && t in s.threads && s.threads[t].Inside?
    requires t in u.threads && u.threads == s.threads[t := u.threads[t]] && !u.threads[t].Inside? && !u.threads[t].Joining?
    requires u.stateLock == Free && u.ticker == s.ticker && u.tickerLock == s.tickerLock
    ensures LocksAgree(u)
  {
  }

  lemma OutputAppends(s: State, e: Event)
    requires OutputAgrees(s) && !(s.finished && (Animates(e) || e.Final?))
    requires !s.animated ==> !Animates(e)
    requires e.Frame? ==> e.frame < FRAMES
    ensures var u := s.(out := s.out + [e], finished := s.finished || e.Final?); OutputAgrees(u)
  {
    hide Finals;
    FinalsAppend(s.out, e);
  }

  lemma FinalsAppend(out: seq<Event>, e: Event)
    ensures Finals(out + [e]) == Finals(out) + if e.Final? then 1 else 0
  {
    assert (out + [e])[..|out|] == out;
  }

  lemma CriticalOutput(s: State, t: nat)
    requires OutputAgrees(s) && t in s.threads && s.threads[t].Inside?
    ensures OutputAgrees(ApplyCritical(s, t))
  {
    hide Quiet, Finals;
    match s.threads[t].call
    case Println(text) => OutputAppends(s, Line(text, s.animated && !s.finished));
    case Stop(mode) => if !s.finished { OutputAppends(s, Final(mode)); }
    case SetMessage(_) =>
  }

  lemma OutputKept(s: State, a: Action)
    requires OutputAgrees(s) && (s.animated <==> s.ticker != NotSpawned) && Enabled(s, a)
    ensures OutputAgrees(Apply(s, a))
  {
    hide Quiet, Finals;
    match a
    case Critical(t) =>
      CriticalOutput(s, t);
    case TickerStep =>
      if !s.finished {
        OutputAppends(s, Frame(s.frame, s.message));
      }
    case _ =>
  }

  lemma StartKept(s: State, a: Action)
    requires StartAgrees(s) && Enabled(s, a)
    ensures StartAgrees(Apply(s, a))
  {
    var s' := Apply(s, a);
    forall t | At(s', t, Starting)
      ensures s'.animated && !s'.hasJoinHandle && !s'.finished && forall u | u in s'.threads :: u == t
    {
      assert At(s, t, Starting);
    }
  }

  lemma TickerKept(s: State, a: Action)
    requires StartAgrees(s) && TickerAgrees(s) && Enabled(s, a)
    ensures TickerAgrees(Apply(s, a))
  {
    FinisherKept(s, a);
    WaiterKept(s, a);
    hide IsFinisher, IsWaiter;
  }

  lemma FinisherKept(s: State, a: Action)
    requires StartAgrees(s) && TickerAgrees(s) && Enabled(s, a)
    ensures var s' := Apply(s, a); s'.finished && s'.hasJoinHandle ==> exists t :: IsFinisher(s', t)
  {
    var s' := Apply(s, a);
    if s'.finished && s'.hasJoinHandle {
      if s.finished && s.hasJoinHandle {
        var t :| IsFinisher(s, t);
        assert IsFinisher(s', t);
      } else if s.hasJoinHandle {
        assert IsFinisher(s', a.t);
      }
    }
  }

  lemma WaiterKept(s: State, a: Action)
    requires TickerAgrees(s) && Enabled(s, a)
    ensures var s' := Apply(s, a);
      s'.animated && !s'.hasJoinHandle && s'.ticker != Exited ==> exists t :: IsWaiter(s', t)
  {
    var s' := Apply(s, a);
    if s'.animated && !s'.hasJoinHandle && s'.ticker != Exited {
      if s.hasJoinHandle {
        assert IsWaiter(s', a.t);
      } else {
        var t :| IsWaiter(s, t);
        assert IsWaiter(s', t);
      }
    }
  }

  lemma LiveAfter(s: State, t: nat, pc: Pc)
    ensures Live(Goto(s, t, pc)) == if IsLive(pc) then Live(s) + {t} else Live(s) - {t}
  {
  }

  /** A thread moves on without becoming or ceasing to be live. */
  lemma MoveKeepsHandles(s: State, u: State, t: nat)
    requires HandlesAgree(s) && t in s.threads && t in u.threads && u.threads == s.threads[t := u.threads[t]]
    requires IsLive(u.threads[t]) == IsLive(s.threads[t]) && u.handles == s.handles
    requires s.finished ==> u.finished
    requires IsLastDrop(s, t) ==> u.finished || IsLastDrop(u, t)
    requires IsLastDrop(u, t) ==> u.threads[t].call.Stop?
    ensures HandlesAgree(u)
  {
    LiveAfter(s, t, u.threads[t]);
    assert u.threads == Goto(s, t, u.threads[t]).threads;
    assert Live(u) == Live(s);
    forall x | IsLastDrop(u, x)
      ensures u.threads[x].call.Stop?
    {
      assert x == t || IsLastDrop(s, x);
    }
    if Live(s) == {} && !u.finished {
      var x :| IsLastDrop(s, x);
      assert IsLastDrop(u, x);
    }
  }

  lemma CloneKeepsHandles(s: State, t: nat, clone: nat)
    requires HandlesAgree(s) && Enabled(s, Clone(t, clone))
    ensures HandlesAgree(Apply(s, Clone(t, clone)))
  {
    var u := Apply(s, Clone(t, clone));
    LiveAfter(s, clone, Idle);
    assert t in Live(s) && Live(u) == Live(s) + {clone};
    assert forall x | IsLastDrop(u, x) :: IsLastDrop(s, x);
  }

  lemma DropKeepsHandles(s: State, t: nat)
    requires HandlesAgree(s) && Enabled(s, Drop(t))
    ensures HandlesAgree(Apply(s, Drop(t)))
  {
    var u := Apply(s, Drop(t));
    LiveAfter(s, t, u.threads[t]);
    assert t in Live(s) && Live(u) == Live(s) - {t};
    assert forall x | IsLastDrop(u, x) && x != t :: IsLastDrop(s, x);
    if s.handles == 1 {
      assert IsLastDrop(u, t);
    } else {
      assert |Live(u)| == |Live(s)| - 1 && |Live(s)| >= 1;
      assert Live(u) == {} ==> |Live(u)| == 0;
    }
  }

  lemma HandlesKept(s: State, a: Action)
    requires HandlesAgree(s) && Enabled(s, a)
    requires forall t | t in s.threads && (s.threads[t].WantsTicker? || s.threads[t].Joining?) :: s.finished
    ensures HandlesAgree(Apply(s, a))
  {
    hide HandlesAgree, Live;
    match a
    case Clone(t, clone) => CloneKeepsHandles(s, t, clone);
    case Drop(t) => DropKeepsHandles(s, t);
    case Critical(t) => CriticalKeepsHandles(s, t);
    case StoreJoinHandle(t) => MoveKeepsHandles(s, Apply(s, a), t);
    case Invoke(t, _) => MoveKeepsHandles(s, Apply(s, a), t);
    case Lock(t) => LastDropStops(s, t); MoveKeepsHandles(s, Apply(s, a), t);
    case TakeTicker(t) => MoveKeepsHandles(s, Apply(s, a), t);
    case Join(t) => MoveKeepsHandles(s, Apply(s, a), t);
    case _ => TickerKeepsHandles(s, Apply(s, a));
  }

  lemma LastDropStops(s: State, t: nat)
    requires HandlesAgree(s)
    ensures IsLastDrop(s, t) ==> s.threads[t].call.Stop?
  {
  }

  lemma CriticalKeepsHandles(s: State, t: nat)
    requires HandlesAgree(s) && Enabled(s, Critical(t))
    ensures HandlesAgree(ApplyCritical(s, t))
  {
    hide HandlesAgree;
    LastDropStops(s, t);
    MoveKeepsHandles(s, ApplyCritical(s, t), t);
  }

  lemma TickerKeepsHandles(s: State, u: State)
    requires HandlesAgree(s) && u.threads == s.threads && u.handles == s.handles && u.finished == s.finished
    ensures HandlesAgree(u)
  {
    assert Live(u) == Live(s);
    assert forall x :: IsLastDrop(u, x) <==> IsLastDrop(s, x);
  }

  /** Every step keeps the invariant. */
  lemma StepKeepsInv(s: State, a: Action)
    requires Inv(s) && Enabled(s, a)
    ensures Inv(Apply(s, a))
  {
    hide LocksAgree, OutputAgrees, StartAgrees, HandlesAgree, Apply;
    LocksKept(s, a);
    OutputKept(s, a);
    StartKept(s, a);
    TickerKept(s, a);
    HandlesKept(s, a);
  }

  lemma {:induction false} RunKeepsInv(s: State, actions: seq<Action>)
    requires Inv(s) && IsRun(s, actions)
    ensures Inv(After(s, actions))
    decreases |actions|
  {
    if actions == [] {
    } else {
      StepKeepsInv(s, actions[0]);
      RunKeepsInv(Apply(s, actions[0]), actions[1..]);
    }
  }

  // ---- main results ---------------------------------------------------

  /**
   In every run: nothing animates after the finishing event, which is written
   exactly once if the spinner has finished and never before; without a
   terminal nothing animates at all.
   */
  lemma NothingAfterFinish(message: string, animated: bool, actions: seq<Action>)
    requires IsRun(Init(message, animated), actions)
    ensures var s := After(Init(message, animated), actions);
      && (forall i, j | 0 <= i < j < |s.out| && s.out[i].Final? :: !Animates(s.out[j]))
      && Finals(s.out) == (if s.finished then 1 else 0)
      && (!animated ==> forall i | 0 <= i < |s.out| :: !Animates(s.out[i]))
  {
    InitInv(message, animated);
    RunKeepsInv(Init(message, animated), actions);
    AnimatedStays(Init(message, animated), actions);
  }

  lemma {:induction false} AnimatedStays(s: State, actions: seq<Action>)
    requires IsRun(s, actions)
    ensures After(s, actions).animated == s.animated
    decreases |actions|
  {
    if actions == [] {
    } else {
      AnimatedStays(Apply(s, actions[0]), actions[1..]);
    }
  }

  /** When every handle has been dropped, the spinner has finished and its ticker thread is gone. */
  lemma AllDroppedStops(message: string, animated: bool, actions: seq<Action>)
    requires IsRun(Init(message, animated), actions)
    requires var s := After(Init(message, animated), actions); forall t | t in s.threads :: s.threads[t].Gone?
    ensures var s := After(Init(message, animated), actions);
      s.finished && s.ticker == (if animated then Exited else NotSpawned) && s.stateLock == Free && s.tickerLock == None
  {
    InitInv(message, animated);
    RunKeepsInv(Init(message, animated), actions);
    AnimatedStays(Init(message, animated), actions);
    assert Live(After(Init(message, animated), actions)) == {};
  }

  /** A step of a thread that is inside a call, or of the ticker: not a new call, clone or drop. */
  predicate IsProgress(a: Action) {
    !a.Invoke? && !a.Clone? && !a.Drop?
  }

  /**
   No deadlock: whenever a thread is inside a call, some thread can go on. A
   thread that waits to join the ticker does not hold the lock the ticker needs.
   */
  lemma SomeoneProceeds(message: string, animated: bool, actions: seq<Action>, t: nat)
    requires IsRun(Init(message, animated), actions)
    requires var s := After(Init(message, animated), actions);
      t in s.threads && !s.threads[t].Idle? && !s.threads[t].Gone?
    ensures var s := After(Init(message, animated), actions);
      && (exists a :: IsProgress(a) && Enabled(s, a))
      && (s.threads[t].Joining? ==> s.stateLock != Thread(t))
  {
    InitInv(message, animated);
    RunKeepsInv(Init(message, animated), actions);
    CallProceeds(After(Init(message, animated), actions), t);
  }

  /** A step that can be taken while thread `t` is inside a call. */
  function Next(s: State, t: nat): (a: Action)
    requires LocksAgree(s) && TickerAgrees(s) && t in s.threads && !s.threads[t].Idle? && !s.threads[t].Gone?
    ensures IsProgress(a) && Enabled(s, a)
  {
    match s.stateLock
    case Thread(id) => Critical(id)
    case Ticker => TickerStep
    case Free =>
      match s.threads[t]
      case Starting => StoreJoinHandle(t)
      case Wants(_, _) => Lock(t)
      case Joining(_) => TickerNext(s, t)
      case WantsTicker(_) => if s.tickerLock == None then TakeTicker(t) else TickerNext(s, s.tickerLock.value)
      case _ => TickerStep
  }

  function TickerNext(s: State, t: nat): (a: Action)
    requires LocksAgree(s) && TickerAgrees(s) && t in s.threads && s.threads[t].Joining? && s.stateLock == Free
    ensures IsProgress(a) && Enabled(s, a)
  {
    match s.ticker
    case WantsState => TickerLock
    case Asleep => TickerWake
    case _ => Join(t)
  }

  // ---- after the finish -----------------------------------------------

  /** The steps the ticker has left to its end. */
  function TickerRank(pc: TickerPc): nat {
    match pc
    case Asleep => 3
    case WantsState => 2
    case Drawing => 1
    case _ => 0
  }

  /** The steps a thread has left to the end of its call, at most. */
  function Rank(pc: Pc): nat {
    match pc
    case Wants(_, _) => 4
    case Inside(_, _) => 3
    case WantsTicker(_) => 2
    case Joining(_) => 1
    case Starting => 1
    case _ => 0
  }

  /** The steps that the threads below `n` have left. */
  function Work(threads: map<nat, Pc>, n: nat): nat {
    if n == 0 then 0 else Work(threads, n - 1) + if n - 1 in threads then Rank(threads[n - 1]) else 0
  }

  function StepsLeft(s: State, n: nat): nat {
    Work(s.threads, n) + TickerRank(s.ticker)
  }

  ghost predicate AllBelow(s: State, n: nat) {
    forall t | t in s.threads :: t < n
  }

  lemma {:induction false} WorkMoves(threads: map<nat, Pc>, t: nat, pc: Pc, n: nat)
    requires t in threads
    ensures Work(threads[t := pc], n) + (if t < n then Rank(threads[t]) else 0)
      == Work(threads, n) + if t < n then Rank(pc) else 0
    decreases n
  {
    if n == 0 {
    } else {
      WorkMoves(threads, t, pc, n - 1);
    }
  }

  /** A thread that comes nearer to the end of its call. */
  lemma ThreadNearer(s: State, u: State, t: nat, n: nat)
    requires AllBelow(s, n) && t in s.threads && t in u.threads && u.threads == s.threads[t := u.threads[t]]
    requires Rank(u.threads[t]) < Rank(s.threads[t]) && u.ticker == s.ticker
    ensures AllBelow(u, n) && StepsLeft(u, n) < StepsLeft(s, n)
  {
    hide Rank, TickerRank;
    WorkMoves(s.threads, t, u.threads[t], n);
  }

  /** What every step after the finish does. */
  ghost predicate ComesNearer(s: State, u: State, n: nat) {
    && u.finished && AllBelow(u, n)
    && StepsLeft(u, n) < StepsLeft(s, n)
    && s.out <= u.out
    && (forall k | |s.out| <= k < |u.out| :: u.out[k].Line? && !u.out[k].redrawn)
  }

  lemma FinishedCritical(s: State, t: nat, n: nat)
    requires s.finished && AllBelow(s, n) && t in s.threads && s.threads[t].Inside?
    ensures ComesNearer(s, ApplyCritical(s, t), n)
  {
    var u := ApplyCritical(s, t);
    assert u.threads == s.threads[t := u.threads[t]];
    hide StepsLeft, AllBelow;
    ThreadNearer(s, u, t, n);
  }

  lemma FinishedTicker(s: State, a: Action, n: nat)
    requires s.finished && AllBelow(s, n) && Enabled(s, a) && (a.TickerLock? || a.TickerStep? || a.TickerWake?)
    ensures ComesNearer(s, Apply(s, a), n)
  {
    hide Work;
  }

  lemma FinishedThread(s: State, a: Action, t: nat, n: nat)
    requires s.finished && AllBelow(s, n) && Enabled(s, a)
    requires a in {StoreJoinHandle(t), Lock(t), TakeTicker(t), Join(t)}
    ensures ComesNearer(s, Apply(s, a), n)
  {
    hide StepsLeft, AllBelow;
    ThreadNearer(s, Apply(s, a), t, n);
  }

  /** After the finish every step of a pending call or of the ticker brings the end nearer; nothing animates. */
  lemma FinishedStep(s: State, a: Action, n: nat)
    requires s.finished && AllBelow(s, n) && Enabled(s, a) && IsProgress(a)
    ensures ComesNearer(s, Apply(s, a), n)
  {
    hide ComesNearer, AllBelow;
    match a
    case StoreJoinHandle(t) => FinishedThread(s, a, t, n);
    case Lock(t) => FinishedThread(s, a, t, n);
    case Critical(t) => FinishedCritical(s, t, n);
    case TakeTicker(t) => FinishedThread(s, a, t, n);
    case Join(t) => FinishedThread(s, a, t, n);
    case TickerLock => FinishedTicker(s, a, n);
    case TickerStep => FinishedTicker(s, a, n);
    case TickerWake => FinishedTicker(s, a, n);
  }

  lemma {:induction false} FinishedRun(s: State, actions: seq<Action>, n: nat)
    requires s.finished && AllBelow(s, n) && IsRun(s, actions)
    requires forall k | 0 <= k < |actions| :: IsProgress(actions[k])
    ensures |actions| + StepsLeft(After(s, actions), n) <= StepsLeft(s, n)
    ensures var s' := After(s, actions);
      && s'.finished && s.out <= s'.out
      && forall k | |s.out| <= k < |s'.out| :: s'.out[k].Line? && !s'.out[k].redrawn
    decreases |actions|
  {
    if actions == [] {
    } else {
      hide Apply, Enabled, StepsLeft, IsProgress;
      FinishedStep(s, actions[0], n);
      FinishedRun(Apply(s, actions[0]), actions[1..], n);
    }
  }

  /** While the ticker runs, some step is possible. */
  lemma TickerProceeds(s: State)
    requires LocksAgree(s) && s.ticker != NotSpawned && s.ticker != Exited
    ensures exists a :: IsProgress(a) && Enabled(s, a)
  {
    var a := match s.ticker
      case WantsState => (match s.stateLock case Thread(id) => Critical(id) case _ => TickerLock)
      case Drawing => TickerStep
      case _ => TickerWake;
    assert IsProgress(a) && Enabled(s, a);
  }

  /**
   Once the spinner has finished, the pending calls come to an end: without
   new calls there is a bound on the steps still possible, and when none is
   left every call has returned and the ticker is gone.
   */
  lemma FinishedCallsReturn(message: string, animated: bool, actions: seq<Action>, more: seq<Action>, n: nat)
    requires IsRun(Init(message, animated), actions)
    requires var s := After(Init(message, animated), actions);
      s.finished && AllBelow(s, n) && IsRun(s, more)
    requires forall k | 0 <= k < |more| :: IsProgress(more[k])
    ensures var s := After(Init(message, animated), actions);
      var s' := After(s, more);
      && |more| <= StepsLeft(s, n)
      && (forall k | |s.out| <= k < |s'.out| :: s'.out[k].Line? && !s'.out[k].redrawn)
      && ((forall a | IsProgress(a) :: !Enabled(s', a)) ==>
            && (s'.ticker == NotSpawned || s'.ticker == Exited)
            && forall t | t in s'.threads :: s'.threads[t].Idle? || s'.threads[t].Gone?)
  {
    var start := Init(message, animated);
    var s := After(start, actions);
    InitInv(message, animated);
    RunKeepsInv(start, actions);
    RunKeepsInv(s, more);
    FinishedRun(s, more, n);
    var s' := After(s, more);
    hide *;
    if forall a | IsProgress(a) :: !Enabled(s', a) {
      NobodyPending(s');
    }
  }

  lemma CallProceeds(s: State, t: nat)
    requires Inv(s) && t in s.threads && !s.threads[t].Idle? && !s.threads[t].Gone?
    ensures exists a :: IsProgress(a) && Enabled(s, a)
  {
    var a := Next(s, t);
    assert IsProgress(a) && Enabled(s, a);
  }

  lemma NobodyPending(s: State)
    requires Inv(s) && forall a | IsProgress(a) :: !Enabled(s, a)
    ensures s.ticker == NotSpawned || s.ticker == Exited
    ensures forall t | t in s.threads :: s.threads[t].Idle? || s.threads[t].Gone?
  {
    if s.ticker != NotSpawned && s.ticker != Exited {
      TickerProceeds(s);
    }
    forall t | t in s.threads
      ensures s.threads[t].Idle? || s.threads[t].Gone?
    {
      if !s.threads[t].Idle? && !s.threads[t].Gone? {
        CallProceeds(s, t);
      }
    }
  }

  // ---- what is written ------------------------------------------------

  /** The call that thread `t` has made last; dropping a handle asks to clear the line. */
  function Called(actions: seq<Action>, t: nat): Option<Call> {
    if actions == [] then None
    else
      match actions[|actions| - 1]
      case Invoke(u, call) => if u == t then Some(call) else Called(actions[..|actions| - 1], t)
      case Drop(u) => if u == t then Some(Stop(Clear)) else Called(actions[..|actions| - 1], t)
      case _ => Called(actions[..|actions| - 1], t)
  }

  /** A call to finish has had its turn. */
  predicate HasStopped(actions: seq<Action>) {
    actions != [] && (
      var before, last := actions[..|actions| - 1], actions[|actions| - 1];
      HasStopped(before) || (last.Critical? && Called(before, last.t).Some? && Called(before, last.t).value.Stop?))
  }

  /** The message that was set last. */
  function LastMessage(message: string, actions: seq<Action>): string {
    if actions == [] then message
    else
      var before, last := actions[..|actions| - 1], actions[|actions| - 1];
      if last.Critical? && Called(before, last.t).Some? && Called(before, last.t).value.SetMessage?
      then Called(before, last.t).value.text
      else LastMessage(message, before)
  }

  /** How many frames have been drawn. */
  function Frames(actions: seq<Action>): nat {
    if actions == [] then 0
    else
      var before, last := actions[..|actions| - 1], actions[|actions| - 1];
      Frames(before) + if last.TickerStep? && !HasStopped(before) then 1 else 0
  }

  /** What the steps write: every line, each frame with its message, and the first finish. */
  function Written(message: string, animated: bool, actions: seq<Action>): seq<Event> {
    if actions == [] then []
    else
      var before, last := actions[..|actions| - 1], actions[|actions| - 1];
      Written(message, animated, before) + WrittenBy(message, animated, before, last)
  }

  function WrittenBy(message: string, animated: bool, before: seq<Action>, last: Action): seq<Event> {
    match last
    case Critical(t) =>
      (match Called(before, t)
       case Some(Println(text)) => [Line(text, animated && !HasStopped(before))]
       case Some(Stop(mode)) => if HasStopped(before) then [] else [Final(mode)]
       case _ => [])
    case TickerStep =>
      if HasStopped(before) then [] else [Frame(Frames(before) % 10, LastMessage(message, before))]
    case _ => []
  }

  /** The state remembers of the steps what matters for the output. */
  ghost predicate Remembers(s: State, message: string, animated: bool, actions: seq<Action>) {
    && s.animated == animated
    && s.out == Written(message, animated, actions)
    && s.finished == HasStopped(actions)
    && s.message == LastMessage(message, actions)
    && s.frame == Frames(actions) % 10
    && CallsRemembered(s, actions)
  }

  ghost predicate CallsRemembered(s: State, actions: seq<Action>) {
    forall t | t in s.threads && (s.threads[t].Wants? || s.threads[t].Inside?) ::
      Called(actions, t) == Some(s.threads[t].call)
  }

  lemma {:induction false} RunStep(s: State, actions: seq<Action>, a: Action)
    requires IsRun(s, actions + [a])
    ensures IsRun(s, actions) && Enabled(After(s, actions), a)
    ensures After(s, actions + [a]) == Apply(After(s, actions), a)
    decreases |actions|
  {
    var all := actions + [a];
    if actions == [] {
      assert all == [a] && all[1..] == [];
    } else {
      assert all[0] == actions[0] && all[1..] == actions[1..] + [a];
      RunStep(Apply(s, actions[0]), actions[1..], a);
    }
  }

  /** What one more step adds to the call that `t` has made last. */
  function CalledBy(before: Option<Call>, t: nat, a: Action): Option<Call> {
    match a
    case Invoke(u, call) => if u == t then Some(call) else before
    case Drop(u) => if u == t then Some(Stop(Clear)) else before
    case _ => before
  }

  lemma OneMoreStep(message: string, animated: bool, actions: seq<Action>, a: Action)
    ensures forall t :: Called(actions + [a], t) == CalledBy(Called(actions, t), t, a)
    ensures HasStopped(actions + [a]) ==
            (HasStopped(actions) || (a.Critical? && Called(actions, a.t).Some? && Called(actions, a.t).value.Stop?))
    ensures LastMessage(message, actions + [a]) ==
            if a.Critical? && Called(actions, a.t).Some? && Called(actions, a.t).value.SetMessage?
            then Called(actions, a.t).value.text
            else LastMessage(message, actions)
    ensures Frames(actions + [a]) == Frames(actions) + if a.TickerStep? && !HasStopped(actions) then 1 else 0
    ensures Written(message, animated, actions + [a]) ==
            Written(message, animated, actions) + WrittenBy(message, animated, actions, a)
  {
    hide WrittenBy;
    var all := actions + [a];
    assert all[..|all| - 1] == actions && all[|all| - 1] == a;
  }

  lemma CallsKept(s: State, actions: seq<Action>, a: Action)
    requires CallsRemembered(s, actions) && Enabled(s, a)
    requires forall t :: Called(actions + [a], t) == CalledBy(Called(actions, t), t, a)
    ensures CallsRemembered(Apply(s, a), actions + [a])
  {
    hide Called;
    match a
    case Critical(t) =>
    case Lock(t) =>
    case _ => hide ApplyCritical;
  }

  lemma SilentStep(s: State, a: Action)
    requires Enabled(s, a) && !a.Critical? && !a.TickerStep?
    ensures var u := Apply(s, a);
            && u.animated == s.animated && u.out == s.out && u.finished == s.finished
            && u.message == s.message && u.frame == s.frame
  {
  }

  lemma SilentRemembers(s: State, message: string, animated: bool, actions: seq<Action>, a: Action)
    requires Remembers(s, message, animated, actions) && Enabled(s, a) && !a.Critical? && !a.TickerStep?
    ensures Remembers(Apply(s, a), message, animated, actions + [a])
  {
    OneMoreStep(message, animated, actions, a);
    CallsKept(s, actions, a);
    SilentStep(s, a);
    hide Called, HasStopped, LastMessage, Frames, Written, CallsRemembered, CalledBy, Apply, Enabled;
    assert WrittenBy(message, animated, actions, a) == [];
  }

  lemma CriticalRemembers(s: State, message: string, animated: bool, actions: seq<Action>, t: nat)
    requires Remembers(s, message, animated, actions) && Enabled(s, Critical(t))
    ensures Remembers(Apply(s, Critical(t)), message, animated, actions + [Critical(t)])
  {
    OneMoreStep(message, animated, actions, Critical(t));
    CallsKept(s, actions, Critical(t));
    assert Called(actions, t) == Some(s.threads[t].call);
    hide Called, HasStopped, LastMessage, Frames, Written, CallsRemembered, CalledBy;
  }

  lemma TickerRemembers(s: State, message: string, animated: bool, actions: seq<Action>)
    requires Remembers(s, message, animated, actions) && Enabled(s, TickerStep)
    ensures Remembers(Apply(s, TickerStep), message, animated, actions + [TickerStep])
  {
    OneMoreStep(message, animated, actions, TickerStep);
    CallsKept(s, actions, TickerStep);
    hide Called, HasStopped, LastMessage, Frames, Written, CallsRemembered, CalledBy, ApplyCritical;
  }

  lemma StepRemembers(s: State, message: string, animated: bool, actions: seq<Action>, a: Action)
    requires Remembers(s, message, animated, actions) && Enabled(s, a)
    ensures Remembers(Apply(s, a), message, animated, actions + [a])
  {
    hide *;
    if a.Critical? {
      CriticalRemembers(s, message, animated, actions, a.t);
    } else if a.TickerStep? {
      TickerRemembers(s, message, animated, actions);
    } else {
      SilentRemembers(s, message, animated, actions, a);
    }
  }

  /**
   In every run the output is what the order of the steps says: each printed
   line when its call has its turn, redrawn exactly while the animation runs;
   each frame with the next picture and the message set last; and one
   finishing event, in the mode of the first call to finish that has its turn.
   */
  lemma {:induction false} OutputIsWritten(message: string, animated: bool, actions: seq<Action>)
    requires IsRun(Init(message, animated), actions)
    ensures Remembers(After(Init(message, animated), actions), message, animated, actions)
    decreases |actions|
  {
    if actions == [] {
    } else {
      var before, last := actions[..|actions| - 1], actions[|actions| - 1];
      assert actions == before + [last];
      RunStep(Init(message, animated), before, last);
      OutputIsWritten(message, animated, before);
      StepRemembers(After(Init(message, animated), before), message, animated, before, last);
    }
  }
}
