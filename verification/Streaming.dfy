/**
 * The streaming session of one device as interleaved steps of the application thread, the transfer thread and
 * the completion callback. Every access to a shared field is a step of its own. libusb and pthread appear as
 * step parameters: what a submission, a control transfer, an event-handling call, a thread creation or a join
 * returns. While a thread waits in a control transfer, libusb lets it handle events like the transfer thread;
 * its event lock lets only one callback run at a time.
 */
module Streaming {
  import opened Types

  const TRANSFER_COUNT := 4

  /** What the application thread does next; the first three after Idle wait for a control transfer. */
  datatype AppPc =
    | Idle
    | StartMode | StopMode | OtherRequest
    | StartCheck | ClearStreaming | ClearExit | Submit(k: nat) | SetCallback | CreateThread | MarkStarted
    | RequestExit | StopCheck | Join | MarkStopped | Cancel(k: nat)
    | Freed

  /** What the transfer thread does next. */
  datatype ThreadPc = NoThread | ReadStreaming | ReadExit | CallEvents | Handling | MarkError | Exited

  /** Who handles an event of this device. */
  datatype Handler = Application | TransferThread | OtherDevice

  /** The completion callback for transfer i, while it runs. */
  datatype Callback = NoCallback | Running(i: nat, completed: bool, who: Handler)

  datatype Transfer = Transfer(inFlight: bool, cancelled: bool)

  /** The fields of the device that the threads share. */
  datatype Device = Device(transfers: seq<Transfer>, streaming: bool, doExit: bool, started: bool, callbackSet: bool)

  /** A close: how many of its two stops are left, what they returned, and whether a session was on. */
  datatype Closing = Closing(left: nat, results: seq<Code>, wasStarted: bool)

  /**
   * Transfer threads created and not joined; event-handling calls the thread began since `do_exit` was set;
   * whether the sample callback was ever called before `device->callback` was set; and whether a start ever
   * ended at a refused submission, after earlier ones, before it was set.
   */
  datatype Seen = Seen(live: int, lateCalls: nat, earlyCall: bool, torn: bool)

  datatype State = State(dev: Device, app: AppPc, thread: ThreadPc, callback: Callback, result: Code,
                         close: Closing, seen: Seen)

  const NOT_IN_FLIGHT := Transfer(false, false)

  /** A device as `hackrf_open_setup` leaves it. */
  const OPENED := State(
    Device([NOT_IN_FLIGHT, NOT_IN_FLIGHT, NOT_IN_FLIGHT, NOT_IN_FLIGHT], false, false, false, false),
    Idle, NoThread, NoCallback, Success, Closing(0, [], false), Seen(0, 0, false, false))

  datatype Action =
    | CallStart
    | CallStop
    | CallClose
    | CallRequest
    | StartStep(ok: bool)
    | StopStep(ok: bool)
    | RequestStep
    | ThreadStep(error: bool)
    | Reap(i: nat, completed: bool, who: Handler)
    | FinishCallback(zero: bool, submitted: bool)

  function Put(s: State, i: nat, t: Transfer): (r: State)
    ensures r == s.(dev := s.dev.(transfers := r.dev.transfers)) && |r.dev.transfers| == |s.dev.transfers|
  {
    if i < |s.dev.transfers| then s.(dev := s.dev.(transfers := s.dev.transfers[i := t])) else s
  }

  predicate InFlight(s: State, i: nat) {
    i < |s.dev.transfers| && s.dev.transfers[i].inFlight
  }

  /** The thread is inside a callback it runs itself. */
  predicate InsideCallback(s: State, who: Handler) {
    s.callback.Running? && s.callback.who == who
  }

  // ----- the application thread

  /** It waits for a control transfer, and libusb may let it handle events. */
  predicate InRequest(pc: AppPc) {
    pc.StartMode? || pc.StopMode? || pc.OtherRequest?
  }

  /** A stop ends; a close goes on to the next stop, or frees the device. */
  function EndStop(s: State, c: Code): State {
    if s.close.left == 0 then s.(app := Idle, result := c)
    else if s.close.left == 1 then s.(close := s.close.(left := 0, results := s.close.results + [c]), app := Freed)
    else s.(close := s.close.(left := s.close.left - 1, results := s.close.results + [c]), app := StopMode)
  }

  /** libusb refuses transfer k of a start. */
  function Refused(s: State, k: nat): State {
    s.(app := Idle, result := LibusbError,
       seen := s.seen.(torn := s.seen.torn || (0 < k && !s.dev.callbackSet)))
  }

  /** `hackrf_start_rx`; `ok` is the result of the foreign call of the step, if it makes one. */
  function StepStart(s: State, ok: bool): Option<State> {
    match s.app
    case StartMode =>
      if InsideCallback(s, Application) then None
      else Some(if ok then s.(app := StartCheck) else s.(app := Idle, result := LibusbError))
    case StartCheck =>
      Some(if s.dev.started then s.(app := Idle, result := Busy) else s.(app := ClearStreaming))
    case ClearStreaming => Some(s.(dev := s.dev.(streaming := false), app := ClearExit))
    case ClearExit => Some(s.(dev := s.dev.(doExit := false), seen := s.seen.(lateCalls := 0), app := Submit(0)))
    case Submit(k) =>
      if k == TRANSFER_COUNT then Some(s.(dev := s.dev.(streaming := true), app := SetCallback))
      else if InFlight(s, k) || !ok then Some(Refused(s, k))
      else Some(Put(s, k, Transfer(true, false)).(app := Submit(k + 1)))
    case SetCallback => Some(s.(dev := s.dev.(callbackSet := true), app := CreateThread))
    case CreateThread =>
      Some(if ok then s.(seen := s.seen.(live := s.seen.live + 1), thread := ReadStreaming, app := MarkStarted)
           else s.(app := Idle, result := ThreadError))
    case MarkStarted => Some(s.(dev := s.dev.(started := true), app := Idle, result := Success))
    case _ => None
  }

  /** Cancelling asks libusb for a transfer that it has. */
  function CancelMark(s: State, k: nat): (r: State)
    ensures r == s.(dev := s.dev.(transfers := r.dev.transfers)) && |r.dev.transfers| == |s.dev.transfers|
  {
    Put(s, k, Transfer(InFlight(s, k), InFlight(s, k)))
  }

  /** `hackrf_stop_rx` and `hackrf_stop_tx`. */
  function StepStop(s: State, ok: bool): Option<State> {
    match s.app
    case StopMode =>
      if InsideCallback(s, Application) then None
      else Some(if ok then s.(app := RequestExit) else EndStop(s, LibusbError))
    case RequestExit => Some(s.(dev := s.dev.(doExit := true), app := StopCheck))
    case StopCheck => Some(if s.dev.started then s.(app := Join) else EndStop(s, Success))
    case Join =>
      if !ok then Some(EndStop(s, ThreadError))
      else if !s.thread.Exited? then None
      else Some(s.(seen := s.seen.(live := s.seen.live - 1), thread := NoThread, app := MarkStopped))
    case MarkStopped => Some(s.(dev := s.dev.(started := false), app := Cancel(0)))
    case Cancel(k) =>
      if k == TRANSFER_COUNT then Some(EndStop(s, Success))
      else Some(CancelMark(s, k).(app := Cancel(k + 1)))
    case _ => None
  }

  /** The end of any other vendor request; its result is not part of the model. */
  function StepRequest(s: State): Option<State> {
    if !s.app.OtherRequest? || InsideCallback(s, Application) then None else Some(s.(app := Idle))
  }

  // ----- the transfer thread and the completion callback

  function StepThread(s: State, error: bool): Option<State> {
    match s.thread
    case ReadStreaming => Some(s.(thread := if s.dev.streaming then ReadExit else Exited))
    case ReadExit => Some(s.(thread := if !s.dev.doExit then CallEvents else Exited))
    case CallEvents =>
      var late := if s.dev.doExit then s.seen.lateCalls + 1 else s.seen.lateCalls;
      Some(s.(seen := s.seen.(lateCalls := late), thread := Handling))
    case Handling =>
      if InsideCallback(s, TransferThread) then None else Some(s.(thread := if error then MarkError else ReadStreaming))
    case MarkError => Some(s.(dev := s.dev.(streaming := false), thread := ReadStreaming))
    case _ => None
  }

  predicate MayHandle(s: State, who: Handler) {
    match who
    case Application => InRequest(s.app)
    case TransferThread => s.thread.Handling?
    case OtherDevice => true
  }

  /** libusb takes a finished transfer back, and its callback begins, with a sample callback if it is completed. */
  function StepReap(s: State, i: nat, completed: bool, who: Handler): Option<State> {
    if s.callback.Running? || !InFlight(s, i) || !MayHandle(s, who) then None
    else
      var early := s.seen.earlyCall || (completed && !s.dev.callbackSet);
      Some(Put(s, i, NOT_IN_FLIGHT).(callback := Running(i, completed, who), seen := s.seen.(earlyCall := early)))
  }

  /** The end of the callback: the transfer is submitted again, or an exit is requested. */
  function StepFinish(s: State, zero: bool, submitted: bool): Option<State> {
    match s.callback
    case NoCallback => None
    case Running(i, completed, _) =>
      Some((if completed && zero && submitted then Put(s, i, Transfer(true, false))
            else s.(dev := s.dev.(doExit := true))).(callback := NoCallback))
  }

  function Apply(s: State, a: Action): Option<State> {
    match a
    case CallStart => if s.app.Idle? then Some(s.(app := StartMode)) else None
    case CallStop => if s.app.Idle? then Some(s.(app := StopMode)) else None
    case CallClose =>
      if s.app.Idle? then Some(s.(close := Closing(2, [], s.dev.started), app := StopMode)) else None
    case CallRequest => if s.app.Idle? then Some(s.(app := OtherRequest)) else None
    case StartStep(ok) => StepStart(s, ok)
    case StopStep(ok) => StepStop(s, ok)
    case RequestStep => StepRequest(s)
    case ThreadStep(error) => StepThread(s, error)
    case Reap(i, completed, who) => StepReap(s, i, completed, who)
    case FinishCallback(zero, submitted) => StepFinish(s, zero, submitted)
  }

  /** A run; None if some action is not possible where it stands. */
  function Exec(s: State, run: seq<Action>): Option<State> {
    if run == [] then Some(s)
    else
      match Exec(s, run[..|run| - 1])
      case None => None
      case Some(t) => Apply(t, run[|run| - 1])
  }

  predicate IsForeign(a: Action) {
    a.Reap? && a.who.OtherDevice?
  }

  /** No other device shares the libusb context: only threads that use this device handle its events. */
  predicate SingleDevice(run: seq<Action>) {
    forall i | 0 <= i < |run| :: !IsForeign(run[i])
  }

  // ----- what every step keeps

  predicate AllInFlight(ts: seq<Transfer>) {
    forall i | 0 <= i < |ts| :: ts[i].inFlight
  }

  predicate AllBut(ts: seq<Transfer>, j: nat) {
    forall i | 0 <= i < |ts| && i != j :: ts[i].inFlight
  }

  predicate Starting(pc: AppPc) {
    pc.ClearStreaming? || pc.ClearExit? || pc.Submit? || pc.SetCallback? || pc.CreateThread?
  }

  predicate ThreadInv(app: AppPc, thread: ThreadPc, started: bool, callbackSet: bool, live: int) {
    && live == (if thread.NoThread? then 0 else 1)
    && (started <==> (!thread.NoThread? && !app.MarkStarted?) || app.MarkStopped?)
    && (Starting(app) ==> thread.NoThread?)
    && (app.CreateThread? ==> callbackSet)
    && (app.MarkStarted? ==> !thread.NoThread?)
    && (app.Join? ==> !thread.NoThread?)
    && (app.MarkStopped? || app.Cancel? ==> thread.NoThread?)
    && (!thread.NoThread? ==> callbackSet)
  }

  predicate TransferInv(app: AppPc, thread: ThreadPc, cb: Callback, ts: seq<Transfer>, doExit: bool) {
    && |ts| == TRANSFER_COUNT
    && (app.Submit? ==> app.k <= TRANSFER_COUNT && forall i | 0 <= i < app.k :: ts[i].inFlight)
    && (app.Cancel? ==> app.k <= TRANSFER_COUNT)
    && (app.SetCallback? || app.CreateThread? ==> AllInFlight(ts))
    && (cb.Running? ==>
          && cb.i < TRANSFER_COUNT && !ts[cb.i].inFlight
          && (!thread.NoThread? && !doExit ==> AllBut(ts, cb.i)))
    && (!thread.NoThread? && !cb.Running? && !doExit ==> AllInFlight(ts))
    && (forall i | 0 <= i < |ts| && ts[i].cancelled :: ts[i].inFlight)
  }

  /** Who runs a callback; and until the sample callback is set, what can be in flight if no start was torn. */
  predicate CallbackInv(app: AppPc, thread: ThreadPc, cb: Callback, ts: seq<Transfer>, callbackSet: bool, seen: Seen) {
    && (cb.Running? ==> !cb.who.OtherDevice?)
    && (cb.Running? && cb.who.Application? ==> InRequest(app))
    && (cb.Running? && cb.who.TransferThread? ==> thread.Handling?)
    && (!callbackSet && !seen.torn ==>
          && !cb.Running?
          && forall i | 0 <= i < |ts| && ts[i].inFlight :: (app.Submit? && i < app.k) || app.SetCallback?)
    && (seen.earlyCall ==> seen.torn)
  }

  predicate ExitInv(app: AppPc, thread: ThreadPc, doExit: bool, lateCalls: nat) {
    && (app.StopCheck? || app.Join? || app.MarkStopped? ==> doExit)
    && (!doExit ==> lateCalls == 0)
    && lateCalls <= 1
    && (thread.CallEvents? && doExit ==> lateCalls == 0)
    && (app.Submit? || app.SetCallback? || app.CreateThread? ==> !doExit)
  }

  /** The two stops of a close, and the thread they leave behind. */
  predicate CloseInv(app: AppPc, started: bool, close: Closing) {
    && close.left <= 2
    && (forall i | 0 <= i < |close.results| ::
          close.results[i].Success? || close.results[i].LibusbError? || close.results[i].ThreadError?)
    && (close.left > 0 ==> StopPc(app) && |close.results| == 2 - close.left)
    && (close.left > 0 ==>
          if app.Cancel? then close.wasStarted && !started
          else started == (close.wasStarted && (close.left == 1 ==> close.results[0] != Success)))
    && (app.Freed? ==>
          && close.left == 0 && |close.results| == 2
          && started == (close.wasStarted && close.results[0] != Success && close.results[1] != Success))
  }

  predicate StopPc(pc: AppPc) {
    pc.StopMode? || pc.RequestExit? || pc.StopCheck? || pc.Join? || pc.MarkStopped? || pc.Cancel?
  }

  predicate Inv(s: State) {
    && ThreadInv(s.app, s.thread, s.dev.started, s.dev.callbackSet, s.seen.live)
    && TransferInv(s.app, s.thread, s.callback, s.dev.transfers, s.dev.doExit)
    && CallbackInv(s.app, s.thread, s.callback, s.dev.transfers, s.dev.callbackSet, s.seen)
    && ExitInv(s.app, s.thread, s.dev.doExit, s.seen.lateCalls)
    && CloseInv(s.app, s.dev.started, s.close)
    && (s.app.ClearExit? || s.app.Submit? ==> !s.dev.streaming)
  }

  lemma StartKeepsInv(s: State, ok: bool)
    requires StepStart(s, ok).Some? && Inv(s)
    ensures Inv(StepStart(s, ok).value)
  {
    hide CloseInv;
    StartKeepsCloseInv(s, ok);
    match s.app
    case StartMode =>
    case StartCheck =>
    case ClearStreaming =>
    case ClearExit =>
    case Submit(_) =>
    case SetCallback =>
    case CreateThread =>
    case MarkStarted =>
    case _ =>
  }

  lemma StartKeepsCloseInv(s: State, ok: bool)
    requires StepStart(s, ok).Some? && CloseInv(s.app, s.dev.started, s.close)
    ensures var t := StepStart(s, ok).value; CloseInv(t.app, t.dev.started, t.close)
  {
  }

  lemma StopKeepsInv(s: State, ok: bool)
    requires StepStop(s, ok).Some? && Inv(s)
    ensures Inv(StepStop(s, ok).value)
  {
    hide CloseInv, ThreadInv, TransferInv, CallbackInv, ExitInv;
    StopKeepsThreadInv(s, ok);
    StopKeepsTransferInv(s, ok);
    StopKeepsCloseInv(s, ok);
  }

  lemma StopKeepsThreadInv(s: State, ok: bool)
    requires StepStop(s, ok).Some? && Inv(s)
    ensures var t := StepStop(s, ok).value;
      && ThreadInv(t.app, t.thread, t.dev.started, t.dev.callbackSet, t.seen.live)
      && ExitInv(t.app, t.thread, t.dev.doExit, t.seen.lateCalls)
      && (t.app.ClearExit? || t.app.Submit? ==> !t.dev.streaming)
  {
    hide CloseInv, TransferInv, CallbackInv;
  }

  lemma StopKeepsTransferInv(s: State, ok: bool)
    requires StepStop(s, ok).Some? && Inv(s)
    ensures var t := StepStop(s, ok).value;
      && TransferInv(t.app, t.thread, t.callback, t.dev.transfers, t.dev.doExit)
      && CallbackInv(t.app, t.thread, t.callback, t.dev.transfers, t.dev.callbackSet, t.seen)
  {
    if s.app.Cancel? {
      CancelKeepsTransferInv(s, ok);
    } else {
      hide CloseInv, ExitInv, CancelMark;
      assert StepStop(s, ok).value.dev.transfers == s.dev.transfers;
    }
  }

  lemma CancelKeepsTransferInv(s: State, ok: bool)
    requires s.app.Cancel? && StepStop(s, ok).Some? && Inv(s)
    ensures var t := StepStop(s, ok).value;
      && TransferInv(t.app, t.thread, t.callback, t.dev.transfers, t.dev.doExit)
      && CallbackInv(t.app, t.thread, t.callback, t.dev.transfers, t.dev.callbackSet, t.seen)
  {
    hide CloseInv, ExitInv;
  }

  lemma StopKeepsCloseInv(s: State, ok: bool)
    requires StepStop(s, ok).Some? && Inv(s)
    ensures var t := StepStop(s, ok).value; CloseInv(t.app, t.dev.started, t.close)
  {
    hide TransferInv, ExitInv, CallbackInv;
    match s.app
    case StopMode =>
    case RequestExit =>
    case StopCheck =>
    case Join =>
    case MarkStopped =>
    case Cancel(_) =>
    case _ =>
  }

  lemma ThreadKeepsInv(s: State, error: bool)
    requires StepThread(s, error).Some? && Inv(s)
    ensures Inv(StepThread(s, error).value)
  {
    hide CloseInv;
    match s.thread
    case ReadStreaming =>
    case ReadExit =>
    case CallEvents =>
    case Handling =>
    case MarkError =>
    case _ =>
  }

  /** The beginning and the end of a callback, whichever thread runs it. */
  lemma EventsKeepInv(s: State, a: Action)
    requires (a.Reap? && !IsForeign(a)) || a.FinishCallback?
    requires Apply(s, a).Some? && Inv(s)
    ensures Inv(Apply(s, a).value)
  {
    hide CloseInv;
  }

  lemma CallsKeepInv(s: State, a: Action)
    requires a.CallStart? || a.CallStop? || a.CallClose? || a.CallRequest? || a.RequestStep?
    requires Apply(s, a).Some? && Inv(s)
    ensures Inv(Apply(s, a).value)
  {
  }

  lemma StepKeepsInv(s: State, a: Action)
    requires Inv(s) && Apply(s, a).Some? && !IsForeign(a)
    ensures Inv(Apply(s, a).value)
  {
    hide StepStart, StepStop, StepThread, StepReap, StepFinish, StepRequest, Inv;
    match a {
      case StartStep(ok) => StartKeepsInv(s, ok);
      case StopStep(ok) => StopKeepsInv(s, ok);
      case ThreadStep(error) => ThreadKeepsInv(s, error);
      case Reap(_, _, _) => EventsKeepInv(s, a);
      case FinishCallback(_, _) => EventsKeepInv(s, a);
      case _ => CallsKeepInv(s, a);
    }
  }

  /** Every reachable state of a single-device session. */
  lemma {:induction false} Reachable(run: seq<Action>)
    requires SingleDevice(run) && Exec(OPENED, run).Some?
    ensures Inv(Exec(OPENED, run).value)
  {
    if run != [] {
      var front, a := run[..|run| - 1], run[|run| - 1];
      Reachable(front);
      assert !IsForeign(a);
      StepKeepsInv(Exec(OPENED, front).value, a);
    }
  }

  /** Every state a run leads through. */
  lemma {:induction false} InvAlong(s: State, run: seq<Action>)
    requires Inv(s) && SingleDevice(run) && Exec(s, run).Some?
    ensures Inv(Exec(s, run).value)
  {
    if run != [] {
      hide Inv;
      var front, a := run[..|run| - 1], run[|run| - 1];
      InvAlong(s, front);
      assert !IsForeign(a);
      StepKeepsInv(Exec(s, front).value, a);
    }
  }

  // ----- sessions

  /** Between callbacks, as long as nobody asked for an exit, every transfer of a session is in flight. */
  lemma Conservation(run: seq<Action>)
    requires SingleDevice(run) && Exec(OPENED, run).Some?
    ensures var s := Exec(OPENED, run).value;
      && |s.dev.transfers| == TRANSFER_COUNT
      && (!s.thread.NoThread? && !s.callback.Running? && !s.dev.doExit ==> AllInFlight(s.dev.transfers))
      && (!s.thread.NoThread? && s.callback.Running? && !s.dev.doExit ==> AllBut(s.dev.transfers, s.callback.i))
      && (IsStreaming(s.dev).True? && !s.callback.Running? ==> AllInFlight(s.dev.transfers))
  {
    hide Exec, CloseInv, AllInFlight, AllBut;
    Reachable(run);
  }

  /**
   * One transfer thread at most, and one event-handling call begun by it after an exit request; and the sample
   * callback is never called before it is set, unless a start was torn before.
   */
  lemma ThreadSafety(run: seq<Action>)
    requires SingleDevice(run) && Exec(OPENED, run).Some?
    ensures var s := Exec(OPENED, run).value;
      && 0 <= s.seen.live <= 1 && (s.seen.live == 1 <==> !s.thread.NoThread?)
      && s.seen.lateCalls <= 1 && (s.seen.earlyCall ==> s.seen.torn)
  {
    Reachable(run);
  }

  /** What `hackrf_close` returns, from the results of its two stops. */
  function CloseResult(results: seq<Code>): (rc: Code)
    requires |results| == 2
    ensures rc.Success? <==> results[0].Success? && results[1].Success?
    ensures !results[1].Success? ==> rc == results[1]
  {
    if results[1] != Success then results[1] else results[0]
  }

  /**
   * A close frees the device with its transfer thread still there exactly when a session was on and both
   * stops failed: then a join failed, or both mode requests did, and the caller is told.
   */
  lemma CloseLeavesThread(run: seq<Action>)
    requires SingleDevice(run) && Exec(OPENED, run).Some? && Exec(OPENED, run).value.app.Freed?
    ensures var s := Exec(OPENED, run).value;
      && |s.close.results| == 2
      && (!s.thread.NoThread? <==> s.close.wasStarted && !s.close.results[0].Success? && !s.close.results[1].Success?)
      && (!s.thread.NoThread? ==>
            && (ThreadError in s.close.results || s.close.results == [LibusbError, LibusbError])
            && !CloseResult(s.close.results).Success?)
  {
    Reachable(run);
    var s := Exec(OPENED, run).value;
    assert s.close.results == [s.close.results[0], s.close.results[1]];
  }

  // ----- hackrf_is_streaming

  function IsStreaming(d: Device): Code {
    if d.started && d.streaming && !d.doExit then True
    else if !d.started then StreamingThreadErr
    else if !d.streaming then StreamingStopped
    else StreamingExitCalled
  }

  lemma {:induction false} ExecConcat(s: State, a: seq<Action>, b: seq<Action>)
    ensures Exec(s, a + b) == match Exec(s, a) case None => None case Some(t) => Exec(t, b)
  {
    if b == [] {
      assert a + b == a;
    } else {
      ExecConcat(s, a, b[..|b| - 1]);
      assert (a + b)[..|a + b| - 1] == a + b[..|b| - 1];
    }
  }

  /**
   * A completed transfer whose sample callback returns 0 and which libusb takes again is in flight afterwards, and
   * nothing else changes; in every other case it is not, and the session is asked to exit.
   */
  lemma CallbackAnswer(run: seq<Action>, s: State, zero: bool, submitted: bool)
    requires SingleDevice(run) && Exec(OPENED, run) == Some(s) && s.callback.Running?
    ensures Apply(s, FinishCallback(zero, submitted)).Some?
    ensures var t, again := Apply(s, FinishCallback(zero, submitted)).value, s.callback.completed && zero && submitted;
      && s.callback.i < |t.dev.transfers| && t.dev.transfers[s.callback.i] == Transfer(again, false)
      && !t.callback.Running?
      && (forall j: nat | j != s.callback.i :: InFlight(t, j) <==> InFlight(s, j))
      && (if again then IsStreaming(t.dev) == IsStreaming(s.dev) && t.dev.doExit == s.dev.doExit
          else t.dev.doExit && IsStreaming(t.dev) == if IsStreaming(s.dev).True? then StreamingExitCalled
                                                     else IsStreaming(s.dev))
  {
    hide Exec;
    Reachable(run);
  }

  /**
   * The transfer thread goes back to handling events after a call without an error, as long as streaming is on
   * and no exit is requested; otherwise it ends, and after an error streaming is off.
   */
  lemma ThreadLoop(s: State, error: bool) returns (run: seq<Action>, t: State)
    requires s.thread.Handling? && !s.callback.Running?
    ensures run != [] && run[0] == ThreadStep(error) && (forall i | 0 <= i < |run| :: run[i].ThreadStep?)
    ensures Exec(s, run) == Some(t) && t.dev == s.dev.(streaming := s.dev.streaming && !error)
    ensures t.thread == if !error && s.dev.streaming && !s.dev.doExit then CallEvents else Exited
    ensures error ==> IsStreaming(t.dev) == if s.dev.started then StreamingStopped else StreamingThreadErr
  {
    run, t := Alone(s, [], s, ThreadStep(error));
    if error { run, t := AfterError(s, run, t); } else { run, t := AroundLoop(s, run, t); }
  }

  /** The run goes on with steps of the transfer thread only. */
  predicate Continues(s: State, run: seq<Action>, longer: seq<Action>, t: State) {
    run <= longer && Exec(s, longer) == Some(t) && forall i | |run| <= i < |longer| :: longer[i].ThreadStep?
  }

  lemma AfterError(s: State, run: seq<Action>, t: State) returns (run': seq<Action>, t': State)
    requires Exec(s, run) == Some(t) && t.thread.MarkError?
    ensures Continues(s, run, run', t') && t'.thread.Exited? && t'.dev == t.dev.(streaming := false)
  {
    hide Exec;
    run', t' := Alone(s, run, t, ThreadStep(false));
    run', t' := Alone(s, run', t', ThreadStep(false));
  }

  lemma AroundLoop(s: State, run: seq<Action>, t: State) returns (run': seq<Action>, t': State)
    requires Exec(s, run) == Some(t) && t.thread.ReadStreaming?
    ensures Continues(s, run, run', t') && t'.dev == t.dev
    ensures t'.thread == if t.dev.streaming && !t.dev.doExit then CallEvents else Exited
  {
    hide Exec;
    run', t' := Alone(s, run, t, ThreadStep(false));
    if t.dev.streaming { run', t' := Alone(s, run', t', ThreadStep(false)); }
  }

  lemma Alone(s: State, run: seq<Action>, t: State, a: Action) returns (run': seq<Action>, t': State)
    requires Exec(s, run) == Some(t) && Apply(t, a).Some?
    ensures run' == run + [a] && Exec(s, run') == Some(t') && Apply(t, a) == Some(t')
  {
    run', t' := run + [a], Apply(t, a).value;
    assert run'[..|run|] == run;
  }

  /** At its last action, the run takes the application's step at pc. */
  predicate EndsAt(s: State, run: seq<Action>, pc: AppPc) {
    && run != [] && Exec(s, run[..|run| - 1]).Some? && Exec(s, run[..|run| - 1]).value.app == pc
    && (run[|run| - 1].StartStep? || run[|run| - 1].StopStep?)
  }

  /** The run ends a session. */
  predicate Stops(s: State, run: seq<Action>) {
    run != [] && (EndsAt(s, run, MarkStopped) || Stops(s, run[..|run| - 1]))
  }

  /** The run completes a start, after ending the session that was on, if any. */
  predicate Restarts(s: State, run: seq<Action>) {
    && run != []
    && (|| (EndsAt(s, run, MarkStarted) && (s.dev.started ==> Stops(s, run[..|run| - 1])))
        || Restarts(s, run[..|run| - 1]))
  }

  lemma OnlyMarkStarted(s: State, a: Action)
    requires Inv(s) && !IsForeign(a) && Apply(s, a).Some?
    ensures var t := Apply(s, a).value;
      && (!IsStreaming(s.dev).True? && IsStreaming(t.dev).True? ==> s.app == MarkStarted && a.StartStep?)
      && (s.dev.started && !t.dev.started ==> s.app == MarkStopped && a.StopStep?)
      && (s.app == MarkStarted ==> !s.dev.started)
  {
    hide CloseInv, ExitInv, TransferInv, CallbackInv;
  }

  /**
   * Within a session the answer of `hackrf_is_streaming` never returns to TRUE: wherever it does, the
   * application has completed a start in between, and a stop before that if a session was on.
   */
  lemma {:induction false} BackToTrueNeedsStart(s: State, run: seq<Action>)
    requires Inv(s) && SingleDevice(run) && Exec(s, run).Some? && !IsStreaming(s.dev).True?
    ensures Inv(Exec(s, run).value)
    ensures s.dev.started && !Exec(s, run).value.dev.started ==> Stops(s, run)
    ensures IsStreaming(Exec(s, run).value.dev).True? ==> Restarts(s, run)
  {
    if run != [] {
      hide Inv, IsStreaming, Apply;
      var front, a := run[..|run| - 1], run[|run| - 1];
      BackToTrueNeedsStart(s, front);
      var u := Exec(s, front).value;
      StepKeepsInv(u, a);
      OnlyMarkStarted(u, a);
    }
  }

  // ----- two calls of hackrf_is_streaming, read by read

  /** The action can make a flag that the answer depends on better: a start past its check for a session. */
  predicate Raises(s: State, a: Action) {
    a.StartStep? && (s.app.ClearExit? || s.app == Submit(TRANSFER_COUNT) || s.app.MarkStarted?)
  }

  /** The run has such a step, and before it a completed stop if a session was on at the beginning. */
  predicate StartsAgain(s: State, run: seq<Action>) {
    && run != []
    && (|| (&& Exec(s, run[..|run| - 1]).Some? && Raises(Exec(s, run[..|run| - 1]).value, run[|run| - 1])
            && (s.dev.started ==> Stops(s, run[..|run| - 1])))
        || StartsAgain(s, run[..|run| - 1]))
  }

  predicate Falls(d: Device, e: Device) {
    (e.started ==> d.started) && (e.streaming ==> d.streaming) && (d.doExit ==> e.doExit)
  }

  lemma StepFlags(s: State, a: Action)
    requires Inv(s) && !IsForeign(a) && Apply(s, a).Some?
    ensures Raises(s, a) || Falls(s.dev, Apply(s, a).value.dev)
    ensures Raises(s, a) ==> !s.dev.started
    ensures s.dev.started && !Apply(s, a).value.dev.started ==> s.app == MarkStopped && a.StopStep?
  {
    hide CloseInv, ExitInv, TransferInv, CallbackInv;
  }

  lemma {:induction false} FlagsFall(s: State, run: seq<Action>)
    requires Inv(s) && SingleDevice(run) && Exec(s, run).Some?
    ensures Inv(Exec(s, run).value)
    ensures s.dev.started && !Exec(s, run).value.dev.started ==> Stops(s, run)
    ensures StartsAgain(s, run) || Falls(s.dev, Exec(s, run).value.dev)
  {
    if run != [] {
      hide Inv, Apply, Raises;
      var front, a := run[..|run| - 1], run[|run| - 1];
      FlagsFall(s, front);
      var u := Exec(s, front).value;
      StepKeepsInv(u, a);
      StepFlags(u, a);
    }
  }

  /** The three reads of one call, with any steps between them. */
  predicate SeesTrue(a: State, b: State, c: State) {
    a.dev.started && b.dev.streaming && !c.dev.doExit
  }

  /** Six states of a run, each reached from the one before. */
  predicate Leads(states: seq<State>, runs: seq<seq<Action>>) {
    && |runs| == 5 && |states| == 6
    && forall i | 0 <= i < 5 :: SingleDevice(runs[i]) && Exec(states[i], runs[i]) == Some(states[i + 1])
  }

  /**
   * Two calls one after the other, with any steps of any thread between any two of their reads: if the first
   * does not see TRUE and the second does, then between two of the reads a start got past its check for a
   * session, after a stop if a session was on there.
   */
  lemma SecondCallAgrees(states: seq<State>, runs: seq<seq<Action>>)
    requires Leads(states, runs) && Inv(states[0])
    requires SeesTrue(states[3], states[4], states[5]) && !SeesTrue(states[0], states[1], states[2])
    ensures exists i :: 0 <= i < 5 && StartsAgain(states[i], runs[i])
  {
    hide Inv, Exec, StartsAgain;
    FlagsFall(states[0], runs[0]);
    FlagsFall(states[1], runs[1]);
    FlagsFall(states[2], runs[2]);
    FlagsFall(states[3], runs[3]);
    FlagsFall(states[4], runs[4]);
  }

  // ----- starting again

  predicate NoneInFlight(s: State) {
    forall i | 0 <= i < |s.dev.transfers| :: !s.dev.transfers[i].inFlight
  }

  /** If the action is a submission of a start or the creation of its thread, libusb or pthread grants it. */
  predicate Granted(s: State, a: Action) {
    a.StartStep? && ((s.app.Submit? && s.app.k < TRANSFER_COUNT) || s.app.CreateThread?) ==> a.ok
  }

  predicate AllGranted(s: State, run: seq<Action>) {
    run != [] ==>
      && AllGranted(s, run[..|run| - 1])
      && (Exec(s, run[..|run| - 1]).Some? ==> Granted(Exec(s, run[..|run| - 1]).value, run[|run| - 1]))
  }

  /** The part of a start from its first submission on. */
  predicate Submitting(pc: AppPc) {
    pc.Submit? || pc.SetCallback? || pc.CreateThread? || pc.MarkStarted?
  }

  /** The run does not go on after the end of the start. */
  predicate WithinStart(s: State, run: seq<Action>) {
    run != [] ==>
      && WithinStart(s, run[..|run| - 1])
      && Exec(s, run[..|run| - 1]).Some? && Submitting(Exec(s, run[..|run| - 1]).value.app)
  }

  /** How far a start that began at s has come in t; `granted` is whether all its calls so far were granted. */
  predicate Progress(s: State, t: State, granted: bool) {
    && |s.dev.transfers| == |t.dev.transfers| == TRANSFER_COUNT
    && match t.app
       case Submit(k) =>
         && granted && k <= TRANSFER_COUNT && t.thread.NoThread? && !t.dev.streaming
         && (forall i | 0 <= i < k :: !s.dev.transfers[i].inFlight)
         && (forall i | k <= i < TRANSFER_COUNT :: t.dev.transfers[i] == s.dev.transfers[i])
       case SetCallback => granted && NoneInFlight(s) && t.thread.NoThread?
       case CreateThread => granted && NoneInFlight(s) && t.thread.NoThread?
       case MarkStarted => granted && NoneInFlight(s) && !t.thread.NoThread?
       case Idle =>
         if t.result.Success? then granted && NoneInFlight(s) && !t.thread.NoThread? && t.dev.started
         else
           && !(granted && NoneInFlight(s)) && t.thread.NoThread? && !t.dev.started
           && ((t.result.LibusbError? && !t.dev.streaming) || (t.result.ThreadError? && NoneInFlight(s)))
       case _ => false
  }

  lemma StepProgress(s: State, t: State, granted: bool, a: Action)
    requires Inv(t) && Progress(s, t, granted) && Submitting(t.app) && !IsForeign(a) && Apply(t, a).Some?
    ensures Progress(s, Apply(t, a).value, granted && Granted(t, a))
  {
    hide CloseInv, ExitInv;
    if !a.StartStep? && !t.app.MarkStarted? { OnlyStartSteps(t, a); }
  }

  /** While a start submits and creates its thread, no other thread changes a transfer. */
  lemma OnlyStartSteps(t: State, a: Action)
    requires Inv(t) && Submitting(t.app) && !t.app.MarkStarted? && !IsForeign(a) && !a.StartStep?
    ensures Apply(t, a).None?
  {
    hide CloseInv, ExitInv, TransferInv;
  }

  lemma {:induction false} StartProgress(s: State, run: seq<Action>)
    requires Inv(s) && s.app == Submit(0) && SingleDevice(run) && WithinStart(s, run) && Exec(s, run).Some?
    ensures Inv(Exec(s, run).value) && Progress(s, Exec(s, run).value, AllGranted(s, run))
  {
    if run == [] {
      AtSubmission(s);
    } else {
      hide Inv, Progress, Granted, Apply;
      var front, a := run[..|run| - 1], run[|run| - 1];
      StartProgress(s, front);
      assert !IsForeign(a);
      StepKeepsInv(Exec(s, front).value, a);
      StepProgress(s, Exec(s, front).value, AllGranted(s, front), a);
    }
  }

  lemma AtSubmission(s: State)
    requires Inv(s) && s.app == Submit(0)
    ensures Progress(s, s, true)
  {
    hide CloseInv, ExitInv, CallbackInv;
  }

  /**
   * Any start, however the session before it went: from the first submission on it ends in success, with a
   * thread and a session, if and only if no transfer is in flight there and libusb and pthread grant its calls.
   */
  lemma StartSucceedsExactly(before: seq<Action>, run: seq<Action>, s: State, t: State)
    requires SingleDevice(before) && Exec(OPENED, before) == Some(s) && s.app == Submit(0)
    requires SingleDevice(run) && WithinStart(s, run) && Exec(s, run) == Some(t) && t.app.Idle?
    ensures t.result.Success? <==> NoneInFlight(s) && AllGranted(s, run)
    ensures t.result.Success? <==> !t.thread.NoThread?
    ensures t.result.Success? <==> t.dev.started
    ensures !t.result.Success? ==> t.result.LibusbError? || (t.result.ThreadError? && NoneInFlight(s))
    ensures t.result.LibusbError? ==> !t.dev.streaming
  {
    hide Exec, Inv, AllGranted, WithinStart;
    Reachable(before);
    StartProgress(s, run);
  }

  // ----- which starts find a transfer in flight

  predicate BeforeSubmission(pc: AppPc) {
    pc.StartMode? || pc.StartCheck? || pc.ClearStreaming? || pc.ClearExit?
  }

  /** From the call of a start on, the run stays before its first submission. */
  predicate WithinCheck(s: State, run: seq<Action>) {
    run != [] ==>
      && WithinCheck(s, run[..|run| - 1])
      && Exec(s, run[..|run| - 1]).Some? && BeforeSubmission(Exec(s, run[..|run| - 1]).value.app)
  }

  /** If the action is the end of the mode request, that succeeds. */
  predicate ModeAnswered(s: State, a: Action) {
    s.app.StartMode? && a.StartStep? ==> a.ok
  }

  /** The mode request of the start, if it has ended, succeeded. */
  predicate ModeGranted(s: State, run: seq<Action>) {
    run != [] ==>
      && ModeGranted(s, run[..|run| - 1])
      && (Exec(s, run[..|run| - 1]).Some? ==> ModeAnswered(Exec(s, run[..|run| - 1]).value, run[|run| - 1]))
  }

  /** How far a start called at s has come in t, before its first submission. */
  predicate CheckProgress(s: State, t: State, granted: bool) {
    && t.dev.started == s.dev.started
    && match t.app
       case StartMode => granted
       case StartCheck => granted
       case ClearStreaming => granted && !s.dev.started
       case ClearExit => granted && !s.dev.started
       case Submit(k) => k == 0 && granted && !s.dev.started
       case Idle => if granted then s.dev.started && t.result.Busy? else t.result.LibusbError?
       case _ => false
  }

  lemma StepCheck(s: State, t: State, granted: bool, a: Action)
    requires CheckProgress(s, t, granted) && BeforeSubmission(t.app) && Apply(t, a).Some?
    ensures CheckProgress(s, Apply(t, a).value, granted && ModeAnswered(t, a))
  {
  }

  lemma {:induction false} CheckRun(s: State, run: seq<Action>)
    requires s.app.StartMode? && WithinCheck(s, run) && Exec(s, run).Some?
    ensures CheckProgress(s, Exec(s, run).value, ModeGranted(s, run))
  {
    if run != [] {
      hide Apply, CheckProgress, ModeAnswered;
      CheckRun(s, run[..|run| - 1]);
      StepCheck(s, Exec(s, run[..|run| - 1]).value, ModeGranted(s, run[..|run| - 1]), run[|run| - 1]);
    }
  }

  /** A start gets to its first submission if and only if its mode request succeeds and no session is on. */
  lemma CheckExactly(s: State, run: seq<Action>, t: State)
    requires s.app.StartMode? && WithinCheck(s, run) && Exec(s, run) == Some(t) && !BeforeSubmission(t.app)
    ensures t.app == Submit(0) || t.app.Idle?
    ensures t.app == Submit(0) <==> ModeGranted(s, run) && !s.dev.started
    ensures t.app.Idle? ==> t.result == if ModeGranted(s, run) then Busy else LibusbError
  {
    hide Exec, WithinCheck, ModeGranted;
    CheckRun(s, run);
  }

  /** libusb has transfer i, or its callback is running. */
  predicate Held(s: State, i: nat) {
    InFlight(s, i) || (s.callback.Running? && s.callback.i == i)
  }

  lemma StepHolds(s: State, a: Action, i: nat)
    requires BeforeSubmission(s.app) && Apply(s, a).Some? && Held(Apply(s, a).value, i)
    ensures Held(s, i)
  {
  }

  /** What a start finds in flight at its first submission was in flight when it was called. */
  lemma {:induction false} RequestOnlyTakes(s: State, run: seq<Action>, i: nat)
    requires WithinCheck(s, run) && Exec(s, run).Some? && Held(Exec(s, run).value, i)
    ensures Held(s, i)
  {
    if run != [] {
      hide Apply, Held;
      StepHolds(Exec(s, run[..|run| - 1]).value, run[|run| - 1], i);
      RequestOnlyTakes(s, run[..|run| - 1], i);
    }
  }

  /** The calls of the run into libusb and pthread succeed, and no other device is around. */
  predicate Fine(a: Action) {
    match a
    case StartStep(ok) => ok
    case StopStep(ok) => ok
    case ThreadStep(error) => !error
    case _ => !IsForeign(a)
  }

  ghost predicate FineTo(run: seq<Action>, s: State) {
    Exec(OPENED, run) == Some(s) && forall i | 0 <= i < |run| :: Fine(run[i])
  }

  lemma Then(run: seq<Action>, s: State, a: Action) returns (run': seq<Action>, s': State)
    requires FineTo(run, s) && Fine(a) && Apply(s, a).Some?
    ensures FineTo(run', s') && Apply(s, a) == Some(s') && run' == run + [a]
  {
    run', s' := run + [a], Apply(s, a).value;
    assert run'[..|run|] == run;
  }

  lemma FineIsReachable(run: seq<Action>, s: State)
    requires FineTo(run, s)
    ensures Inv(s)
  {
    hide Inv, Exec;
    assert forall i | 0 <= i < |run| :: !IsForeign(run[i]);
    Reachable(run);
  }

  /** No session is on, and the application does nothing. */
  predicate AtRest(s: State) {
    s.app.Idle? && !s.dev.started && s.thread.NoThread? && !s.callback.Running? && |s.dev.transfers| == TRANSFER_COUNT
  }

  lemma RestState(run: seq<Action>, s: State)
    requires FineTo(run, s) && s.app.Idle? && !s.dev.started
    ensures AtRest(s)
  {
    hide FineTo;
    FineIsReachable(run, s);
  }

  /** From the mode request of a start to its first submission. */
  lemma ToSubmission(run: seq<Action>, s: State) returns (run': seq<Action>, s': State)
    requires FineTo(run, s) && s.app.StartMode? && !s.dev.started && !s.callback.Running?
    ensures FineTo(run', s') && s'.app == Submit(0) && run <= run'
    ensures s'.dev.transfers == s.dev.transfers && s'.thread == s.thread && s'.dev.callbackSet == s.dev.callbackSet
    ensures s'.seen == s.seen.(lateCalls := 0) && !s'.callback.Running?
  {
    hide FineTo;
    run', s' := Then(run, s, StartStep(true));
    run', s' := Then(run', s', StartStep(true));
    run', s' := Then(run', s', StartStep(true));
    run', s' := Then(run', s', StartStep(true));
  }

  /** The submissions of a start, up to the first transfer in flight, if there is one. */
  lemma {:induction false} SubmitRest(run: seq<Action>, s: State) returns (run': seq<Action>, s': State)
    requires FineTo(run, s) && s.app.Submit? && s.app.k <= |s.dev.transfers| == TRANSFER_COUNT
    ensures FineTo(run', s') && run <= run' && s'.thread == s.thread
    ensures if forall i | s.app.k <= i < TRANSFER_COUNT :: !s.dev.transfers[i].inFlight
            then s'.app == Submit(TRANSFER_COUNT)
            else s'.app.Idle? && s'.result.LibusbError?
    decreases TRANSFER_COUNT - s.app.k
  {
    hide FineTo;
    run', s' := run, s;
    if s.app.k < TRANSFER_COUNT {
      run', s' := Then(run, s, StartStep(true));
      assert forall i | s.app.k < i < TRANSFER_COUNT :: s'.dev.transfers[i] == s.dev.transfers[i];
      if s'.app.Submit? { run', s' := SubmitRest(run', s'); }
    }
  }

  /**
   * A start called while a transfer is in flight is refused, although no call has failed, if its mode request
   * handles no event.
   */
  lemma RestartCanFail(run: seq<Action>, s: State) returns (run': seq<Action>, s': State)
    requires FineTo(run, s) && s.app.Idle? && !s.dev.started && !NoneInFlight(s)
    ensures FineTo(run', s') && run + [CallStart] <= run'
    ensures s'.app.Idle? && s'.result.LibusbError? && s'.thread.NoThread?
  {
    hide FineTo;
    RestState(run, s);
    run', s' := Then(run, s, CallStart);
    run', s' := ToSubmission(run', s');
    run', s' := SubmitRest(run', s');
  }

  /** While the application waits in a request, it takes back transfer i and later ones, but for those to keep. */
  lemma {:induction false} Drain(run: seq<Action>, s: State, i: nat, keep: set<nat>)
    returns (run': seq<Action>, s': State)
    requires FineTo(run, s) && InRequest(s.app) && !s.callback.Running? && i <= |s.dev.transfers|
    ensures FineTo(run', s') && run <= run' && !s'.callback.Running?
    ensures s'.app == s.app && s'.thread == s.thread && s'.close == s.close && s'.dev.started == s.dev.started
    ensures |s'.dev.transfers| == |s.dev.transfers|
    ensures forall j :: 0 <= j < |s.dev.transfers| ==>
      (s'.dev.transfers[j].inFlight <==> s.dev.transfers[j].inFlight && (j < i || j in keep))
    decreases |s.dev.transfers| - i
  {
    hide FineTo;
    run', s' := run, s;
    if i < |s.dev.transfers| {
      if s.dev.transfers[i].inFlight && i !in keep {
        run', s' := Then(run, s, Reap(i, false, Application));
        run', s' := Then(run', s', FinishCallback(false, false));
      }
      run', s' := Drain(run', s', i + 1, keep);
    }
  }

  /** It succeeds if its mode request handles the events of all transfers in flight, and nothing fails. */
  lemma RestartCanSucceed(run: seq<Action>, s: State) returns (run': seq<Action>, s': State)
    requires FineTo(run, s) && s.app.Idle? && !s.dev.started
    ensures FineTo(run', s') && run + [CallStart] <= run'
    ensures s'.app.Idle? && s'.result.Success? && IsStreaming(s'.dev).True? && s'.thread.ReadStreaming?
    ensures |s'.dev.transfers| == TRANSFER_COUNT && AllInFlight(s'.dev.transfers)
  {
    hide FineTo;
    RestState(run, s);
    run', s' := Then(run, s, CallStart);
    run', s' := Drain(run', s', 0, {});
    run', s' := ToSubmission(run', s');
    run', s' := SubmitRest(run', s');
    run', s' := FinishStart(run', s');
  }

  lemma FinishStart(run: seq<Action>, s: State) returns (run': seq<Action>, s': State)
    requires FineTo(run, s) && s.app == Submit(TRANSFER_COUNT)
    ensures FineTo(run', s') && run <= run'
    ensures s'.app.Idle? && s'.result.Success? && IsStreaming(s'.dev).True? && s'.thread.ReadStreaming?
    ensures |s'.dev.transfers| == TRANSFER_COUNT && AllInFlight(s'.dev.transfers)
  {
    AfterSubmission(run, s);
    hide FineTo, AllInFlight;
    run', s' := Then(run, s, StartStep(true));
    run', s' := Then(run', s', StartStep(true));
    run', s' := BeginSession(run', s');
  }

  lemma BeginSession(run: seq<Action>, s: State) returns (run': seq<Action>, s': State)
    requires FineTo(run, s) && s.app.CreateThread?
    ensures FineTo(run', s') && run <= run'
    ensures s'.app.Idle? && s'.result.Success? && s'.thread.ReadStreaming? && s'.dev == s.dev.(started := true)
  {
    hide FineTo;
    run', s' := Then(run, s, StartStep(true));
    run', s' := Then(run', s', StartStep(true));
  }

  lemma AfterSubmission(run: seq<Action>, s: State)
    requires FineTo(run, s) && s.app == Submit(TRANSFER_COUNT)
    ensures |s.dev.transfers| == TRANSFER_COUNT && AllInFlight(s.dev.transfers) && !s.dev.doExit
  {
    hide FineTo;
    FineIsReachable(run, s);
  }

  // ----- how a stop ends

  /** From the call of a stop or close on, the run does not go on after its end. */
  predicate WithinStops(s: State, run: seq<Action>) {
    run != [] ==>
      && WithinStops(s, run[..|run| - 1])
      && Exec(s, run[..|run| - 1]).Some? && StopPc(Exec(s, run[..|run| - 1]).value.app)
  }

  /** If the action ends the foreign call made at pc, the call succeeds. */
  predicate Answered(s: State, a: Action, pc: AppPc) {
    a.StopStep? && s.app == pc ==> a.ok
  }

  predicate AllAnswered(s: State, run: seq<Action>, pc: AppPc) {
    run != [] ==>
      && AllAnswered(s, run[..|run| - 1], pc)
      && (Exec(s, run[..|run| - 1]).Some? ==> Answered(Exec(s, run[..|run| - 1]).value, run[|run| - 1], pc))
  }

  predicate CancelledUpTo(ts: seq<Transfer>, k: nat) {
    forall i | 0 <= i < |ts| && i < k && ts[i].inFlight :: ts[i].cancelled
  }

  /** How far a stop called at s has come in t; `mode` and `join` are what its mode request and its join returned. */
  predicate StopProgress(s: State, t: State, mode: bool, join: bool) {
    && t.close.left == 0
    && match t.app
       case StopMode => mode && join && t.dev.started == s.dev.started
       case RequestExit => mode && join && t.dev.started == s.dev.started
       case StopCheck => mode && join && t.dev.started == s.dev.started && t.dev.doExit
       case Join => mode && join && s.dev.started && t.dev.started && t.dev.doExit
       case MarkStopped => mode && join && s.dev.started && t.dev.doExit
       case Cancel(k) =>
         mode && join && s.dev.started && !t.dev.started && t.dev.doExit && CancelledUpTo(t.dev.transfers, k)
       case Idle =>
         if !mode then t.result.LibusbError? && t.dev.started == s.dev.started
         else if !join then t.result.ThreadError? && s.dev.started && t.dev.started && t.dev.doExit
         else
           && t.result.Success? && !t.dev.started && t.dev.doExit
           && (s.dev.started ==> CancelledUpTo(t.dev.transfers, TRANSFER_COUNT))
       case _ => false
  }

  lemma StepStops(s: State, t: State, mode: bool, join: bool, a: Action)
    requires Inv(t) && StopProgress(s, t, mode, join) && StopPc(t.app) && !IsForeign(a) && Apply(t, a).Some?
    ensures StopProgress(s, Apply(t, a).value, mode && Answered(t, a, StopMode), join && Answered(t, a, Join))
  {
    hide CloseInv, ExitInv;
    if t.app.Cancel? && !a.StopStep? { OnlyStopSteps(t, a); }
  }

  /** While a stop cancels, no other thread changes a transfer. */
  lemma OnlyStopSteps(t: State, a: Action)
    requires Inv(t) && t.app.Cancel? && !IsForeign(a) && !a.StopStep?
    ensures Apply(t, a).None?
  {
    hide CloseInv, ExitInv, TransferInv;
  }

  lemma {:induction false} StopRun(s: State, run: seq<Action>)
    requires Inv(s) && s.app.StopMode? && s.close.left == 0 && SingleDevice(run) && WithinStops(s, run)
    requires Exec(s, run).Some?
    ensures Inv(Exec(s, run).value)
    ensures StopProgress(s, Exec(s, run).value, AllAnswered(s, run, StopMode), AllAnswered(s, run, Join))
  {
    if run != [] {
      hide Inv, StopProgress, Answered, Apply;
      var front, a := run[..|run| - 1], run[|run| - 1];
      StopRun(s, front);
      assert !IsForeign(a);
      StepKeepsInv(Exec(s, front).value, a);
      StepStops(s, Exec(s, front).value, AllAnswered(s, front, StopMode), AllAnswered(s, front, Join), a);
    }
  }

  /**
   * Any stop, whatever happens meanwhile: it returns the failure of its mode request, or else of its join, and
   * otherwise succeeds. After a success no session is on and no thread is left, and a session that was on has its
   * transfers in flight cancelled; a failed mode request ends nothing.
   */
  lemma StopEndsExactly(before: seq<Action>, run: seq<Action>, s: State, t: State)
    requires SingleDevice(before) && Exec(OPENED, before) == Some(s) && s.app.StopMode? && s.close.left == 0
    requires SingleDevice(run) && WithinStops(s, run) && Exec(s, run) == Some(t) && t.app.Idle?
    ensures t.result == if !AllAnswered(s, run, StopMode) then LibusbError
                        else if !AllAnswered(s, run, Join) then ThreadError else Success
    ensures t.result.Success? ==> t.thread.NoThread? && t.dev.doExit && IsStreaming(t.dev) == StreamingThreadErr
    ensures t.result.Success? && s.dev.started ==> CancelledUpTo(t.dev.transfers, TRANSFER_COUNT)
    ensures t.result.ThreadError? ==> s.dev.started && !t.thread.NoThread? && t.dev.doExit
    ensures t.result.LibusbError? ==> t.dev.started == s.dev.started
  {
    hide Exec, AllAnswered, WithinStops, CancelledUpTo;
    Reachable(before);
    StopRun(s, run);
  }

  // ----- a whole session, and the start after it

  /** Stopping a session right after its start leaves its transfers cancelled but in flight. */
  lemma HealthyStop() returns (run: seq<Action>, s: State)
    ensures FineTo(run, s)
    ensures s.app.Idle? && s.result.Success? && !s.dev.started && |s.dev.transfers| == TRANSFER_COUNT
    ensures AllInFlight(s.dev.transfers) && forall i | 0 <= i < TRANSFER_COUNT :: s.dev.transfers[i].cancelled
  {
    hide FineTo;
    NothingYet();
    run, s := RestartCanSucceed([], OPENED);
    OneSession(run, s);
    run, s := Then(run, s, CallStop);
    run, s := Then(run, s, StopStep(true));
    run, s := Then(run, s, StopStep(true));
    run, s := Then(run, s, StopStep(true));
    run, s := Then(run, s, ThreadStep(false));
    run, s := Then(run, s, ThreadStep(false));
    run, s := Then(run, s, StopStep(true));
    run, s := Then(run, s, StopStep(true));
    run, s := CancelRest(run, s);
    run, s := Then(run, s, StopStep(true));
  }

  lemma NothingYet()
    ensures FineTo([], OPENED)
  {
  }

  lemma OneSession(run: seq<Action>, s: State)
    requires FineTo(run, s) && s.app.Idle? && s.thread.ReadStreaming?
    ensures s.close.left == 0 && s.dev.started && !InsideCallback(s, Application)
  {
    hide FineTo;
    FineIsReachable(run, s);
  }

  /** The cancellations of a stop mark the transfers in flight. */
  lemma {:induction false} CancelRest(run: seq<Action>, s: State) returns (run': seq<Action>, s': State)
    requires FineTo(run, s) && s.app.Cancel? && s.app.k <= |s.dev.transfers| == TRANSFER_COUNT
    ensures FineTo(run', s') && run <= run' && s'.app == Cancel(TRANSFER_COUNT)
    ensures s' == s.(app := s'.app, dev := s.dev.(transfers := s'.dev.transfers))
    ensures |s'.dev.transfers| == TRANSFER_COUNT
    ensures forall i | 0 <= i < TRANSFER_COUNT ::
      s'.dev.transfers[i] == if i < s.app.k then s.dev.transfers[i] else Transfer(InFlight(s, i), InFlight(s, i))
    decreases TRANSFER_COUNT - s.app.k
  {
    hide FineTo;
    run', s' := run, s;
    if s.app.k < TRANSFER_COUNT {
      run', s' := Then(run, s, StopStep(true));
      run', s' := CancelRest(run', s');
    }
  }

  /** After a healthy session and its stop, the next start can be refused and can succeed; no call fails in either. */
  lemma RestartGoesEitherWay()
    returns (stopped: seq<Action>, run: seq<Action>, refused: State, run': seq<Action>, streaming: State)
    ensures stopped + [CallStart] <= run && stopped + [CallStart] <= run'
    ensures FineTo(run, refused) && refused.app.Idle? && refused.result.LibusbError? && !refused.dev.started
    ensures FineTo(run', streaming) && streaming.app.Idle? && IsStreaming(streaming.dev).True?
  {
    hide FineTo;
    var s;
    stopped, s := HealthyStop();
    assert s.dev.transfers[0].inFlight;
    run, refused := RestartCanFail(stopped, s);
    run', streaming := RestartCanSucceed(stopped, s);
    RefusedHasNoSession(run, refused);
  }

  lemma RefusedHasNoSession(run: seq<Action>, s: State)
    requires FineTo(run, s) && s.app.Idle? && s.thread.NoThread?
    ensures !s.dev.started
  {
    hide FineTo;
    FineIsReachable(run, s);
  }

  // ----- what a close frees

  /** Transfer i is in flight, or can be again at the end of the callback that runs. */
  predicate MayReturn(s: State, i: nat) {
    InFlight(s, i) || (s.callback.Running? && s.callback.i == i && s.callback.completed)
  }

  lemma StepReturns(s: State, a: Action, i: nat)
    requires StopPc(s.app) && Apply(s, a).Some? && MayReturn(Apply(s, a).value, i)
    ensures MayReturn(s, i)
  {
  }

  /** A transfer that is in flight when a close frees the device was in flight, or in its callback, at the call. */
  lemma {:induction false} CloseOnlyTakes(s: State, run: seq<Action>, i: nat)
    requires WithinStops(s, run) && Exec(s, run).Some? && MayReturn(Exec(s, run).value, i)
    ensures MayReturn(s, i)
  {
    if run != [] {
      hide Apply, MayReturn;
      StepReturns(Exec(s, run[..|run| - 1]).value, run[|run| - 1], i);
      CloseOnlyTakes(s, run[..|run| - 1], i);
    }
  }

  /** How many steps the transfer thread still makes once an exit is requested. */
  function StepsLeft(pc: ThreadPc): nat {
    match pc
    case ReadExit => 1
    case ReadStreaming => 2
    case MarkError => 3
    case Handling => 3
    case CallEvents => 4
    case _ => 0
  }

  lemma {:induction false} ThreadEnds(run: seq<Action>, s: State) returns (run': seq<Action>, s': State)
    requires FineTo(run, s) && s.dev.doExit && !s.thread.NoThread? && !s.callback.Running?
    ensures FineTo(run', s') && run <= run' && s'.thread.Exited? && !s'.callback.Running?
    ensures s'.app == s.app && s'.close == s.close && s'.dev == s.dev.(streaming := s'.dev.streaming)
    decreases StepsLeft(s.thread)
  {
    hide FineTo;
    run', s' := run, s;
    if !s.thread.Exited? {
      run', s' := Then(run, s, ThreadStep(false));
      run', s' := ThreadEnds(run', s');
    }
  }

  /** One of the two stops of a close, without a failure: the session ends, and no transfer comes back. */
  lemma StopOnce(run: seq<Action>, s: State) returns (run': seq<Action>, s': State)
    requires FineTo(run, s) && s.app.StopMode? && 1 <= s.close.left <= 2 && !s.callback.Running?
    ensures FineTo(run', s') && run <= run' && !s'.dev.started && !s'.callback.Running?
    ensures s'.close.left == s.close.left - 1 && s'.app == if s.close.left == 1 then Freed else StopMode
    ensures forall i: nat :: InFlight(s', i) <==> InFlight(s, i)
  {
    hide FineTo;
    run', s' := Then(run, s, StopStep(true));
    run', s' := Then(run', s', StopStep(true));
    run', s' := Then(run', s', StopStep(true));
    if s'.app.Join? {
      ThreadAtJoin(run', s');
      run', s' := ThreadEnds(run', s');
      run', s' := Then(run', s', StopStep(true));
      run', s' := Then(run', s', StopStep(true));
      run', s' := CancelAll(run', s');
    }
  }

  lemma ThreadAtJoin(run: seq<Action>, s: State)
    requires FineTo(run, s) && s.app.Join?
    ensures !s.thread.NoThread? && s.dev.doExit && |s.dev.transfers| == TRANSFER_COUNT
  {
    hide FineTo;
    FineIsReachable(run, s);
  }

  lemma CancelAll(run: seq<Action>, s: State) returns (run': seq<Action>, s': State)
    requires FineTo(run, s) && s.app == Cancel(0) && |s.dev.transfers| == TRANSFER_COUNT && 1 <= s.close.left
    ensures FineTo(run', s') && run <= run' && s'.dev.started == s.dev.started && s'.callback == s.callback
    ensures s'.close.left == s.close.left - 1 && s'.app == if s.close.left == 1 then Freed else StopMode
    ensures forall i: nat :: InFlight(s', i) <==> InFlight(s, i)
  {
    hide FineTo;
    run', s' := CancelRest(run, s);
    run', s' := Then(run', s', StopStep(true));
  }

  /** The end of the callback that runs while the application does nothing, if there is one. */
  lemma EndCallback(run: seq<Action>, s: State, keep: set<nat>) returns (run': seq<Action>, s': State)
    requires FineTo(run, s) && s.app.Idle?
    ensures FineTo(run', s') && run <= run' && s'.app.Idle? && !s'.callback.Running?
    ensures |s'.dev.transfers| == TRANSFER_COUNT
    ensures forall i: nat :: i in keep ==> (InFlight(s', i) <==> MayReturn(s, i))
  {
    CallbackFacts(run, s);
    hide FineTo;
    run', s' := run, s;
    if s.callback.Running? {
      var back := s.callback.i in keep;
      run', s' := Then(run, s, FinishCallback(back, back));
    }
  }

  lemma CallbackFacts(run: seq<Action>, s: State)
    requires FineTo(run, s)
    ensures |s.dev.transfers| == TRANSFER_COUNT
    ensures s.callback.Running? ==> s.callback.i < TRANSFER_COUNT && !InFlight(s, s.callback.i)
  {
    hide FineTo;
    FineIsReachable(run, s);
  }

  /**
   * Whatever the application has done, its close can free the device, with no thread and no failing call, while
   * any choice of the transfers that `CloseOnlyTakes` allows is in flight.
   */
  lemma CloseCanFree(run: seq<Action>, s: State, keep: set<nat>) returns (run': seq<Action>, s': State)
    requires FineTo(run, s) && s.app.Idle?
    ensures FineTo(run', s') && run <= run' && s'.app.Freed? && s'.thread.NoThread?
    ensures forall i: nat :: InFlight(s', i) <==> MayReturn(s, i) && i in keep
  {
    hide FineTo, MayReturn;
    run', s' := EndCallback(run, s, keep);
    run', s' := Then(run', s', CallClose);
    run', s' := Drain(run', s', 0, keep);
    run', s' := StopOnce(run', s');
    run', s' := StopOnce(run', s');
    NoThreadLeft(run', s');
  }

  lemma NoThreadLeft(run: seq<Action>, s: State)
    requires FineTo(run, s) && s.app.Freed? && !s.dev.started
    ensures s.thread.NoThread?
  {
    hide FineTo;
    FineIsReachable(run, s);
  }

  // ----- the sample callback before it is set

  /** No submission of a start happens. */
  predicate NoStartSteps(run: seq<Action>) {
    forall i | 0 <= i < |run| :: !run[i].StartStep?
  }

  /** No sample callback can run before it is set, as long as nobody starts. */
  predicate Harmless(s: State) {
    !s.seen.earlyCall && (s.dev.callbackSet || (!s.callback.Running? && NoneInFlight(s)))
  }

  lemma StaysHarmless(s: State, a: Action)
    requires Harmless(s) && !a.StartStep? && Apply(s, a).Some?
    ensures Harmless(Apply(s, a).value)
  {
    hide Apply, Harmless;
    match a {
      case StopStep(_) => StopStaysHarmless(s, a);
      case ThreadStep(_) => ThreadStaysHarmless(s, a);
      case _ => EventStaysHarmless(s, a);
    }
  }

  lemma StopStaysHarmless(s: State, a: Action)
    requires Harmless(s) && a.StopStep? && Apply(s, a).Some?
    ensures Harmless(Apply(s, a).value)
  {
  }

  lemma ThreadStaysHarmless(s: State, a: Action)
    requires Harmless(s) && a.ThreadStep? && Apply(s, a).Some?
    ensures Harmless(Apply(s, a).value)
  {
  }

  lemma EventStaysHarmless(s: State, a: Action)
    requires Harmless(s) && !a.StartStep? && !a.StopStep? && !a.ThreadStep? && Apply(s, a).Some?
    ensures Harmless(Apply(s, a).value)
  {
  }

  lemma {:induction false} HarmlessRun(s: State, run: seq<Action>)
    requires Harmless(s) && NoStartSteps(run) && Exec(s, run).Some?
    ensures Harmless(Exec(s, run).value)
  {
    if run != [] {
      hide Apply, Harmless;
      HarmlessRun(s, run[..|run| - 1]);
      StaysHarmless(Exec(s, run[..|run| - 1]).value, run[|run| - 1]);
    }
  }

  /** The run continues a single-device session without starting anything, up to an early sample callback. */
  ghost predicate CallsEarly(s: State, run: seq<Action>) {
    NoStartSteps(run) && SingleDevice(run) && Exec(s, run).Some? && Exec(s, run).value.seen.earlyCall
  }

  /**
   * Between its calls, the application can run into an early sample callback, without starting again, exactly
   * when the callback is not set and a transfer is in flight; and that takes a torn start before.
   */
  lemma EarlyCallExactly(before: seq<Action>, s: State)
    requires SingleDevice(before) && Exec(OPENED, before) == Some(s) && s.app.Idle? && !s.seen.earlyCall
    ensures (exists run :: CallsEarly(s, run)) <==> !s.dev.callbackSet && !NoneInFlight(s)
    ensures !s.dev.callbackSet && !NoneInFlight(s) ==> s.seen.torn
  {
    Reachable(before);
    hide Exec;
    if !s.dev.callbackSet && !NoneInFlight(s) {
      var i :| 0 <= i < |s.dev.transfers| && s.dev.transfers[i].inFlight;
      EarlyAt(s, i);
    } else {
      assert Harmless(s);
      forall run | NoStartSteps(run) && Exec(s, run).Some? ensures !CallsEarly(s, run) {
        HarmlessRun(s, run);
      }
    }
  }

  lemma EarlyAt(s: State, i: nat)
    requires InFlight(s, i) && s.app.Idle? && !s.dev.callbackSet && !s.callback.Running?
    ensures CallsEarly(s, [CallRequest, Reap(i, true, Application)])
  {
    var run := [CallRequest, Reap(i, true, Application)];
    assert run[..1] == [CallRequest] && [CallRequest][..0] == [];
    assert Exec(s, [CallRequest]) == Some(s.(app := OtherRequest));
  }

  /** A start whose second submission fails leaves the first transfer in flight, without a callback. */
  lemma TornStart() returns (run: seq<Action>, s: State)
    ensures SingleDevice(run) && Exec(OPENED, run) == Some(s) && s.app.Idle? && s.result.LibusbError?
    ensures !s.seen.earlyCall && CallsEarly(s, [CallRequest, Reap(0, true, Application)])
  {
    NothingYet();
    run, s := Then([], OPENED, CallStart);
    run, s := ToSubmission(run, s);
    run, s := Then(run, s, StartStep(true));
    var torn := StartStep(false);
    assert (run + [torn])[..|run|] == run;
    run, s := run + [torn], Apply(s, torn).value;
    EarlyAt(s, 0);
  }

  /** With a second device on the libusb context, its thread can run this device's callback too early. */
  lemma SharedContextCallsTooEarly() returns (run: seq<Action>, s: State)
    ensures Exec(OPENED, run) == Some(s) && s.seen.earlyCall && !s.seen.torn
  {
    NothingYet();
    run, s := Then([], OPENED, CallStart);
    run, s := ToSubmission(run, s);
    run, s := Then(run, s, StartStep(true));
    var early := Reap(0, true, OtherDevice);
    assert (run + [early])[..|run|] == run;
    run, s := run + [early], Apply(s, early).value;
  }
}
