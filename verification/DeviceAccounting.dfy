/** `hackrf_init`, `hackrf_exit`, and the counting of open devices by open and close. */
module DeviceAccounting {
  import opened Types
  import opened Words

  /** The globals of the library, the devices it has open, and the closes made with a NULL device. */
  datatype Library = Library(openDevices: nat, context: bool, open: set<nat>, nullCloses: nat)

  const FRESH := Library(0, false, {}, 0)

  /** What the environment decides about an open: whether a device is found, and what its setup returns. */
  datatype Op =
    | Init(libusbError: int)
    | Exit
    | Open(found: bool, setup: Code, device: nat)
    | Close(device: nat)
    | CloseNull

  /** Callers initialise before they open, and close only devices they have open. */
  predicate Allowed(l: Library, op: Op) {
    match op
    case Open(_, _, device) => l.context && device !in l.open
    case Close(device) => device in l.open
    case _ => true
  }

  /** A count in sixteen bits. */
  function Wrap16(n: int): nat { n % TWO_16 }

  function Apply(l: Library, op: Op): (Library, Code) {
    match op
    case Init(err) =>
      if l.context then (l, Success)
      else if err != 0 then (l, LibusbError)
      else (l.(context := true), Success)
    case Exit =>
      if l.openDevices == 0 then (l.(context := false), Success) else (l, NotLastDevice)
    case Open(found, setup, device) =>
      if !found then (l, NotFound)
      else if setup != Success then (l, setup)
      else (l.(openDevices := Wrap16(l.openDevices + 1), open := l.open + {device}), Success)
    case Close(device) =>
      (l.(openDevices := Wrap16(l.openDevices - 1), open := l.open - {device}), Success)
    case CloseNull =>
      (l.(openDevices := Wrap16(l.openDevices - 1), nullCloses := l.nullCloses + 1), Success)
  }

  class LibHackrf {
    var openDevices: nat
    var context: bool
    ghost var open: set<nat>
    ghost var nullCloses: nat

    ghost function Globals(): Library
      reads this
    {
      Library(openDevices, context, open, nullCloses)
    }

    /** The counter is the number of open devices less the NULL closes, in sixteen bits. */
    ghost predicate Valid()
      reads this
    {
      openDevices == Wrap16(|open| - nullCloses)
    }

    constructor ()
      ensures Valid() && Globals() == FRESH
    {
      openDevices, context, open, nullCloses := 0, false, {}, 0;
    }

    /** Success means that there is a context; a second call keeps the one there is. */
    method HackrfInit(libusbError: int) returns (rc: Code)
      requires Valid()
      modifies this`context
      ensures Valid() && (Globals(), rc) == Apply(old(Globals()), Init(libusbError))
      ensures (rc.Success? <==> context) && (rc.Success? || rc.LibusbError?)
      ensures context <==> old(context) || libusbError == 0
    {
      if context {
        return Success;
      }
      if libusbError != 0 {
        return LibusbError;
      }
      context := true;
      return Success;
    }

    /** Succeeds exactly when the open devices and the NULL closes cancel out in sixteen bits. */
    method HackrfExit() returns (rc: Code)
      requires Valid()
      modifies this`context
      ensures Valid() && (Globals(), rc) == Apply(old(Globals()), Exit)
      ensures rc.Success? <==> Wrap16(|open| - nullCloses) == 0
      ensures nullCloses == 0 && |open| < TWO_16 ==> (rc.Success? <==> open == {})
      ensures if rc.Success? then !context else rc == NotLastDevice && context == old(context)
    {
      NoWrap(|open|);
      if openDevices == 0 {
        if context {
          context := false;
        }
        return Success;
      }
      return NotLastDevice;
    }

    /** `found` is whether the bus has a device, `device` names it, and `setup` is what its setup returns. */
    method HackrfOpen(found: bool, setup: Code, device: nat) returns (rc: Code)
      requires Valid() && device !in open
      modifies this`openDevices, this`open
      ensures Valid() && (Globals(), rc) == Apply(old(Globals()), Open(found, setup, device))
      ensures rc.Success? <==> device in open
      ensures rc == if found then setup else NotFound
      ensures open - {device} == old(open)
      ensures nullCloses == 0 && |open| < TWO_16 ==> openDevices == |open|
    {
      hide Wrap16;
      NoWrap(|open|);
      NoWrap(|open| + 1);
      if !found {
        return NotFound;
      }
      if setup != Success {
        return setup;
      }
      OneMore(Globals(), device);
      openDevices := Wrap16(openDevices + 1);
      open := open + {device};
      return Success;
    }

    /** `isNull` is whether the device is NULL; `stopRx` and `stopTx` are what its two stops return. */
    method HackrfClose(isNull: bool, device: nat, stopRx: Code, stopTx: Code) returns (rc: Code)
      requires Valid() && (isNull || device in open)
      modifies this`openDevices, this`open, this`nullCloses
      ensures Valid() && Globals() == Apply(old(Globals()), if isNull then CloseNull else Close(device)).0
      ensures if isNull then open == old(open) else device !in open && open + {device} == old(open)
      ensures nullCloses == 0 && |old(open)| < TWO_16 ==> openDevices == |open|
      ensures openDevices == Wrap16(old(openDevices) - 1)
      ensures rc.Success? <==> isNull || (stopRx.Success? && stopTx.Success?)
      ensures !rc.Success? ==> rc == if stopTx.Success? then stopRx else stopTx
    {
      hide Wrap16;
      var result1, result2 := Success, Success;
      if isNull {
        WrapAround(|open| - nullCloses, -1);
        nullCloses := nullCloses + 1;
      } else {
        result1 := stopRx;
        result2 := stopTx;
        OneLess(Globals(), device);
        NoWrap(|open - {device}|);
        open := open - {device};
      }
      openDevices := Wrap16(openDevices - 1);
      if result2 != Success {
        return result2;
      }
      return result1;
    }
  }

  // ----- runs

  function Exec(l: Library, ops: seq<Op>): Library {
    if ops == [] then l else Apply(Exec(l, ops[..|ops| - 1]), ops[|ops| - 1]).0
  }

  predicate AllowedRun(l: Library, ops: seq<Op>) {
    ops == [] || (AllowedRun(l, ops[..|ops| - 1]) && Allowed(Exec(l, ops[..|ops| - 1]), ops[|ops| - 1]))
  }

  /** The counter is the number of open devices less the NULL closes, in sixteen bits. */
  lemma {:induction false} Counted(ops: seq<Op>)
    requires AllowedRun(FRESH, ops)
    ensures var l := Exec(FRESH, ops); l.openDevices == Wrap16(|l.open| - l.nullCloses)
  {
    if ops != [] {
      hide Apply;
      Counted(ops[..|ops| - 1]);
      CountStep(Exec(FRESH, ops[..|ops| - 1]), ops[|ops| - 1]);
    }
  }

  lemma CountStep(l: Library, op: Op)
    requires Allowed(l, op) && l.openDevices == Wrap16(|l.open| - l.nullCloses)
    ensures var m := Apply(l, op).0; m.openDevices == Wrap16(|m.open| - m.nullCloses)
  {
    hide Wrap16;
    match op
    case Open(_, _, device) => OneMore(l, device);
    case Close(device) => OneLess(l, device);
    case CloseNull => WrapAround(|l.open| - l.nullCloses, -1);
    case Init(_) =>
    case Exit =>
  }

  lemma OneMore(l: Library, device: nat)
    requires device !in l.open
    ensures Wrap16(Wrap16(|l.open| - l.nullCloses) + 1) == Wrap16(|l.open + {device}| - l.nullCloses)
  {
    hide Wrap16;
    WrapAround(|l.open| - l.nullCloses, 1);
  }

  lemma OneLess(l: Library, device: nat)
    requires device in l.open
    ensures Wrap16(Wrap16(|l.open| - l.nullCloses) - 1) == Wrap16(|l.open - {device}| - l.nullCloses)
  {
    hide Wrap16;
    WrapAround(|l.open| - l.nullCloses, -1);
  }

  lemma WrapAround(n: int, d: int)
    requires d == 1 || d == -1
    ensures Wrap16(Wrap16(n) + d) == Wrap16(n + d)
  {
  }

  /**
   * `hackrf_exit` succeeds exactly when the open devices less the NULL closes are a multiple of 2^16; without
   * NULL closes and with fewer than 2^16 devices open, exactly when none is open.
   */
  lemma ExitSucceedsExactly(ops: seq<Op>)
    requires AllowedRun(FRESH, ops)
    ensures var l := Exec(FRESH, ops);
      && (Apply(l, Exit).1 == Success <==> Wrap16(|l.open| - l.nullCloses) == 0)
      && (l.nullCloses == 0 && |l.open| < TWO_16 ==>
            l.openDevices == |l.open| && (Apply(l, Exit).1 == Success <==> l.open == {}))
  {
    hide Exec, AllowedRun, Wrap16;
    Counted(ops);
    var l := Exec(FRESH, ops);
    NoWrap(|l.open|);
  }

  lemma NoWrap(n: nat)
    ensures n < TWO_16 ==> Wrap16(n) == n
  {
  }

  /** Fewer than 2^16 devices are open at every moment of the run, and none of its closes is of NULL. */
  predicate Orderly(ops: seq<Op>) {
    && (ops == [] || Orderly(ops[..|ops| - 1]))
    && Exec(FRESH, ops).nullCloses == 0 && |Exec(FRESH, ops).open| < TWO_16
  }

  /** In an orderly run the libusb context is live while any device is open. */
  lemma {:induction false} ContextOutlivesDevices(ops: seq<Op>)
    requires AllowedRun(FRESH, ops) && Orderly(ops)
    ensures Exec(FRESH, ops).open != {} ==> Exec(FRESH, ops).context
  {
    if ops != [] {
      var front := ops[..|ops| - 1];
      ContextOutlivesDevices(front);
      ExitSucceedsExactly(front);
    }
  }

  /** Closing NULL is counted: after it, the library exits under a device that is still open. */
  lemma NullCloseBreaksExit()
    ensures var ops := [Init(0), Open(true, Success, 7), CloseNull];
      && AllowedRun(FRESH, ops) && Exec(FRESH, ops).open == {7}
      && Apply(Exec(FRESH, ops), Exit).1 == Success && !Apply(Exec(FRESH, ops), Exit).0.context
  {
    var a, b, c := Init(0), Open(true, Success, 7), CloseNull;
    var l0 := Library(0, true, {}, 0);
    var l1 := Library(1, true, {7}, 0);
    assert [a][..0] == [] && [a, b][..1] == [a] && [a, b, c][..2] == [a, b];
    assert Apply(FRESH, a).0 == l0 && Apply(l0, b).0 == l1;
    assert Exec(FRESH, [a]) == l0 && AllowedRun(FRESH, [a]) by {
      assert Exec(FRESH, []) == FRESH && AllowedRun(FRESH, []);
    }
    assert Exec(FRESH, [a, b]) == l1 && AllowedRun(FRESH, [a, b]);
    assert Apply(l1, c).0 == Library(0, true, {7}, 1);
  }
}
