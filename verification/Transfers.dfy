/** The transfer array of a device: allocation over the sample buffer, submission, cancellation, release. */
module Transfers {
  import opened Constants
  import opened Types
  import Streaming

  const TRANSFER_COUNT := Streaming.TRANSFER_COUNT

  /** A libusb transfer: the slice of the device buffer it fills, and what libusb is doing with it. */
  class UsbTransfer {
    const offset: nat
    const length: nat
    var endpoint: nat
    /** The address of the completion callback; 0 is NULL. */
    var callback: nat
    var inFlight: bool
    var cancelled: bool
    var freed: bool

    constructor (offset: nat, length: nat)
      ensures this.offset == offset && this.length == length && !inFlight && !cancelled && !freed
      ensures endpoint == 0 && callback == 0
    {
      this.offset, this.length := offset, length;
      endpoint, callback, inFlight, cancelled, freed := 0, 0, false, false, false;
    }

    /** `libusb_free_transfer`, which must not be called twice. */
    method Free()
      requires !freed
      modifies this`freed
      ensures freed
    {
      freed := true;
    }

    method Aim(endpointAddress: nat, completion: nat)
      modifies this`endpoint, this`callback
      ensures endpoint == endpointAddress && callback == completion
    {
      endpoint := endpointAddress;
      callback := completion;
    }

    /** `libusb_submit_transfer`; `result` is what it says to a transfer it does not have. */
    method Submit(result: int) returns (error: int)
      modifies this`inFlight, this`cancelled
      ensures error == if old(inFlight) then -6 else result
      ensures inFlight == (old(inFlight) || error == 0)
    {
      error := if inFlight then LIBUSB_ERROR_BUSY else result;
      if error == 0 {
        inFlight, cancelled := true, false;
      }
    }
  }

  const LIBUSB_ERROR_BUSY := -6

  class DeviceTransfers {
    var transfers: array?<UsbTransfer?>
    var lastLibusbError: int

    /** Every transfer is there, each on its own slice of a buffer of the device's size. */
    ghost predicate Allocated()
      reads this, transfers
    {
      && transfers != null && PartlyAllocated()
      && forall i | 0 <= i < TRANSFER_COUNT :: transfers[i] != null
    }

    /** The transfers that are there have their own slices; some may be missing after a failed allocation. */
    ghost predicate PartlyAllocated()
      reads this, transfers
    {
      transfers != null ==>
        && transfers.Length == TRANSFER_COUNT
        && forall i | 0 <= i < TRANSFER_COUNT && transfers[i] != null ::
          transfers[i].offset == i * TRANSFER_BUFFER_SIZE && transfers[i].length == TRANSFER_BUFFER_SIZE
    }

    constructor ()
      ensures transfers == null
    {
      transfers, lastLibusbError := null, 0;
    }

    /** `memory` and `given` say whether calloc and each `libusb_alloc_transfer` succeed. */
    method AllocateTransfers(memory: bool, given: seq<bool>) returns (rc: Code)
      requires |given| == TRANSFER_COUNT
      modifies this`transfers
      ensures rc == if old(transfers) != null then Busy else if !memory then NoMem
                    else if false in given then LibusbError else Success
      ensures rc.Success? ==> Allocated() && fresh(transfers)
      ensures rc.Success? ==> forall i, j | 0 <= i < j < TRANSFER_COUNT ::
        && transfers[i] != transfers[j] && transfers[i].offset + transfers[i].length <= transfers[j].offset
        && transfers[j].offset + transfers[j].length <= TRANSFER_COUNT * TRANSFER_BUFFER_SIZE
      ensures rc.Success? || rc.LibusbError? ==>
        && transfers != null && PartlyAllocated()
        && forall i | 0 <= i < TRANSFER_COUNT && transfers[i] != null ::
          fresh(transfers[i]) && !transfers[i].inFlight && !transfers[i].freed
      ensures rc.Busy? || rc.NoMem? ==> transfers == old(transfers)
    {
      if transfers != null {
        return Busy;
      }
      if !memory {
        return NoMem;
      }
      var ts := new UsbTransfer?[TRANSFER_COUNT](_ => null);
      transfers := ts;
      for i := 0 to TRANSFER_COUNT
        invariant transfers == ts && fresh(ts) && false !in given[..i]
        invariant forall k | 0 <= k < i :: ts[k] != null && fresh(ts[k]) && !ts[k].inFlight && !ts[k].freed
        invariant forall k | i <= k < TRANSFER_COUNT :: ts[k] == null
        invariant forall k | 0 <= k < i ::
          ts[k].offset == k * TRANSFER_BUFFER_SIZE && ts[k].length == TRANSFER_BUFFER_SIZE
      {
        if !given[i] {
          return LibusbError;
        }
        ts[i] := new UsbTransfer(i * TRANSFER_BUFFER_SIZE, TRANSFER_BUFFER_SIZE);
      }
      assert given[..TRANSFER_COUNT] == given;
      return Success;
    }

    /** `results` is what libusb says to each transfer it does not have; `k` counts the accepted ones. */
    method PrepareTransfers(endpointAddress: nat, callback: nat, results: seq<int>) returns (rc: Code, k: nat)
      requires |results| == TRANSFER_COUNT && (transfers != null ==> Allocated())
      modifies this`lastLibusbError, if transfers == null then {} else set i | 0 <= i < transfers.Length :: transfers[i]
      ensures rc.Other? <==> transfers == null
      ensures transfers != null ==>
        && Allocated() && k <= TRANSFER_COUNT
        && (rc.Success? <==> k == TRANSFER_COUNT) && (rc.LibusbError? <==> k < TRANSFER_COUNT)
        && (forall i | 0 <= i < k :: !old(transfers[i].inFlight) && results[i] == 0 && transfers[i].inFlight)
        && (forall i | k <= i < TRANSFER_COUNT :: transfers[i].inFlight == old(transfers[i].inFlight))
        && (k < TRANSFER_COUNT ==> old(transfers[k].inFlight) || results[k] != 0)
        && (forall i | 0 <= i < TRANSFER_COUNT && i <= k ::
              transfers[i].endpoint == endpointAddress && transfers[i].callback == callback)
        && (forall i | k < i < TRANSFER_COUNT :: transfers[i].endpoint == old(transfers[i].endpoint))
        && (forall i | k < i < TRANSFER_COUNT :: transfers[i].callback == old(transfers[i].callback))
        && lastLibusbError == if k == TRANSFER_COUNT then old(lastLibusbError)
                              else if old(transfers[k].inFlight) then -6 else results[k]
    {
      k := 0;
      if transfers == null {
        return Other, 0;
      }
      var ts := transfers;
      while k < TRANSFER_COUNT
        invariant k <= TRANSFER_COUNT && transfers == ts && Allocated()
        invariant lastLibusbError == old(lastLibusbError)
        invariant forall i | 0 <= i < k :: !old(ts[i].inFlight) && results[i] == 0 && ts[i].inFlight
        invariant forall i | k <= i < TRANSFER_COUNT :: ts[i].inFlight == old(ts[i].inFlight)
        invariant forall i | 0 <= i < k :: ts[i].endpoint == endpointAddress && ts[i].callback == callback
        invariant forall i | k <= i < TRANSFER_COUNT ::
          ts[i].endpoint == old(ts[i].endpoint) && ts[i].callback == old(ts[i].callback)
      {
        ts[k].Aim(endpointAddress, callback);
        var error := ts[k].Submit(results[k]);
        if error != 0 {
          lastLibusbError := error;
          return LibusbError, k;
        }
        k := k + 1;
      }
      return Success, k;
    }

    /** Cancelling asks libusb for a transfer; it stays in flight until its event is handled. */
    method CancelTransfers() returns (rc: Code)
      requires transfers != null ==> Allocated()
      modifies if transfers == null then {} else set i | 0 <= i < transfers.Length :: transfers[i]
      ensures rc == if transfers == null then Other else Success
      ensures transfers != null ==> Allocated() && forall i | 0 <= i < TRANSFER_COUNT ::
        && transfers[i].inFlight == old(transfers[i].inFlight)
        && transfers[i].cancelled == (old(transfers[i].cancelled) || old(transfers[i].inFlight))
    {
      if transfers == null {
        return Other;
      }
      for k := 0 to TRANSFER_COUNT
        invariant Allocated()
        invariant forall i | 0 <= i < TRANSFER_COUNT :: transfers[i].inFlight == old(transfers[i].inFlight)
        invariant forall i | 0 <= i < k ::
          transfers[i].cancelled == (old(transfers[i].cancelled) || old(transfers[i].inFlight))
        invariant forall i | k <= i < TRANSFER_COUNT :: transfers[i].cancelled == old(transfers[i].cancelled)
      {
        if transfers[k].inFlight {
          transfers[k].cancelled := true;
        }
      }
      return Success;
    }

    /** Frees every transfer that is there, each once, also after an allocation that stopped half way. */
    method FreeTransfers() returns (rc: Code)
      requires PartlyAllocated()
      requires transfers != null ==> forall i | 0 <= i < TRANSFER_COUNT && transfers[i] != null :: !transfers[i].freed
      modifies this`transfers, if transfers == null then {} else {transfers}
      modifies if transfers == null then {} else set i | 0 <= i < transfers.Length :: transfers[i]
      ensures rc.Success? && transfers == null
      ensures old(transfers) != null ==> forall i | 0 <= i < TRANSFER_COUNT ::
        && old(transfers)[i] == null
        && (old(transfers[i]) != null ==> old(transfers[i]).freed)
    {
      if transfers != null {
        var ts := transfers;
        ghost var before := ts[..];
        for k := 0 to TRANSFER_COUNT
          invariant transfers == ts && forall i | 0 <= i < k :: ts[i] == null
          invariant forall i | k <= i < TRANSFER_COUNT :: ts[i] == before[i] && (before[i] != null ==> !before[i].freed)
          invariant forall i | 0 <= i < k && before[i] != null :: before[i].freed
        {
          if ts[k] != null {
            ts[k].Free();
            ts[k] := null;
          }
        }
        transfers := null;
      }
      return Success;
    }
  }

  // ----- the same loop as steps of the streaming session

  /** The submissions of a start, one step each. */
  function Submits(results: seq<int>): seq<Streaming.Action> {
    seq(|results|, i requires 0 <= i < |results| => Streaming.StartStep(results[i] == 0))
  }

  /** As long as nothing is refused, n submission steps put exactly the first n transfers in flight. */
  lemma {:induction false} SubmitSteps(s: Streaming.State, results: seq<int>)
    requires s.app == Streaming.Submit(0) && |s.dev.transfers| == TRANSFER_COUNT && |results| <= TRANSFER_COUNT
    requires forall i | 0 <= i < |results| :: results[i] == 0 && !s.dev.transfers[i].inFlight
    ensures Streaming.Exec(s, Submits(results)).Some?
    ensures var t := Streaming.Exec(s, Submits(results)).value;
      && t.app == Streaming.Submit(|results|) && |t.dev.transfers| == TRANSFER_COUNT
      && (forall i | 0 <= i < |results| :: t.dev.transfers[i].inFlight)
      && (forall i | |results| <= i < TRANSFER_COUNT :: t.dev.transfers[i] == s.dev.transfers[i])
  {
    if results != [] {
      var n := |results| - 1;
      SubmitSteps(s, results[..n]);
      assert Submits(results)[..n] == Submits(results[..n]) && Submits(results)[n] == Streaming.StartStep(true);
    }
  }

  /** The step at the first refused transfer ends the start, as the loop does. */
  lemma RefusedStep(s: Streaming.State, results: seq<int>, k: nat)
    requires s.app == Streaming.Submit(0) && |s.dev.transfers| == TRANSFER_COUNT && k < |results| == TRANSFER_COUNT
    requires forall i | 0 <= i < k :: results[i] == 0 && !s.dev.transfers[i].inFlight
    requires results[k] != 0 || s.dev.transfers[k].inFlight
    ensures Streaming.Exec(s, Submits(results[..k + 1])).Some?
    ensures var t := Streaming.Exec(s, Submits(results[..k + 1])).value;
      && t.app.Idle? && t.result.LibusbError? && |t.dev.transfers| == TRANSFER_COUNT
      && (forall i | 0 <= i < k :: t.dev.transfers[i].inFlight)
      && (forall i | k <= i < TRANSFER_COUNT :: t.dev.transfers[i] == s.dev.transfers[i])
  {
    SubmitSteps(s, results[..k]);
    assert Submits(results[..k + 1])[..k] == Submits(results[..k]);
  }
}
