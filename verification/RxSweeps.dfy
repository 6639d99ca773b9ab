/** What `rx_callback` makes of whole sweeps in IFFT mode: the inputs of the inverse FFTs. */
module RxSweeps {
  import opened Constants
  import opened Words
  import opened SweepGeometry
  import opened IfftPlacement
  import opened RxStream
  import opened RxTheorems

  // ----- a whole sweep in IFFT mode

  /** Blocks labelled with sub-steps of the schedule: the k-th is q quarters above the start, q == qs[k]. */
  predicate Labelled(c: Config, bs: seq<Block>, qs: seq<nat>) {
    && |bs| == |qs|
    && (forall k | 0 <= k < |qs| :: HasHeader(bs[k]) && Hz(bs[k]) == c.StartHz() + qs[k] * QUARTER_HZ)
    && (forall k | 0 <= k < |qs| :: InSchedule(c.steps, qs[k]))
    && (forall j, k | 0 <= j < k < |qs| :: qs[j] != qs[k])
  }

  /** Every sub-step of the schedule occurs. */
  predicate WholeSchedule(c: Config, qs: seq<nat>) {
    forall q | 0 <= q < 4 * c.steps && InSchedule(c.steps, q) :: q in qs
  }

  /** A block fills exactly the slots of its own sub-step, each with the bin that belongs there. */
  lemma PlacedAt(c: Config, cells: seq<Cell>, b: Block, q: nat, slot: nat)
    requires c.Valid() && |cells| == IfftBins(c.fftSize, c.steps) && slot < |cells|
    requires Hz(b) == c.StartHz() + q * QUARTER_HZ && InSchedule(c.steps, q) && BelowCap(b)
    ensures var (q', h, i) := Locate(c.fftSize, c.steps, slot);
      PlacedBlock(c, cells, b)[slot]
      == if q' == q then Bin(Window(c, b), WindowBin(c.fftSize, h, i)) else cells[slot]
  {
    hide HalfTurn, SpectralBin, Locate, FirstIndex, SecondIndex, IfftBins;
    var n, S, d := c.fftSize, c.steps, q * QUARTER_HZ;
    assert (Hz(b) - c.StartHz()) % TWO_64 == d;
    SlotInWindow(n, S, q, 0, slot);
    SlotInWindow(n, S, q, 1, slot);
    var (q', h, i) := Locate(n, S, slot);
    var w, at0, at1 := Window(c, b), FirstIndex(d, n, S), SecondIndex(d, n, S);
    assert at0 == WindowIndex(d, n, S, 0) && at1 == WindowIndex(d, n, S, 1);
    var first := Placed(cells, at0, w, FirstBin(n, 0), n / 4);
    assert PlacedBlock(c, cells, b) == Placed(first, at1, w, SecondBin(n, 0), n / 4);
    assert FirstBin(n, i) == FirstBin(n, 0) + i && SecondBin(n, i) == SecondBin(n, 0) + i;
  }

  /** A slot lies in window h of the block of sub-step q exactly when it belongs to that window. */
  lemma SlotInWindow(n: nat, S: nat, q: nat, h: nat, slot: nat)
    requires IsFftSize(n) && n <= 8188 && 0 < S && h < 2 && slot < IfftBins(n, S)
    requires InSchedule(S, q) && q * QUARTER_HZ <= 7_250_000_000
    ensures var (q', h', i') := Locate(n, S, slot);
      var at := WindowIndex(q * QUARTER_HZ, n, S, h);
      && h' < 2
      && (at <= slot < at + n / 4 <==> q' == q && h' == h)
      && (q' == q && h' == h ==> slot == at + i')
  {
    hide HalfTurn, SpectralBin, Locate, FirstIndex, SecondIndex, WindowIndex, IfftBins;
    var (q', h', i') := Locate(n, S, slot);
    var at := WindowIndex(q * QUARTER_HZ, n, S, h);
    EverySlotOnce(n, S, slot);
    if at <= slot < at + n / 4 {
      HalfRotation(q, n, S, h, slot - at);
      assert Hits(n, S, slot, q, h, slot - at);
    }
    if q' == q && h' == h { HalfRotation(q, n, S, h, i'); }
  }

  /** After a labelled sequence, each slot holds the bin of the one block of its sub-step, if there is one. */
  lemma {:induction false} EmittedAt(c: Config, st: State, bs: seq<Block>, qs: seq<nat>, slot: nat)
    requires c.Valid() && c.mode == Ifft && Labelled(c, bs, qs)
    requires |st.ifftIn| == IfftBins(c.fftSize, c.steps) && slot < |st.ifftIn|
    ensures var (q, h, i) := Locate(c.fftSize, c.steps, slot);
      var got := EmitAll(c, st, Kept(bs)).ifftIn[slot];
      && (forall k | 0 <= k < |qs| && qs[k] == q && BelowCap(bs[k]) ::
            got == Bin(Window(c, bs[k]), WindowBin(c.fftSize, h, i)))
      && ((forall k | 0 <= k < |qs| && qs[k] == q :: !BelowCap(bs[k])) ==> got == st.ifftIn[slot])
  {
    hide Locate, PlacedBlock, EmitAll, Kept, HasHeader, Hz, InSchedule, Window, IfftBins;
    if bs == [] {
      KeptNone(c, st);
    } else {
      var n := |bs| - 1;
      EmittedAt(c, st, bs[..n], qs[..n], slot);
      KeptLast(c, st, bs);
      if BelowCap(bs[n]) {
        PlacedAt(c, EmitAll(c, st, Kept(bs[..n])).ifftIn, bs[n], qs[n], slot);
      }
    }
  }

  /** The blocks the cap lets through. */
  function Kept(bs: seq<Block>): seq<Block> {
    if bs == [] then []
    else Kept(bs[..|bs| - 1]) + if BelowCap(bs[|bs| - 1]) then [bs[|bs| - 1]] else []
  }

  lemma KeptNone(c: Config, st: State)
    requires c.Valid()
    ensures EmitAll(c, st, Kept([])) == st
  {
  }

  lemma KeptLast(c: Config, st: State, bs: seq<Block>)
    requires c.Valid() && bs != []
    ensures var b, out := bs[|bs| - 1], EmitAll(c, st, Kept(bs[..|bs| - 1]));
      EmitAll(c, st, Kept(bs)) == if BelowCap(b) then Emit(c, out, b) else out
  {
    var front := Kept(bs[..|bs| - 1]);
    assert (front + [bs[|bs| - 1]])[..|front|] == front;
    assert front + [] == front;
  }

  /** While a labelled sequence runs, only its first block is a start block. */
  lemma {:induction false} SweepRun(c: Config, st: State, bs: seq<Block>, qs: seq<nat>)
    requires c.Valid() && !st.doExit && !Begin(c, st).doExit
    requires Labelled(c, bs, qs) && bs != [] && qs[0] == 0
    ensures var r := FlatRun(c, st, bs);
      && !r.doExit && r.started && r.frames == Begin(c, st).frames
      && r.ifftIn == EmitAll(c, st, Kept(bs)).ifftIn
      && r.records == EmitAll(c, st, Kept(bs)).records
  {
    hide Hz, PlacedBlock, RecordsOf;
    var n := |bs| - 1;
    KeptLast(c, st, bs);
    var out := EmitAll(c, st, Kept(bs[..n]));
    if n == 0 {
      KeptNone(c, st);
      assert bs[..0] == [] && FlatRun(c, st, bs[..0]) == st;
      EmitSame(c, Begin(c, st), out, bs[0]);
    } else {
      SweepRun(c, st, bs[..n], qs[..n]);
      assert qs[0] != qs[n];
      EmitSame(c, FlatRun(c, st, bs[..n]), out, bs[n]);
    }
  }

  /**
   * Bin i of window h of a block has the centre frequency of bin n of the sweep's spectrum, and the frame
   * holds it half a turn round; if the cap dropped the block, the slot still holds what was there before.
   */
  predicate HoldsBin(c: Config, frame: seq<Cell>, before: seq<Cell>, n: nat, b: Block, h: nat, i: nat)
    requires c.Valid() && |frame| == |before| == IfftBins(c.fftSize, c.steps) && n < |frame|
  {
    var slot, bin := HalfTurn(n, |frame|), WindowBin(c.fftSize, h, i);
    && h < 2 && i < c.fftSize / 4
    && Centre(Hz(b), c.fftSize, bin) == BinAbove(c.StartHz(), c.fftSize, n)
    && frame[slot] == if BelowCap(b) then Bin(Window(c, b), bin) else before[slot]
  }

  ghost predicate SpectrumAt(c: Config, frame: seq<Cell>, before: seq<Cell>, bs: seq<Block>, n: nat)
    requires c.Valid() && |frame| == |before| == IfftBins(c.fftSize, c.steps) && n < |frame|
  {
    exists b, h: nat, i: nat :: b in bs && HoldsBin(c, frame, before, n, b, h, i)
  }

  /** Every bin of the sweep's spectrum is where it belongs. */
  ghost predicate HoldsSpectrum(c: Config, frame: seq<Cell>, before: seq<Cell>, bs: seq<Block>) {
    && c.Valid() && |frame| == |before| == IfftBins(c.fftSize, c.steps)
    && forall n: nat :: n < |frame| ==> SpectrumAt(c, frame, before, bs, n)
  }

  /**
   * A whole sweep followed by a start block writes one inverse FFT, whose input is the spectrum of exactly
   * that sweep, rotated by half its length.
   */
  lemma FullSweepFrame(c: Config, st: State, bs: seq<Block>, qs: seq<nat>, next: Block)
    requires c.Valid() && c.mode == Ifft && !st.doExit && !Begin(c, st).doExit
    requires |st.ifftIn| == IfftBins(c.fftSize, c.steps)
    requires Labelled(c, bs, qs) && WholeSchedule(c, qs) && bs != [] && qs[0] == 0 && IsStart(c, next)
    ensures var frames := FlatRun(c, st, bs + [next]).frames;
      && |frames| == |Begin(c, st).frames| + 1 && frames[..|frames| - 1] == Begin(c, st).frames
      && HoldsSpectrum(c, frames[|frames| - 1], st.ifftIn, bs)
  {
    hide Hz, PlacedBlock, RecordsOf, Kept, EmitAll, Labelled, WholeSchedule, SpectrumAt, IfftBins;
    SweepRun(c, st, bs, qs);
    var r := FlatRun(c, st, bs);
    assert (bs + [next])[..|bs|] == bs;
    NextFrame(c, st, bs, next);
    forall n: nat | n < |st.ifftIn| ensures SpectrumAt(c, r.ifftIn, st.ifftIn, bs, n) {
      SpectrumHolds(c, st, bs, qs, n);
    }
  }

  lemma NextFrame(c: Config, st: State, bs: seq<Block>, next: Block)
    requires c.Valid() && c.mode == Ifft && IsStart(c, next)
    requires !FlatRun(c, st, bs).doExit && FlatRun(c, st, bs).started
    ensures FlatRun(c, st, bs + [next]).frames == FlatRun(c, st, bs).frames + [FlatRun(c, st, bs).ifftIn]
  {
  }

  lemma SpectrumHolds(c: Config, st: State, bs: seq<Block>, qs: seq<nat>, n: nat)
    requires c.Valid() && c.mode == Ifft && Labelled(c, bs, qs) && WholeSchedule(c, qs)
    requires |st.ifftIn| == IfftBins(c.fftSize, c.steps) && n < |st.ifftIn|
    ensures SpectrumAt(c, EmitAll(c, st, Kept(bs)).ifftIn, st.ifftIn, bs, n)
  {
    hide HalfTurn, Locate, Kept, EmitAll, Hz, IfftBins, Centre, BinAbove, SpectralBin, Window, BelowCap;
    var k, h, i := SpectrumCell(c, st, bs, qs, n);
    BinIsHeld(c, EmitAll(c, st, Kept(bs)).ifftIn, st.ifftIn, n, bs[k], qs[k], h, i);
    hide HoldsBin, Labelled, WholeSchedule;
    assert bs[k] in bs;
  }

  lemma BinIsHeld(c: Config, frame: seq<Cell>, before: seq<Cell>, n: nat, b: Block, q: nat, h: nat, i: nat)
    requires c.Valid() && |frame| == |before| == IfftBins(c.fftSize, c.steps) && n < |frame|
    requires HalfTurn(n, |frame|) < |frame| && h < 2 && i < c.fftSize / 4 && SpectralBin(c.fftSize, q, h, i) == n
    requires Hz(b) == c.StartHz() + q * QUARTER_HZ
    requires frame[HalfTurn(n, |frame|)]
          == if BelowCap(b) then Bin(Window(c, b), WindowBin(c.fftSize, h, i)) else before[HalfTurn(n, |frame|)]
    ensures HoldsBin(c, frame, before, n, b, h, i)
  {
    hide HalfTurn, Hz, IfftBins, Centre, BinAbove, SpectralBin, Window, BelowCap;
    SpectralBinCentre(c.StartHz(), c.fftSize, q, h, i);
  }

  /** The block, window and bin that a bin of the sweep's spectrum comes from. */
  lemma SpectrumCell(c: Config, st: State, bs: seq<Block>, qs: seq<nat>, n: nat) returns (k: nat, h: nat, i: nat)
    requires c.Valid() && c.mode == Ifft && Labelled(c, bs, qs) && WholeSchedule(c, qs)
    requires |st.ifftIn| == IfftBins(c.fftSize, c.steps) && n < |st.ifftIn|
    ensures k < |bs| && h < 2 && i < c.fftSize / 4 && SpectralBin(c.fftSize, qs[k], h, i) == n
    ensures 0 < |st.ifftIn| && HalfTurn(n, |st.ifftIn|) < |st.ifftIn|
    ensures var slot := HalfTurn(n, |st.ifftIn|);
      EmitAll(c, st, Kept(bs)).ifftIn[slot]
      == if BelowCap(bs[k]) then Bin(Window(c, bs[k]), WindowBin(c.fftSize, h, i)) else st.ifftIn[slot]
  {
    hide HalfTurn, Locate, Kept, EmitAll, Hz, IfftBins, SpectralBin, Window, WindowBin, BelowCap, HasHeader;
    var size, B := c.fftSize, |st.ifftIn|;
    EvenBins(size, c.steps);
    UndoHalfTurn(n, B);
    var slot := HalfTurn(n, B);
    EverySlotOnce(size, c.steps, slot);
    EmittedAt(c, st, bs, qs, slot);
    var (q, h', i') := Locate(size, c.steps, slot);
    h, i := h', i';
    k :| 0 <= k < |qs| && qs[k] == q by { Scheduled(c, qs, slot, q, h, i); }
    SameBin(size, c.steps, q, h, i, n);
  }

  lemma Scheduled(c: Config, qs: seq<nat>, slot: nat, q: nat, h: nat, i: nat)
    requires c.Valid() && WholeSchedule(c, qs) && 0 < IfftBins(c.fftSize, c.steps)
    requires Hits(c.fftSize, c.steps, slot, q, h, i)
    ensures q in qs
  {
  }

  /** The slot of a spectral bin determines it. */
  lemma SameBin(size: nat, S: nat, q: nat, h: nat, i: nat, n: nat)
    requires IsFftSize(size) && 0 < S && n < IfftBins(size, S)
    requires Hits(size, S, HalfTurn(n, IfftBins(size, S)), q, h, i)
    ensures SpectralBin(size, q, h, i) == n
  {
    hide HalfTurn, SpectralBin, PartsOf;
    BinsInUnits(size, S, size / 4);
    PartsUnique(size, size / 4, S, q, h, i);
    UndoHalfTurn(n, IfftBins(size, S));
    UndoHalfTurn(SpectralBin(size, q, h, i), IfftBins(size, S));
  }

  // ----- one sweep after the other

  function Flat(sweeps: seq<seq<Block>>): seq<Block> {
    if sweeps == [] then [] else Flat(sweeps[..|sweeps| - 1]) + sweeps[|sweeps| - 1]
  }

  /** A whole sweep, its start block first. */
  predicate WholeSweep(c: Config, bs: seq<Block>, qs: seq<nat>) {
    Labelled(c, bs, qs) && WholeSchedule(c, qs) && qs != [] && qs[0] == 0
  }

  predicate WholeSweeps(c: Config, sweeps: seq<seq<Block>>, qss: seq<seq<nat>>) {
    |sweeps| == |qss| && forall k | 0 <= k < |sweeps| :: WholeSweep(c, sweeps[k], qss[k])
  }

  lemma {:induction false} FlatConcat(a: seq<seq<Block>>, b: seq<seq<Block>>)
    ensures Flat(a + b) == Flat(a) + Flat(b)
  {
    if b == [] {
      assert a + b == a;
    } else {
      FlatConcat(a, b[..|b| - 1]);
      assert (a + b)[..|a + b| - 1] == a + b[..|b| - 1];
    }
  }

  /** The stream of the sweeps, cut before and after the k-th. */
  lemma FlatAround(sweeps: seq<seq<Block>>, k: nat)
    requires k < |sweeps|
    ensures Flat(sweeps) == Flat(sweeps[..k]) + sweeps[k] + Flat(sweeps[k + 1..])
  {
    hide Flat;
    var before, after := sweeps[..k], sweeps[k + 1..];
    CutAround(sweeps, k);
    FlatConcat(before, [sweeps[k]] + after);
    FlatConcat([sweeps[k]], after);
    FlatOne(sweeps[k]);
    Regrouped(Flat(before), sweeps[k], Flat(after));
  }

  lemma CutAround(sweeps: seq<seq<Block>>, k: nat)
    requires k < |sweeps|
    ensures sweeps == sweeps[..k] + ([sweeps[k]] + sweeps[k + 1..])
  {
  }

  lemma Regrouped(a: seq<Block>, b: seq<Block>, c: seq<Block>)
    ensures a + (b + c) == a + b + c
  {
  }

  lemma FlatOne(bs: seq<Block>)
    ensures Flat([bs]) == bs
  {
    assert [bs][..0] == [];
  }

  lemma {:induction false} StartsConcat(c: Config, a: seq<Block>, b: seq<Block>)
    ensures Starts(c, a + b) == Starts(c, a) + Starts(c, b)
  {
    hide IsStart;
    if b == [] {
      assert a + b == a;
    } else {
      StartsConcat(c, a, b[..|b| - 1]);
      assert (a + b)[..|a + b| - 1] == a + b[..|b| - 1];
    }
  }

  /** A sweep has one start block. */
  lemma {:induction false} OneStart(c: Config, bs: seq<Block>, qs: seq<nat>)
    requires Labelled(c, bs, qs) && bs != [] && qs[0] == 0
    ensures Starts(c, bs) == 1 && IsStart(c, bs[0])
  {
    hide Hz;
    var n := |bs| - 1;
    if n == 0 {
      assert bs[..0] == [] && Starts(c, []) == 0;
    } else {
      OneStart(c, bs[..n], qs[..n]);
      assert qs[0] != qs[n];
    }
  }

  lemma {:induction false} StartsOfSweeps(c: Config, sweeps: seq<seq<Block>>, qss: seq<seq<nat>>)
    requires WholeSweeps(c, sweeps, qss)
    ensures Starts(c, Flat(sweeps)) == |sweeps|
  {
    hide Labelled, WholeSchedule;
    if sweeps != [] {
      var n := |sweeps| - 1;
      StartsOfSweeps(c, sweeps[..n], qss[..n]);
      assert WholeSweep(c, sweeps[n], qss[n]);
      NotEmpty(c, sweeps[n], qss[n]);
      OneStart(c, sweeps[n], qss[n]);
      StartsConcat(c, Flat(sweeps[..n]), sweeps[n]);
    }
  }

  lemma NotEmpty(c: Config, bs: seq<Block>, qs: seq<nat>)
    requires Labelled(c, bs, qs) && qs != []
    ensures bs != []
  {
  }

  /** What follows the k-th sweep begins with a start block. */
  lemma NextStarts(c: Config, sweeps: seq<seq<Block>>, qss: seq<seq<nat>>, k: nat, tail: seq<Block>)
    returns (rest: seq<Block>)
    requires WholeSweeps(c, sweeps, qss) && k < |sweeps| && tail != [] && IsStart(c, tail[0])
    ensures Flat(sweeps) + tail == Flat(sweeps[..k]) + sweeps[k] + rest && rest != [] && IsStart(c, rest[0])
  {
    hide WholeSweep, IsStart, Flat;
    var after := sweeps[k + 1..];
    rest := Flat(after) + tail;
    FlatAround(sweeps, k);
    Regrouped(Flat(sweeps[..k]) + sweeps[k], Flat(after), tail);
    if after == [] {
      FlatNone();
      assert rest == tail;
    } else {
      assert after[0] == sweeps[k + 1] && WholeSweep(c, sweeps[k + 1], qss[k + 1]);
      FirstOfFlat(c, after, qss[k + 1]);
      assert rest[0] == Flat(after)[0];
    }
  }

  lemma FlatNone()
    ensures Flat([]) == []
  {
  }

  lemma FirstOfFlat(c: Config, sweeps: seq<seq<Block>>, qs: seq<nat>)
    requires sweeps != [] && WholeSweep(c, sweeps[0], qs)
    ensures Flat(sweeps) != [] && IsStart(c, Flat(sweeps)[0])
  {
    hide Labelled, WholeSchedule, IsStart, Flat;
    NotEmpty(c, sweeps[0], qs);
    OneStart(c, sweeps[0], qs);
    FlatAround(sweeps, 0);
    assert sweeps[..0] == [];
    FlatNone();
    assert Flat(sweeps) == sweeps[0] + Flat(sweeps[1..]);
  }

  lemma {:induction false} FramesGrow(c: Config, cells: seq<Cell>, a: seq<Block>, b: seq<Block>)
    requires c.Valid()
    ensures FramesOf(c, cells, a) <= FramesOf(c, cells, a + b)
  {
    hide EmitAll, Picked;
    if b == [] {
      assert a + b == a;
    } else {
      FramesGrow(c, cells, a, b[..|b| - 1]);
      assert (a + b)[..|a + b| - 1] == a + b[..|b| - 1];
    }
  }

  /** The run up to the k-th sweep goes on, and its input holds what the inverse FFT before holds. */
  lemma BeforeSweep(c: Config, cells: seq<Cell>, before: seq<Block>, k: nat, start: Block)
    requires c.Valid() && c.mode == Ifft && Starts(c, before) == k && MayContinue(c, k + 1) && IsStart(c, start)
    ensures var s := FlatRun(c, Fresh(cells), before);
      && !s.doExit && !Begin(c, s).doExit && |s.ifftIn| == |cells|
      && Begin(c, s).frames == FramesOf(c, cells, before + [start]) && |Begin(c, s).frames| == k
      && (k == 0 ==> s.ifftIn == cells) && (0 < k ==> Begin(c, s).frames[k - 1] == s.ifftIn)
  {
    hide EmitAll, Picked, Hz, BelowCap, FramesOf, FlatRun, Starts;
    FlatRunPicks(c, cells, before);
    StartsConcat(c, before, [start]);
    StartAlone(c, start);
    FrameCount(c, cells, before + [start]);
    LastFrame(c, cells, before, start);
    if k == 0 { NothingPicked(c, cells, before); }
  }

  lemma StartAlone(c: Config, b: Block)
    requires IsStart(c, b)
    ensures Starts(c, [b]) == 1
  {
    hide IsStart;
    assert [b][..0] == [] && Starts(c, []) == 0;
  }

  lemma LastFrame(c: Config, cells: seq<Cell>, before: seq<Block>, start: Block)
    requires c.Valid() && c.mode == Ifft && IsStart(c, start)
    ensures FramesOf(c, cells, before + [start])
         == FramesOf(c, cells, before)
            + if 1 <= Starts(c, before) && MayContinue(c, Starts(c, before))
              then [EmitAll(c, Fresh(cells), Picked(c, before)).ifftIn] else []
  {
    hide EmitAll, Picked, IsStart;
    assert (before + [start])[..|before|] == before;
  }

  lemma {:induction false} NothingPicked(c: Config, cells: seq<Cell>, bs: seq<Block>)
    requires c.Valid() && Starts(c, bs) == 0
    ensures Picked(c, bs) == [] && EmitAll(c, Fresh(cells), Picked(c, bs)).ifftIn == cells
  {
    hide IsStart, BelowCap, HasHeader;
    if bs != [] { NothingPicked(c, cells, bs[..|bs| - 1]); }
  }

  /** The inverse FFT that the start block after the k-th sweep writes. */
  lemma KthFrame(c: Config, cells: seq<Cell>, before: seq<Block>, bs: seq<Block>, qs: seq<nat>, k: nat, next: Block)
    requires c.Valid() && c.mode == Ifft && |cells| == IfftBins(c.fftSize, c.steps)
    requires Starts(c, before) == k && MayContinue(c, k + 1) && WholeSweep(c, bs, qs) && IsStart(c, next)
    ensures var frames := FramesOf(c, cells, before + bs + [next]);
      && |frames| == k + 1
      && HoldsSpectrum(c, frames[k], if k == 0 then cells else frames[k - 1], bs)
  {
    hide EmitAll, Picked, Hz, FramesOf, FlatRun, Starts, MayContinue, HoldsSpectrum, Labelled, WholeSchedule, Begin;
    NotEmpty(c, bs, qs);
    OneStart(c, bs, qs);
    BeforeSweep(c, cells, before, k, bs[0]);
    var s := FlatRun(c, Fresh(cells), before);
    FullSweepFrame(c, s, bs, qs, next);
    FlatRunConcat(c, Fresh(cells), before, bs + [next]);
    assert before + (bs + [next]) == before + bs + [next];
    FlatRunPicks(c, cells, before + bs + [next]);
  }

  /**
   * A run over n whole sweeps and a start block after them, in any grouping and among any blocks without a
   * header: as far as the run goes, its k-th inverse FFT is of the spectrum of the k-th sweep; where the cap drops
   * a block, it still holds what the one before held.
   */
  lemma SweepFrames(c: Config, cells: seq<Cell>, es: seq<Event>, sweeps: seq<seq<Block>>, qss: seq<seq<nat>>,
                    tail: seq<Block>, k: nat)
    requires c.Valid() && c.mode == Ifft && |cells| == IfftBins(c.fftSize, c.steps)
    requires WholeSweeps(c, sweeps, qss) && tail != [] && IsStart(c, tail[0])
    requires Headed(Stream(es)) == Flat(sweeps) + tail && k < |sweeps| && MayContinue(c, k + 1)
    ensures var frames := RunEvents(c, Fresh(cells), es).frames;
      && k < |frames|
      && HoldsSpectrum(c, frames[k], if k == 0 then cells else frames[k - 1], sweeps[k])
  {
    hide EmitAll, Picked, Hz, FramesOf, FlatRun, Starts, MayContinue, HoldsSpectrum, WholeSweep, IsStart;
    hide Stream, RunEvents, Headed, Flat, LateStarts;
    var before := Flat(sweeps[..k]);
    StartsOfSweeps(c, sweeps[..k], qss[..k]);
    var rest := NextStarts(c, sweeps, qss, k, tail);
    KthFrame(c, cells, before, sweeps[k], qss[k], k, rest[0]);
    FramesGrow(c, cells, before + sweeps[k] + [rest[0]], rest[1..]);
    assert before + sweeps[k] + [rest[0]] + rest[1..] == Flat(sweeps) + tail;
    HeadedSame(c, cells, Stream(es));
    StreamRefinement(c, cells, es);
  }
}
