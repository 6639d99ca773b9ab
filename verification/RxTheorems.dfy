/** The block stream alone decides what a run of `rx_callback` puts out. */
module RxTheorems {
  import opened Constants
  import opened Words
  import opened RxStream

  /** The blocks one after the other, up to the one that sets `do_exit`. */
  function FlatRun(c: Config, st: State, bs: seq<Block>): (r: State)
    requires c.Valid()
    ensures |r.ifftIn| == |st.ifftIn|
  {
    if bs == [] then st
    else
      var s := FlatRun(c, st, bs[..|bs| - 1]);
      if s.doExit then s else Step(c, s, bs[|bs| - 1])
  }

  lemma {:induction false} FlatRunConcat(c: Config, st: State, a: seq<Block>, b: seq<Block>)
    requires c.Valid()
    ensures FlatRun(c, st, a + b) == FlatRun(c, FlatRun(c, st, a), b)
  {
    if b == [] {
      assert a + b == a;
    } else {
      FlatRunConcat(c, st, a, b[..|b| - 1]);
      assert (a + b)[..|a + b| - 1] == a + b[..|b| - 1];
    }
  }

  lemma {:induction false} FlatRunStopped(c: Config, st: State, bs: seq<Block>)
    requires c.Valid() && st.doExit
    ensures FlatRun(c, st, bs) == st
  {
    if bs != [] { FlatRunStopped(c, st, bs[..|bs| - 1]); }
  }

  /** Until `do_exit` is set, a call is just its blocks one after the other. */
  lemma {:induction false} TransferIsFlat(c: Config, st: State, bs: seq<Block>)
    requires c.Valid() && !st.doExit
    ensures RunTransfer(c, st, bs) == FlatRun(c, st, bs)
    decreases |bs|
  {
    if bs != [] {
      var s := Step(c, st, bs[0]);
      assert FlatRun(c, st, [bs[0]]) == s by { assert [bs[0]][..0] == []; }
      assert bs == [bs[0]] + bs[1..];
      FlatRunConcat(c, st, [bs[0]], bs[1..]);
      if s.doExit {
        FlatRunStopped(c, s, bs[1..]);
      } else {
        TransferIsFlat(c, s, bs[1..]);
      }
    }
  }

  // ----- after do_exit

  /** The first block with a header is a start block. */
  predicate OpensWithStart(c: Config, bs: seq<Block>) {
    bs != [] && if HasHeader(bs[0]) then IsStart(c, bs[0]) else OpensWithStart(c, bs[1..])
  }

  /**
   * A call made after `do_exit` is set prints no record and fills no slot. It still writes an inverse FFT,
   * once, exactly when a sweep is running in IFFT mode and the first block with a header is a start block.
   */
  lemma {:induction false} AfterExit(c: Config, st: State, bs: seq<Block>)
    requires c.Valid() && st.doExit
    ensures var r := RunTransfer(c, st, bs);
      && r.doExit && r.records == st.records && r.ifftIn == st.ifftIn
      && (r.started <==> st.started || OpensWithStart(c, bs))
      && r.frames == st.frames
           + if c.mode == Ifft && st.started && OpensWithStart(c, bs) then [st.ifftIn] else []
    decreases |bs|
  {
    if bs != [] && !HasHeader(bs[0]) {
      AfterExit(c, st, bs[1..]);
    }
  }

  // ----- the blocks of a sweep

  lemma EmitSame(c: Config, s: State, t: State, b: Block)
    requires c.Valid() && s.records == t.records && s.ifftIn == t.ifftIn
    ensures Emit(c, s, b).records == Emit(c, t, b).records
    ensures Emit(c, s, b).ifftIn == Emit(c, t, b).ifftIn
  {
  }

  /** What a flat run from the start has put out, and where it stands. */
  predicate Picks(c: Config, cells: seq<Cell>, bs: seq<Block>, st: State)
    requires c.Valid()
  {
    var out := EmitAll(c, Fresh(cells), Picked(c, bs));
    && st.records == out.records && st.ifftIn == out.ifftIn
    && (st.doExit <==> !MayContinue(c, Starts(c, bs)))
    && (st.started <==> 1 <= Starts(c, bs))
    && (!st.doExit ==> st.count == if Starts(c, bs) == 0 then 0 else (Starts(c, bs) - 1) % TWO_64)
    && st.frames == FramesOf(c, cells, bs)
  }

  /** A flat run from the start puts out the picked blocks, and stops at the start block that is too many. */
  lemma {:induction false} FlatRunPicks(c: Config, cells: seq<Cell>, bs: seq<Block>)
    requires c.Valid()
    ensures Picks(c, cells, bs, FlatRun(c, Fresh(cells), bs))
  {
    hide Picks, Step;
    if bs == [] {
      NothingYet(c, cells);
    } else {
      var b, front := bs[|bs| - 1], bs[..|bs| - 1];
      FlatRunPicks(c, cells, front);
      var s := FlatRun(c, Fresh(cells), front);
      assert bs == front + [b];
      if s.doExit { PicksStopped(c, cells, front, b, s); } else { PicksStep(c, cells, front, b, s); }
    }
  }

  lemma PicksStopped(c: Config, cells: seq<Cell>, front: seq<Block>, b: Block, s: State)
    requires c.Valid() && s.doExit && Picks(c, cells, front, s)
    ensures Picks(c, cells, front + [b], s)
  {
    hide EmitAll, Picked, IsStart, HasHeader, BelowCap;
    PickLast(c, cells, front + [b]);
    assert (front + [b])[..|front|] == front;
  }

  lemma PicksStep(c: Config, cells: seq<Cell>, front: seq<Block>, b: Block, s: State)
    requires c.Valid() && !s.doExit && Picks(c, cells, front, s)
    ensures Picks(c, cells, front + [b], Step(c, s, b))
  {
    hide Hz, EmitAll, Emit, Begin, Picked, BelowCap;
    PickLast(c, cells, front + [b]);
    assert (front + [b])[..|front|] == front;
    CountStart(c, s, b, Starts(c, front));
    EmitSame(c, if IsStart(c, b) then Begin(c, s) else s, EmitAll(c, Fresh(cells), Picked(c, front)), b);
  }

  /** One more start block. */
  lemma CountStart(c: Config, s: State, b: Block, k: nat)
    requires c.Valid() && !s.doExit && MayContinue(c, k) && (s.started <==> 1 <= k)
    requires s.count == if k == 0 then 0 else (k - 1) % TWO_64
    ensures IsStart(c, b) ==>
      var r := Begin(c, s);
      && r.started && (r.doExit <==> !MayContinue(c, k + 1))
      && r.count == k % TWO_64
      && r.records == s.records && r.ifftIn == s.ifftIn
      && r.frames == s.frames + if c.mode == Ifft && 1 <= k then [s.ifftIn] else []
  {
  }

  lemma PickLast(c: Config, cells: seq<Cell>, bs: seq<Block>)
    requires c.Valid() && bs != []
    ensures var b, front := bs[|bs| - 1], bs[..|bs| - 1];
      var out := EmitAll(c, Fresh(cells), Picked(c, front));
      EmitAll(c, Fresh(cells), Picked(c, bs))
      == if HasHeader(b) && BelowCap(b) && 1 <= Starts(c, bs) && MayContinue(c, Starts(c, bs))
         then Emit(c, out, b) else out
  {
    var b, front := bs[|bs| - 1], Picked(c, bs[..|bs| - 1]);
    assert (front + [b])[..|front|] == front;
    assert front + [] == front;
  }

  /** The inverse FFT at the start block number k + 1, for k sweeps that may be made, is the k-th. */
  lemma {:induction false} FrameAtStart(c: Config, cells: seq<Cell>, bs: seq<Block>, n: nat)
    requires c.Valid() && c.mode == Ifft && n < |bs| && IsStart(c, bs[n])
    requires 1 <= Starts(c, bs[..n]) && MayContinue(c, Starts(c, bs[..n]))
    ensures Starts(c, bs[..n]) <= |FramesOf(c, cells, bs)|
    ensures FramesOf(c, cells, bs)[Starts(c, bs[..n]) - 1] == EmitAll(c, Fresh(cells), Picked(c, bs[..n])).ifftIn
    decreases |bs|
  {
    hide EmitAll, Picked;
    FrameCount(c, cells, bs[..|bs| - 1]);
    if n < |bs| - 1 {
      assert bs[..|bs| - 1][..n] == bs[..n];
      FrameAtStart(c, cells, bs[..|bs| - 1], n);
    }
  }

  /** There is one for every start block after the first, up to the limit of the run. */
  lemma {:induction false} FrameCount(c: Config, cells: seq<Cell>, bs: seq<Block>)
    requires c.Valid()
    ensures |FramesOf(c, cells, bs)|
         == if c.mode != Ifft || Starts(c, bs) == 0 then 0
            else if MayContinue(c, Starts(c, bs)) then Starts(c, bs) - 1
            else SweepLimit(c)
  {
    hide EmitAll, Picked;
    if bs != [] { FrameCount(c, cells, bs[..|bs| - 1]); }
  }

  // ----- the refinement

  /** The run has ended: by a signal, or at a start block that was one too many. */
  predicate Over(c: Config, es: seq<Event>) {
    !NoSignal(es) || !MayContinue(c, Starts(c, Stream(es)))
  }

  /** The transfers after the end of the run that open with a start block. */
  function LateStarts(c: Config, es: seq<Event>): nat {
    if es == [] then 0
    else
      var front, last := es[..|es| - 1], es[|es| - 1];
      LateStarts(c, front) + if Over(c, front) && last.Transfer? && OpensWithStart(c, last.blocks) then 1 else 0
  }

  /** The inverse FFTs they write: one each, except that the first start block of all only starts a sweep. */
  function LateFrames(c: Config, stream: seq<Block>, late: nat): nat {
    if c.mode != Ifft then 0
    else if Starts(c, stream) == 0 && 0 < late then late - 1
    else late
  }

  function Copies(frame: seq<Cell>, n: nat): (s: seq<seq<Cell>>)
    ensures |s| == n
  {
    seq(n, _ => frame)
  }

  /** What a run has done, in terms of its stream, whether it is over, and its late start blocks. */
  predicate Outcome(c: Config, cells: seq<Cell>, stream: seq<Block>, over: bool, late: nat, st: State)
    requires c.Valid()
  {
    var out := EmitAll(c, Fresh(cells), Picked(c, stream));
    && st.records == out.records && st.ifftIn == out.ifftIn
    && st.frames == FramesOf(c, cells, stream) + Copies(out.ifftIn, LateFrames(c, stream, late))
    && (st.doExit <==> over) && (!over ==> late == 0 && st == FlatRun(c, Fresh(cells), stream))
    && (st.started <==> 1 <= Starts(c, stream) || 0 < late)
  }

  /**
   * Whatever the grouping of the blocks into transfers, a run prints and places exactly the blocks picked from
   * the flat stream before the first signal, and writes the inverse FFTs of that stream; and after its end, one
   * more copy of the last input for every transfer that opens with a start block.
   */
  lemma StreamRefinement(c: Config, cells: seq<Cell>, es: seq<Event>)
    requires c.Valid()
    ensures Outcome(c, cells, Stream(es), Over(c, es), LateStarts(c, es), RunEvents(c, Fresh(cells), es))
    ensures c.mode != Text ==> RunEvents(c, Fresh(cells), es).records == []
    ensures c.mode != Ifft ==> RunEvents(c, Fresh(cells), es).ifftIn == cells
    ensures c.mode != Ifft ==> RunEvents(c, Fresh(cells), es).frames == []
  {
    hide EmitAll, Picked, FlatRun, RunEvents, Starts, MayContinue, FramesOf, LateStarts, Stream;
    EventsOutcome(c, cells, es);
    EmitsInMode(c, Fresh(cells), Picked(c, Stream(es)));
    FrameCount(c, cells, Stream(es));
  }

  /** Records come in text mode only, and slots are filled in IFFT mode only. */
  lemma {:induction false} EmitsInMode(c: Config, st: State, bs: seq<Block>)
    requires c.Valid()
    ensures c.mode != Text ==> EmitAll(c, st, bs).records == st.records
    ensures c.mode != Ifft ==> EmitAll(c, st, bs).ifftIn == st.ifftIn
  {
    hide RecordsOf, PlacedBlock;
    if bs != [] { EmitsInMode(c, st, bs[..|bs| - 1]); }
  }

  /** A run is told to stop by its own blocks exactly at the start block after its last sweep. */
  lemma StopsExactly(c: Config, cells: seq<Cell>, es: seq<Event>)
    requires c.Valid() && NoSignal(es)
    ensures var starts := Starts(c, Stream(es));
      RunEvents(c, Fresh(cells), es).doExit
      <==> || (c.oneShot && 2 <= starts)
           || (!c.oneShot && c.finiteMode && 0 < c.numSweeps < starts)
           || (!c.oneShot && c.finiteMode && c.numSweeps == 0 && 0x1_0000_0000_0000_0000 < starts)
  {
    hide EmitAll, Picked, FlatRun, RunEvents, Starts, FramesOf, LateStarts, Stream;
    StreamRefinement(c, cells, es);
  }

  lemma {:induction false} EventsOutcome(c: Config, cells: seq<Cell>, es: seq<Event>)
    requires c.Valid()
    ensures Outcome(c, cells, Stream(es), Over(c, es), LateStarts(c, es), RunEvents(c, Fresh(cells), es))
  {
    hide Outcome, RunTransfer, Starts, MayContinue, NoSignal, OpensWithStart;
    if es == [] {
      NothingYet(c, cells);
    } else {
      var front, last := es[..|es| - 1], es[|es| - 1];
      EventsOutcome(c, cells, front);
      var s := RunEvents(c, Fresh(cells), front);
      SignalLast(es);
      if last.Transfer? {
        StreamStep(c, cells, Stream(front), last.blocks, s, NoSignal(front), LateStarts(c, front));
      } else {
        SignalStep(c, cells, Stream(front), s, Over(c, front), LateStarts(c, front));
      }
      assert !NoSignal(es) ==> Stream(es) == Stream(front);
    }
  }

  lemma SignalLast(es: seq<Event>)
    requires es != []
    ensures NoSignal(es) <==> NoSignal(es[..|es| - 1]) && es[|es| - 1].Transfer?
  {
    var front, last := es[..|es| - 1], es[|es| - 1];
    assert es == front + [last];
    if NoSignal(front) && last.Transfer? {
      forall i | 0 <= i < |es| ensures es[i].Transfer? {
        if i < |front| { assert front[i].Transfer?; }
      }
    }
    if NoSignal(es) {
      forall i | 0 <= i < |front| ensures front[i].Transfer? {
        assert es[i].Transfer?;
      }
    }
  }

  lemma NothingYet(c: Config, cells: seq<Cell>)
    requires c.Valid()
    ensures Outcome(c, cells, [], false, 0, Fresh(cells)) && MayContinue(c, Starts(c, [])) && NoSignal([])
    ensures Picks(c, cells, [], Fresh(cells))
  {
  }

  lemma SignalStep(c: Config, cells: seq<Cell>, stream: seq<Block>, s: State, over: bool, late: nat)
    requires c.Valid() && Outcome(c, cells, stream, over, late, s)
    ensures Outcome(c, cells, stream, true, late, s.(doExit := true))
  {
  }

  lemma StreamStep(c: Config, cells: seq<Cell>, before: seq<Block>, bs: seq<Block>, s: State, quiet: bool, late: nat)
    requires c.Valid() && Outcome(c, cells, before, !quiet || !MayContinue(c, Starts(c, before)), late, s)
    ensures var over, all := !quiet || !MayContinue(c, Starts(c, before)), if quiet then before + bs else before;
      Outcome(c, cells, all, !quiet || !MayContinue(c, Starts(c, all)),
              late + if over && OpensWithStart(c, bs) then 1 else 0, RunTransfer(c, s, bs))
  {
    hide Picked, EmitAll, FlatRun, RunTransfer, Starts, MayContinue, FramesOf, OpensWithStart;
    if s.doExit {
      AfterExit(c, s, bs);
      if quiet { PickedIsOver(c, cells, before, bs); }
      LateStep(c, cells, before, bs, s, if quiet then before + bs else before, late);
    } else {
      TransferIsFlat(c, s, bs);
      FlatRunConcat(c, Fresh(cells), before, bs);
      FlatRunPicks(c, cells, before + bs);
    }
  }

  lemma LateStep(c: Config, cells: seq<Cell>, before: seq<Block>, bs: seq<Block>, s: State, all: seq<Block>, late: nat)
    requires c.Valid() && s.doExit && Outcome(c, cells, before, true, late, s)
    requires Picked(c, all) == Picked(c, before) && FramesOf(c, cells, all) == FramesOf(c, cells, before)
    requires Starts(c, all) == Starts(c, before) || 1 <= Starts(c, before) <= Starts(c, all)
    ensures Outcome(c, cells, all, true, late + if OpensWithStart(c, bs) then 1 else 0, RunTransfer(c, s, bs))
  {
    hide Picked, EmitAll, FlatRun, RunTransfer, Starts, MayContinue, FramesOf, OpensWithStart;
    AfterExit(c, s, bs);
    var cell, n := s.ifftIn, LateFrames(c, before, late);
    assert Copies(cell, n + 1) == Copies(cell, n) + [cell];
  }

  lemma {:induction false} PickedIsOver(c: Config, cells: seq<Cell>, before: seq<Block>, bs: seq<Block>)
    requires c.Valid() && !MayContinue(c, Starts(c, before))
    ensures Picked(c, before + bs) == Picked(c, before) && Starts(c, before) <= Starts(c, before + bs)
    ensures FramesOf(c, cells, before + bs) == FramesOf(c, cells, before)
    ensures !MayContinue(c, Starts(c, before + bs)) && 1 <= Starts(c, before)
  {
    hide EmitAll;
    if bs == [] {
      assert before + bs == before;
    } else {
      PickedIsOver(c, cells, before, bs[..|bs| - 1]);
      assert (before + bs)[..|before + bs| - 1] == before + bs[..|bs| - 1];
    }
  }

  // ----- groupings

  /** What a run makes of a stream depends only on its blocks with a header. */
  lemma {:induction false} HeadedSame(c: Config, cells: seq<Cell>, bs: seq<Block>)
    requires c.Valid()
    ensures Starts(c, Headed(bs)) == Starts(c, bs) && Picked(c, Headed(bs)) == Picked(c, bs)
    ensures FramesOf(c, cells, Headed(bs)) == FramesOf(c, cells, bs)
    ensures FlatRun(c, Fresh(cells), Headed(bs)) == FlatRun(c, Fresh(cells), bs)
  {
    if bs != [] {
      var front, b := bs[..|bs| - 1], bs[|bs| - 1];
      HeadedSame(c, cells, front);
      if HasHeader(b) {
        HeadedLast(c, cells, front, Headed(front), b);
        assert bs == front + [b] && Headed(bs) == Headed(front) + [b];
      } else {
        NoHeaderLast(c, cells, front, b);
        assert bs == front + [b] && Headed(bs) == Headed(front);
      }
    }
  }

  lemma HeadedLast(c: Config, cells: seq<Cell>, front: seq<Block>, headed: seq<Block>, b: Block)
    requires c.Valid()
    requires Starts(c, headed) == Starts(c, front) && Picked(c, headed) == Picked(c, front)
    requires FramesOf(c, cells, headed) == FramesOf(c, cells, front)
    requires FlatRun(c, Fresh(cells), headed) == FlatRun(c, Fresh(cells), front)
    ensures Starts(c, headed + [b]) == Starts(c, front + [b]) && Picked(c, headed + [b]) == Picked(c, front + [b])
    ensures FramesOf(c, cells, headed + [b]) == FramesOf(c, cells, front + [b])
    ensures FlatRun(c, Fresh(cells), headed + [b]) == FlatRun(c, Fresh(cells), front + [b])
  {
    hide EmitAll, Step, IsStart, HasHeader, BelowCap, MayContinue;
    assert (headed + [b])[..|headed|] == headed && (front + [b])[..|front|] == front;
  }

  lemma NoHeaderLast(c: Config, cells: seq<Cell>, front: seq<Block>, b: Block)
    requires c.Valid() && !HasHeader(b)
    ensures Starts(c, front + [b]) == Starts(c, front) && Picked(c, front + [b]) == Picked(c, front)
    ensures FramesOf(c, cells, front + [b]) == FramesOf(c, cells, front)
    ensures FlatRun(c, Fresh(cells), front + [b]) == FlatRun(c, Fresh(cells), front)
  {
    hide EmitAll, Emit, Begin, Hz, BelowCap, MayContinue;
    assert (front + [b])[..|front|] == front;
  }

  /**
   * Two groupings of the same blocks, up to blocks without a header, agree in all they print and place, in when
   * they end, and in the inverse FFTs up to there. All their inverse FFTs agree exactly when they have as many
   * late start blocks.
   */
  lemma GroupingIrrelevant(c: Config, cells: seq<Cell>, es: seq<Event>, fs: seq<Event>)
    requires c.Valid() && NoSignal(es) && NoSignal(fs) && Headed(Stream(es)) == Headed(Stream(fs))
    ensures var s, t := RunEvents(c, Fresh(cells), es), RunEvents(c, Fresh(cells), fs);
      && s.records == t.records && s.ifftIn == t.ifftIn && s.doExit == t.doExit && (!s.doExit ==> s == t)
      && FramesOf(c, cells, Stream(es)) == FramesOf(c, cells, Stream(fs))
      && FramesOf(c, cells, Stream(es)) <= s.frames && FramesOf(c, cells, Stream(es)) <= t.frames
      && (s.frames == t.frames <==> c.mode != Ifft || LateStarts(c, es) == LateStarts(c, fs))
  {
    hide Picked, EmitAll, FlatRun, RunEvents, Starts, MayContinue, FramesOf, LateStarts, Stream, Headed;
    StreamRefinement(c, cells, es);
    StreamRefinement(c, cells, fs);
    HeadedSame(c, cells, Stream(es));
    HeadedSame(c, cells, Stream(fs));
    assert MayContinue(c, 0) by { NothingYet(c, cells); }
  }

  /** Every transfer has the blocks of a full buffer. */
  predicate FullTransfers(es: seq<Event>) {
    forall i | 0 <= i < |es| && es[i].Transfer? :: |es[i].blocks| == BLOCKS_PER_TRANSFER
  }

  /** A start block of the range, with empty samples. */
  function StartBlock(c: Config): Block {
    [0x7F, 0x7F] + LittleEndian(c.StartHz(), 8) + seq(BYTES_PER_BLOCK - 10, _ => 0)
  }

  lemma StartBlockStarts(c: Config)
    requires c.Valid()
    ensures IsStart(c, StartBlock(c)) && BelowCap(StartBlock(c))
  {
    hide LittleEndian, FromLittleEndian, Pow2;
    var b := StartBlock(c);
    Pow2Constants();
    LittleEndianRoundTrip(c.StartHz(), 8);
    assert b[2..10] == LittleEndian(c.StartHz(), 8);
  }

  /** n blocks without a header. */
  function Blanks(n: nat): (bs: seq<Block>)
    ensures |bs| == n
  {
    if n == 0 then [] else Blanks(n - 1) + [seq(BYTES_PER_BLOCK, _ => 0)]
  }

  lemma {:induction false} BlanksSkipped(c: Config, st: State, bs: seq<Block>, n: nat)
    requires c.Valid()
    ensures FlatRun(c, st, bs + Blanks(n)) == FlatRun(c, st, bs)
  {
    hide Emit, Begin, Hz;
    if n == 0 {
      assert bs + Blanks(0) == bs;
    } else {
      BlanksSkipped(c, st, bs, n - 1);
      var all := bs + Blanks(n);
      assert all[..|all| - 1] == bs + Blanks(n - 1) && !HasHeader(all[|all| - 1]);
    }
  }

  /** In one-shot IFFT mode a transfer that brings one start block too many ends at it. */
  lemma TwoStarts(c: Config, st: State, b: Block)
    requires c.Valid() && c.oneShot && c.mode == Ifft && !st.started && !st.doExit && IsStart(c, b) && BelowCap(b)
    ensures var r := FlatRun(c, st, [b, b]); r.doExit && r.started && |r.frames| == |st.frames| + 1
    ensures FlatRun(c, st, [b, b, b]) == FlatRun(c, st, [b, b])
  {
    hide Hz, PlacedBlock, BelowCap;
    assert [b, b][..1] == [b] && [b][..0] == [] && [b, b, b][..2] == [b, b];
    assert FlatRun(c, st, []) == st;
    assert FlatRun(c, st, [b]) == Step(c, st, b);
  }

  /**
   * Three start blocks in one-shot IFFT mode, among blocks without a header: as one transfer they write one
   * inverse FFT, as two they write two.
   */
  lemma GroupingShows(c: Config, cells: seq<Cell>)
    requires c.Valid() && c.oneShot && c.mode == Ifft
    ensures var b := StartBlock(c);
      var es := [Transfer([b, b, b] + Blanks(13))];
      var fs := [Transfer([b, b] + Blanks(14)), Transfer([b] + Blanks(15))];
      && NoSignal(es) && NoSignal(fs) && FullTransfers(es) && FullTransfers(fs)
      && Headed(Stream(es)) == Headed(Stream(fs))
      && |RunEvents(c, Fresh(cells), es).frames| == 1 && |RunEvents(c, Fresh(cells), fs).frames| == 2
  {
    StartBlockStarts(c);
    hide Hz, StartBlock, BelowCap, Blanks, RunTransfer, Headed;
    var b, st := StartBlock(c), Fresh(cells);
    var one, two, last := [b, b, b] + Blanks(13), [b, b] + Blanks(14), [b] + Blanks(15);
    OneGroup(c, st, b, one);
    TwoGroups(c, st, b, two, last);
    OneEvent(c, st, one);
    TwoEvents(c, st, two, last);
    HeadedBlanks([b, b, b], 13);
    HeadedBlanks([b, b], 14);
    SameHeaded(b, two, last);
  }

  lemma OneGroup(c: Config, st: State, b: Block, one: seq<Block>)
    requires c.Valid() && c.oneShot && c.mode == Ifft && !st.started && !st.doExit && IsStart(c, b) && BelowCap(b)
    requires one == [b, b, b] + Blanks(13)
    ensures |RunTransfer(c, st, one).frames| == |st.frames| + 1
  {
    hide Hz, BelowCap, Blanks, FlatRun, RunTransfer;
    TwoStarts(c, st, b);
    BlanksSkipped(c, st, [b, b, b], 13);
    TransferIsFlat(c, st, one);
  }

  lemma TwoGroups(c: Config, st: State, b: Block, two: seq<Block>, last: seq<Block>)
    requires c.Valid() && c.oneShot && c.mode == Ifft && !st.started && !st.doExit && IsStart(c, b) && BelowCap(b)
    requires two == [b, b] + Blanks(14) && last == [b] + Blanks(15)
    ensures |RunTransfer(c, RunTransfer(c, st, two), last).frames| == |st.frames| + 2
  {
    hide Hz, BelowCap, Blanks, FlatRun, RunTransfer;
    TwoStarts(c, st, b);
    BlanksSkipped(c, st, [b, b], 14);
    TransferIsFlat(c, st, two);
    AfterExit(c, RunTransfer(c, st, two), last);
  }

  lemma OneEvent(c: Config, st: State, bs: seq<Block>)
    requires c.Valid()
    ensures RunEvents(c, st, [Transfer(bs)]) == RunTransfer(c, st, bs) && Stream([Transfer(bs)]) == bs
  {
    assert [Transfer(bs)][..0] == [] && RunEvents(c, st, []) == st && Stream([]) == [];
  }

  lemma TwoEvents(c: Config, st: State, a: seq<Block>, b: seq<Block>)
    requires c.Valid()
    ensures RunEvents(c, st, [Transfer(a), Transfer(b)]) == RunTransfer(c, RunTransfer(c, st, a), b)
    ensures Stream([Transfer(a), Transfer(b)]) == a + b
  {
    OneEvent(c, st, a);
    assert [Transfer(a), Transfer(b)][..1] == [Transfer(a)];
  }

  lemma {:induction false} HeadedConcat(a: seq<Block>, b: seq<Block>)
    ensures Headed(a + b) == Headed(a) + Headed(b)
  {
    if b == [] {
      assert a + b == a;
    } else {
      HeadedConcat(a, b[..|b| - 1]);
      assert (a + b)[..|a + b| - 1] == a + b[..|b| - 1];
    }
  }

  lemma SameHeaded(b: Block, two: seq<Block>, last: seq<Block>)
    requires Headed(two) == Headed([b, b]) && last == [b] + Blanks(15)
    ensures Headed(two + last) == Headed([b, b, b])
  {
    hide Headed, Blanks;
    HeadedConcat(two, last);
    HeadedBlanks([b], 15);
    HeadedConcat([b, b], [b]);
    assert [b, b] + [b] == [b, b, b];
  }

  lemma {:induction false} HeadedBlanks(bs: seq<Block>, n: nat)
    ensures Headed(bs + Blanks(n)) == Headed(bs)
  {
    if n == 0 {
      assert bs + Blanks(0) == bs;
    } else {
      HeadedBlanks(bs, n - 1);
      var all := bs + Blanks(n);
      assert all[..|all| - 1] == bs + Blanks(n - 1) && !HasHeader(all[|all| - 1]);
    }
  }
}
