/** `rx_callback` over its transfer buffer and its globals. */
module RxCallback {
  import opened Constants
  import opened Words
  import opened SweepGeometry
  import opened IfftPlacement
  import opened RxStream

  /** The blocks of a transfer buffer. */
  function BlockAt(buffer: seq<Byte>, j: nat): Block
    requires |buffer| == TRANSFER_BUFFER_SIZE && j < BLOCKS_PER_TRANSFER
  {
    buffer[j * BYTES_PER_BLOCK..(j + 1) * BYTES_PER_BLOCK]
  }

  function BlocksFrom(buffer: seq<Byte>, j: nat): seq<Block>
    requires |buffer| == TRANSFER_BUFFER_SIZE && j <= BLOCKS_PER_TRANSFER
    decreases BLOCKS_PER_TRANSFER - j
  {
    if j == BLOCKS_PER_TRANSFER then [] else [BlockAt(buffer, j)] + BlocksFrom(buffer, j + 1)
  }

  /** The bins of a block go to slots of the array, with no cast of a number that is too large. */
  predicate SlotsInBounds(c: Config, b: Block)
    requires c.Valid() && 0 < IfftBins(c.fftSize, c.steps)
  {
    && c.StartHz() <= Hz(b)
    && WindowsFit(FirstIndex(Hz(b) - c.StartHz(), c.fftSize, c.steps), c.fftSize, IfftBins(c.fftSize, c.steps))
  }

  /** The callback gets as far as the output of the block. */
  predicate Emits(c: Config, st: State, b: Block) {
    var s := if IsStart(c, b) then Begin(c, st) else st;
    HasHeader(b) && !s.doExit && s.started && BelowCap(b)
  }

  /** What a call in IFFT mode needs of its blocks: those it places have their slots in bounds. */
  predicate InBounds(c: Config, st: State, blocks: seq<Block>)
    requires c.Valid() && 0 < IfftBins(c.fftSize, c.steps)
    decreases |blocks|
  {
    blocks != [] && c.mode == Ifft ==>
      && (Emits(c, st, blocks[0]) ==> SlotsInBounds(c, blocks[0]))
      && var s := Step(c, st, blocks[0]); (HasHeader(blocks[0]) && s.doExit) || InBounds(c, s, blocks[1..])
  }

  class SweepReceiver {
    const cfg: Config
    var sinkOpen: bool
    var byteCount: nat
    var sweepStarted: bool
    var sweepCount: nat
    var doExit: bool
    var records: seq<Record>
    var frames: seq<seq<Cell>>
    const fftwIn: array<Byte>
    const fftwOut: array<Cell>
    const ifftwIn: array<Cell>

    ghost predicate Valid() {
      && cfg.Valid()
      && fftwIn.Length == 2 * cfg.fftSize && fftwOut.Length == cfg.fftSize
      && 0 < ifftwIn.Length == IfftBins(cfg.fftSize, cfg.steps)
      && fftwOut != ifftwIn
    }

    /** The globals as a value. */
    function Globals(): State
      reads this, ifftwIn
    {
      State(sweepStarted, sweepCount, doExit, records, ifftwIn[..], frames)
    }

    constructor (cfg: Config)
      requires cfg.Valid()
      ensures Valid() && this.cfg == cfg && fresh(fftwIn) && fresh(fftwOut) && fresh(ifftwIn)
      ensures Globals() == Fresh(ifftwIn[..]) && !sinkOpen
      ensures forall i | 0 <= i < ifftwIn.Length :: ifftwIn[i] == Unset
    {
      this.cfg := cfg;
      sinkOpen, byteCount := false, 0;
      sweepStarted, sweepCount, doExit, records, frames := false, 0, false, [], [];
      fftwIn := new Byte[2 * cfg.fftSize](_ => 0);
      fftwOut := new Cell[cfg.fftSize](_ => Unset);
      ifftwIn := new Cell[IfftBins(cfg.fftSize, cfg.steps)](_ => Unset);
    }

    method RxCallback(buffer: array<Byte>, validLength: nat) returns (rc: int)
      requires Valid() && buffer.Length == TRANSFER_BUFFER_SIZE
      requires (buffer as object) !in {fftwIn as object, fftwOut, ifftwIn}
      requires sinkOpen ==> InBounds(cfg, Globals(), BlocksFrom(buffer[..], 0))
      modifies this, fftwIn, fftwOut, ifftwIn
      ensures Valid() && sinkOpen == old(sinkOpen)
      ensures rc == if sinkOpen then 0 else -1
      ensures byteCount == if sinkOpen then (old(byteCount) + validLength) % TWO_32 else old(byteCount)
      ensures Globals() == if sinkOpen then RunTransfer(cfg, old(Globals()), BlocksFrom(buffer[..], 0))
                           else old(Globals())
    {
      hide RunTransfer, Step, Hz, IfftBins, InBounds, Emits, SlotsInBounds, BlocksFrom, BlockAt, HasHeader;
      if !sinkOpen {
        return -1;
      }
      byteCount := (byteCount + validLength) % TWO_32;
      ghost var bytes, start := buffer[..], old(Globals());
      var buf := 0;
      for j := 0 to BLOCKS_PER_TRANSFER
        invariant Valid() && sinkOpen && buffer[..] == bytes
        invariant buf == j * BYTES_PER_BLOCK
        invariant InBounds(cfg, Globals(), BlocksFrom(bytes, j))
        invariant byteCount == (old(byteCount) + validLength) % TWO_32
        invariant RunTransfer(cfg, Globals(), BlocksFrom(bytes, j)) == RunTransfer(cfg, start, BlocksFrom(bytes, 0))
      {
        OneBlock(cfg, Globals(), bytes, j);
        var stop;
        buf, stop := HandleBlock(buffer, buf, j);
        if stop {
          return 0;
        }
      }
      NoBlocks(cfg, Globals(), bytes);
      return 0;
    }

    /** The body of the block loop: moves the cursor past the block, and tells whether to leave the loop. */
    method HandleBlock(buffer: array<Byte>, cursor: nat, ghost j: nat) returns (buf: nat, stop: bool)
      requires Valid() && buffer.Length == TRANSFER_BUFFER_SIZE
      requires (buffer as object) !in {fftwIn as object, fftwOut, ifftwIn}
      requires j < BLOCKS_PER_TRANSFER && cursor == j * BYTES_PER_BLOCK
      requires cfg.mode == Ifft && Emits(cfg, Globals(), BlockAt(buffer[..], j)) ==>
        SlotsInBounds(cfg, BlockAt(buffer[..], j))
      modifies this, fftwIn, fftwOut, ifftwIn
      ensures sinkOpen == old(sinkOpen) && byteCount == old(byteCount) && buffer[..] == old(buffer[..])
      ensures Globals() == Step(cfg, old(Globals()), BlockAt(buffer[..], j))
      ensures stop <==> HasHeader(BlockAt(buffer[..], j)) && doExit
      ensures buffer[cursor] != 0x7F || buffer[cursor + 1] != 0x7F ==> Globals() == old(Globals()) && !stop
      ensures 7_250_000_000 < Hz(BlockAt(buffer[..], j)) ==> records == old(records) && ifftwIn[..] == old(ifftwIn[..])
      ensures Hz(BlockAt(buffer[..], j)) != 1_000_000 * cfg.startMhz ==>
        sweepStarted == old(sweepStarted) && sweepCount == old(sweepCount) && doExit == old(doExit)
      ensures !stop ==> buf == (j + 1) * BYTES_PER_BLOCK
    {
      hide Hz, Begin, Emit, IfftBins, SlotsInBounds;
      buf, stop := cursor, false;
      ghost var b := BlockAt(buffer[..], j);
      var frequency := 0;
      if buffer[buf] == 0x7F && buffer[buf + 1] == 0x7F {
        HeaderOf(buffer[..], j);
        frequency := OrBytes(buffer[buf + 2..buf + 10], 0);
      } else {
        buf := buf + BYTES_PER_BLOCK;
        return;
      }
      if frequency == FREQ_ONE_MHZ * cfg.startMhz {
        StartSweep();
      }
      if doExit {
        return buf, true;
      }
      if !sweepStarted {
        buf := buf + BYTES_PER_BLOCK;
        return;
      }
      if FREQ_MAX_MHZ * FREQ_ONE_MHZ < frequency {
        buf := buf + BYTES_PER_BLOCK;
        return;
      }
      buf := buf + BYTES_PER_BLOCK - cfg.fftSize * 2;
      SampleWindow(cfg, buffer[..], j);
      Transform(buffer, buf);
      buf := buf + cfg.fftSize * 2;
      Output(frequency, b);
    }

    /** The part of the callback for a start block. */
    method StartSweep()
      requires Valid()
      modifies this
      ensures Globals() == Begin(cfg, old(Globals()))
      ensures sinkOpen == old(sinkOpen) && byteCount == old(byteCount)
    {
      if sweepStarted {
        if cfg.mode == Ifft {
          frames := frames + [ifftwIn[..]];
        }
        sweepCount := (sweepCount + 1) % TWO_64;
        if cfg.oneShot {
          doExit := true;
        } else if cfg.finiteMode && sweepCount == cfg.numSweeps {
          doExit := true;
        }
      }
      sweepStarted := true;
    }

    /** Copies the sample window at `buf` and takes its FFT. */
    method Transform(buffer: array<Byte>, buf: nat)
      requires Valid() && buffer != fftwIn && buf + 2 * cfg.fftSize <= buffer.Length
      modifies fftwIn, fftwOut
      ensures Spectrum(buffer[buf..buf + 2 * cfg.fftSize])
    {
      ghost var w := buffer[buf..buf + 2 * cfg.fftSize];
      for i := 0 to cfg.fftSize
        invariant forall k | 0 <= k < 2 * i :: fftwIn[k] == w[k]
        invariant buffer[buf..buf + 2 * cfg.fftSize] == w
      {
        fftwIn[i * 2] := buffer[buf + i * 2];
        fftwIn[i * 2 + 1] := buffer[buf + i * 2 + 1];
      }
      assert fftwIn[..] == w;
      for i := 0 to cfg.fftSize
        invariant fftwIn[..] == w
        invariant forall k | 0 <= k < i :: fftwOut[k] == Bin(w, k)
      {
        fftwOut[i] := Bin(fftwIn[..], i);
      }
    }

    /** `fftwOut` is the FFT of w. */
    ghost predicate Spectrum(w: seq<Byte>)
      reads fftwOut
    {
      fftwOut.Length == cfg.fftSize && forall k | 0 <= k < cfg.fftSize :: fftwOut[k] == Bin(w, k)
    }

    /** What becomes of the FFT of a block, by output mode. */
    method Output(frequency: nat, ghost b: Block)
      requires Valid() && frequency == Hz(b) && Spectrum(Window(cfg, b))
      requires HasHeader(b) && BelowCap(b) && (cfg.mode == Ifft ==> SlotsInBounds(cfg, b))
      modifies this`records, ifftwIn
      ensures Globals() == Emit(cfg, old(Globals()), b)
    {
      hide RecordsOf, PlacedBlock, Hz, SlotsInBounds;
      match cfg.mode {
        case Binary =>
        case Ifft => PlaceBins(frequency, b);
        case Text => PrintRecords(frequency, b);
      }
    }

    method PrintRecords(frequency: nat, ghost b: Block)
      requires Valid() && frequency == Hz(b) && Spectrum(Window(cfg, b))
      modifies this`records
      ensures records == old(records) + RecordsOf(cfg, b)
    {
      hide Hz;
      var n := cfg.fftSize;
      KeptInBounds(n);
      var line := [];
      for i := 0 to n / 4
        invariant line == KeptBins(Window(cfg, b), FirstBin(n, 0), i)
      {
        line := line + [fftwOut[i + 1 + n * 5 / 8]];
      }
      records := records + [Record(frequency, (frequency + SAMPLE_RATE_HZ / 4) % TWO_64, line)];
      line := [];
      for i := 0 to n / 4
        invariant line == KeptBins(Window(cfg, b), SecondBin(n, 0), i)
      {
        line := line + [fftwOut[i + 1 + n / 8]];
      }
      records := records + [Record((frequency + SAMPLE_RATE_HZ / 2) % TWO_64,
                                   (frequency + SAMPLE_RATE_HZ * 3 / 4) % TWO_64, line)];
    }

    method PlaceBins(frequency: nat, ghost b: Block)
      requires Valid() && frequency == Hz(b) && Spectrum(Window(cfg, b))
      requires SlotsInBounds(cfg, b)
      modifies ifftwIn
      ensures ifftwIn[..] == PlacedBlock(cfg, old(ifftwIn[..]), b)
    {
      hide Hz, IfftBins, FirstIndex, SecondIndex, HalfStepOn, SlotsInBounds, Placed, PlacedBlock, Window, Spectrum;
      var n, bins := cfg.fftSize, IfftBins(cfg.fftSize, cfg.steps);
      SlotsFit(cfg, b);
      PlacedTwice(cfg, ifftwIn[..], b);
      var at := FirstIndex((frequency - cfg.StartHz()) % TWO_64, n, cfg.steps);
      PlaceWindow(at, 1 + n * 5 / 8, Window(cfg, b));
      at := HalfStepOn(at, n, bins);
      PlaceWindow(at, 1 + n / 8, Window(cfg, b));
    }

    /** The loop over one window. */
    method PlaceWindow(at: nat, from: nat, ghost w: seq<Byte>)
      requires Valid() && Spectrum(w) && at + cfg.fftSize / 4 <= ifftwIn.Length
      requires from == FirstBin(cfg.fftSize, 0) || from == SecondBin(cfg.fftSize, 0)
      modifies ifftwIn
      ensures ifftwIn[..] == Placed(old(ifftwIn[..]), at, w, from, cfg.fftSize / 4) && Spectrum(w)
    {
      hide IfftBins;
      KeptInBounds(cfg.fftSize);
      ghost var cells := ifftwIn[..];
      for i := 0 to cfg.fftSize / 4
        invariant Spectrum(w) && ifftwIn[..] == Placed(cells, at, w, from, i)
      {
        assert from + i == FirstBin(cfg.fftSize, i) || from + i == SecondBin(cfg.fftSize, i);
        ifftwIn[at + i] := fftwOut[i + from];
      }
    }
  }

  // ----- the proof

  /** The two slots the callback computes, and the room behind them. */
  lemma SlotsFit(c: Config, b: Block)
    requires c.Valid() && 0 < IfftBins(c.fftSize, c.steps) && SlotsInBounds(c, b)
    ensures var d, n, bins := (Hz(b) - c.StartHz()) % TWO_64, c.fftSize, IfftBins(c.fftSize, c.steps);
      var at := FirstIndex(d, n, c.steps);
      && HalfStepOn(at, n, bins) == SecondIndex(d, n, c.steps)
      && at + n / 4 <= bins && SecondIndex(d, n, c.steps) + n / 4 <= bins
  {
    hide Hz, IfftBins, FirstIndex;
    QuotRem(Hz(b) - c.StartHz(), TWO_64, 0, Hz(b) - c.StartHz());
  }

  /** The slots of a block, filled one window after the other. */
  lemma PlacedTwice(c: Config, cells: seq<Cell>, b: Block)
    requires c.Valid() && 0 < IfftBins(c.fftSize, c.steps)
    ensures var n, w, d := c.fftSize, Window(c, b), (Hz(b) - c.StartHz()) % TWO_64;
      PlacedBlock(c, cells, b)
      == Placed(Placed(cells, FirstIndex(d, n, c.steps), w, 1 + n * 5 / 8, n / 4),
                SecondIndex(d, n, c.steps), w, 1 + n / 8, n / 4)
  {
    hide Placed, Hz, FirstIndex, SecondIndex, Window;
  }

  lemma OneBlock(c: Config, st: State, buffer: seq<Byte>, j: nat)
    requires c.Valid() && 0 < IfftBins(c.fftSize, c.steps)
    requires |buffer| == TRANSFER_BUFFER_SIZE && j < BLOCKS_PER_TRANSFER
    ensures var b, blocks, rest := BlockAt(buffer, j), BlocksFrom(buffer, j), BlocksFrom(buffer, j + 1);
      var s := Step(c, st, b);
      && RunTransfer(c, st, blocks) == (if HasHeader(b) && s.doExit then s else RunTransfer(c, s, rest))
      && (InBounds(c, st, blocks) && c.mode == Ifft && Emits(c, st, b) ==> SlotsInBounds(c, b))
      && (InBounds(c, st, blocks) && !(HasHeader(b) && s.doExit) ==> InBounds(c, s, rest))
  {
    hide Step, Emits, SlotsInBounds, HasHeader, BlockAt, IfftBins;
    var blocks := BlocksFrom(buffer, j);
    assert blocks[0] == BlockAt(buffer, j) && blocks[1..] == BlocksFrom(buffer, j + 1);
  }

  /** The window the cursor points at is the end of its own block. */
  lemma SampleWindow(c: Config, buffer: seq<Byte>, j: nat)
    requires c.Valid() && |buffer| == TRANSFER_BUFFER_SIZE && j < BLOCKS_PER_TRANSFER
    ensures var buf := (j + 1) * BYTES_PER_BLOCK - 2 * c.fftSize;
      j * BYTES_PER_BLOCK < buf && buffer[buf..buf + 2 * c.fftSize] == Window(c, BlockAt(buffer, j))
  {
  }

  lemma NoBlocks(c: Config, st: State, buffer: seq<Byte>)
    requires c.Valid() && |buffer| == TRANSFER_BUFFER_SIZE
    ensures RunTransfer(c, st, BlocksFrom(buffer, BLOCKS_PER_TRANSFER)) == st
  {
  }

  /** The header word the callback assembles is the frequency of the block. */
  lemma HeaderOf(buffer: seq<Byte>, j: nat)
    requires |buffer| == TRANSFER_BUFFER_SIZE && j < BLOCKS_PER_TRANSFER
    ensures var buf := j * BYTES_PER_BLOCK;
      OrBytes(buffer[buf + 2..buf + 10], 0) == Hz(BlockAt(buffer, j))
  {
    hide OrBytes, FromLittleEndian, Pow2, BlockAt;
    HeaderBytes(buffer, j);
    var s := BlockAt(buffer, j)[2..10];
    OrBytesIsLittleEndian(s, 0);
    Pow2Small();
    assert s[0..] == s;
  }

  lemma HeaderBytes(buffer: seq<Byte>, j: nat)
    requires |buffer| == TRANSFER_BUFFER_SIZE && j < BLOCKS_PER_TRANSFER
    ensures var buf := j * BYTES_PER_BLOCK;
      buffer[buf + 2..buf + 10] == BlockAt(buffer, j)[2..10]
  {
    SliceOfSlice(buffer, j * BYTES_PER_BLOCK, (j + 1) * BYTES_PER_BLOCK, 2, 10);
  }

  lemma SliceOfSlice(s: seq<Byte>, a: nat, b: nat, i: nat, k: nat)
    requires a <= b <= |s| && i <= k <= b - a
    ensures s[a..b][i..k] == s[a + i..a + k]
  {
    var t := s[a..b];
    assert forall x | 0 <= x < k - i :: t[i..k][x] == t[i + x] == s[a + i + x] == s[a + i..a + k][x];
  }

  /** Assembling a header word undoes its little-endian encoding. */
  lemma HeaderRoundTrip(f: nat)
    requires f < TWO_64
    ensures OrBytes(LittleEndian(f, 8), 0) == f
  {
    hide LittleEndian, FromLittleEndian, OrBytes, Pow2;
    Pow2Constants();
    Pow2Small();
    LittleEndianRoundTrip(f, 8);
    var s := LittleEndian(f, 8);
    OrBytesIsLittleEndian(s, 0);
    assert s[0..] == s;
  }

  function Joined(blocks: seq<Block>): seq<Byte> {
    if blocks == [] then [] else blocks[0] + Joined(blocks[1..])
  }

  /** The blocks of a transfer are the whole buffer, byte for byte. */
  lemma {:induction false} BlocksFillBuffer(buffer: seq<Byte>, j: nat)
    requires |buffer| == TRANSFER_BUFFER_SIZE && j <= BLOCKS_PER_TRANSFER
    ensures Joined(BlocksFrom(buffer, j)) == buffer[j * BYTES_PER_BLOCK..]
    ensures |BlocksFrom(buffer, j)| == BLOCKS_PER_TRANSFER - j
    decreases BLOCKS_PER_TRANSFER - j
  {
    if j < BLOCKS_PER_TRANSFER {
      BlocksFillBuffer(buffer, j + 1);
      var b, rest := BlockAt(buffer, j), BlocksFrom(buffer, j + 1);
      assert BlocksFrom(buffer, j) == [b] + rest && ([b] + rest)[1..] == rest;
    }
  }

  lemma KeptInBounds(n: nat)
    requires IsFftSize(n)
    ensures forall i | 0 <= i < n / 4 :: FirstBin(n, i) < n && SecondBin(n, i) < n
  {
  }

  // ----- the schedule

  /** What the device schedule promises: block labels are whole quarters above the start. */
  predicate OnSchedule(c: Config, b: Block) {
    HasHeader(b) && BelowCap(b) ==> c.StartHz() <= Hz(b) && (Hz(b) - c.StartHz()) % QUARTER_HZ == 0
  }

  /** Blocks labelled on the schedule are never written out of bounds, in whatever order they come. */
  lemma {:induction false} ScheduleInBounds(c: Config, st: State, blocks: seq<Block>)
    requires c.Valid() && forall j | 0 <= j < |blocks| :: OnSchedule(c, blocks[j])
    ensures 0 < IfftBins(c.fftSize, c.steps) && InBounds(c, st, blocks)
    decreases |blocks|
  {
    hide Hz, SlotsInBounds, Step, Begin;
    BinsArePositive(c);
    if blocks != [] {
      if HasHeader(blocks[0]) && BelowCap(blocks[0]) { OnScheduleFits(c, blocks[0]); }
      ScheduleInBounds(c, Step(c, st, blocks[0]), blocks[1..]);
    }
  }

  lemma BinsArePositive(c: Config)
    requires c.Valid()
    ensures 0 < IfftBins(c.fftSize, c.steps)
  {
    MulAtLeast(c.fftSize, c.steps);
  }

  lemma OnScheduleFits(c: Config, b: Block)
    requires c.Valid() && HasHeader(b) && BelowCap(b) && OnSchedule(c, b)
    ensures 0 < IfftBins(c.fftSize, c.steps) && SlotsInBounds(c, b)
  {
    hide Hz, HalfTurn, SpectralBin, FirstIndex, IfftBins;
    BinsArePositive(c);
    var d, n := Hz(b) - c.StartHz(), c.fftSize;
    var q := d / QUARTER_HZ;
    assert d == q * QUARTER_HZ;
    HalfRotation(q, n, c.steps, 0, n / 4 - 1);
    HalfRotation(q, n, c.steps, 1, n / 4 - 1);
  }
}
