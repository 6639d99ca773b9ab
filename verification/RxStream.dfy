/** What `rx_callback` does to a stream of blocks, and which blocks a sweep is made of. */
module RxStream {
  import opened Constants
  import opened Words
  import opened SweepGeometry
  import opened IfftPlacement

  const BLOCKS_PER_TRANSFER := 16

  type Block = b: seq<Byte> | |b| == BYTES_PER_BLOCK witness seq(BYTES_PER_BLOCK, _ => 0)

  /** FFT output `index` for a window of samples; the FFT itself is not part of the model. */
  datatype Cell = Unset | Bin(samples: seq<Byte>, index: nat)

  /** One line of text output: a band in hertz and the power bins printed for it. */
  datatype Record = Record(hzLow: nat, hzHigh: nat, bins: seq<Cell>)

  datatype Mode = Text | Ifft | Binary

  datatype Config = Config(fftSize: nat, steps: nat, startMhz: nat, mode: Mode,
                           oneShot: bool, finiteMode: bool, numSweeps: nat)
  {
    predicate Valid() {
      && IsFftSize(fftSize) && fftSize <= 8188 && 1 <= steps
      && startMhz <= 7250 && numSweeps < TWO_32
    }

    function StartHz(): nat { FREQ_ONE_MHZ * startMhz }
  }

  /** The globals of `rx_callback`, its text output, and the inverse FFTs written so far. */
  datatype State = State(started: bool, count: nat, doExit: bool, records: seq<Record>,
                         ifftIn: seq<Cell>, frames: seq<seq<Cell>>)

  function Fresh(cells: seq<Cell>): State {
    State(false, 0, false, [], cells, [])
  }

  // ----- blocks

  predicate HasHeader(b: Block) {
    b[0] == 0x7F && b[1] == 0x7F
  }

  /** The frequency in the header, eight bytes in little-endian order. */
  function Hz(b: Block): (f: nat)
    ensures f < TWO_64
  {
    FromLittleEndianBound(b[2..10]);
    Pow2Constants();
    FromLittleEndian(b[2..10])
  }

  predicate IsStart(c: Config, b: Block) {
    HasHeader(b) && Hz(b) == c.StartHz()
  }

  predicate BelowCap(b: Block) {
    Hz(b) <= 7_250_000_000
  }

  /** The samples an FFT is taken of: the last ones of the block. */
  function Window(c: Config, b: Block): (w: seq<Byte>)
    requires c.Valid()
    ensures |w| == 2 * c.fftSize && b[..16384 - 2 * c.fftSize] + w == b
  {
    b[BYTES_PER_BLOCK - 2 * c.fftSize..]
  }

  // ----- the output of one block

  function KeptBins(samples: seq<Byte>, from: nat, n: nat): (s: seq<Cell>)
    ensures |s| == n
  {
    seq(n, i requires 0 <= i => Bin(samples, from + i))
  }

  function RecordsOf(c: Config, b: Block): seq<Record>
    requires c.Valid()
  {
    var n, f, w := c.fftSize, Hz(b), Window(c, b);
    [Record(f, (f + SAMPLE_RATE_HZ / 4) % TWO_64, KeptBins(w, FirstBin(n, 0), n / 4)),
     Record((f + SAMPLE_RATE_HZ / 2) % TWO_64, (f + SAMPLE_RATE_HZ * 3 / 4) % TWO_64,
            KeptBins(w, SecondBin(n, 0), n / 4))]
  }

  /** n bins of a window written from slot `at` on. */
  function Placed(cells: seq<Cell>, at: nat, samples: seq<Byte>, from: nat, n: nat): (s: seq<Cell>)
    ensures |s| == |cells|
  {
    seq(|cells|, p requires 0 <= p < |cells| => if at <= p < at + n then Bin(samples, from + (p - at)) else cells[p])
  }

  function PlacedBlock(c: Config, cells: seq<Cell>, b: Block): (s: seq<Cell>)
    requires c.Valid()
    ensures |s| == |cells|
  {
    var n, w, d := c.fftSize, Window(c, b), (Hz(b) - c.StartHz()) % TWO_64;
    var first := Placed(cells, FirstIndex(d, n, c.steps), w, FirstBin(n, 0), n / 4);
    Placed(first, SecondIndex(d, n, c.steps), w, SecondBin(n, 0), n / 4)
  }

  function Emit(c: Config, st: State, b: Block): (r: State)
    requires c.Valid()
    ensures r == st.(records := r.records, ifftIn := r.ifftIn) && |r.ifftIn| == |st.ifftIn|
  {
    match c.mode
    case Text => st.(records := st.records + RecordsOf(c, b))
    case Ifft => st.(ifftIn := PlacedBlock(c, st.ifftIn, b))
    case Binary => st
  }

  // ----- the callback, block by block

  /** A start block: it ends the running sweep, if any, and starts the next. */
  function Begin(c: Config, st: State): State {
    if st.started then
      var count := (st.count + 1) % TWO_64;
      State(true, count, st.doExit || c.oneShot || (c.finiteMode && count == c.numSweeps), st.records, st.ifftIn,
            if c.mode == Ifft then st.frames + [st.ifftIn] else st.frames)
    else
      st.(started := true)
  }

  function Step(c: Config, st: State, b: Block): (r: State)
    requires c.Valid()
    ensures |r.ifftIn| == |st.ifftIn|
  {
    if !HasHeader(b) then st
    else
      var s := if Hz(b) == c.StartHz() then Begin(c, st) else st;
      if s.doExit || !s.started || !BelowCap(b) then s else Emit(c, s, b)
  }

  /** One call of the callback: it returns at the first block with a header after `do_exit` is set. */
  function RunTransfer(c: Config, st: State, blocks: seq<Block>): (r: State)
    requires c.Valid()
    ensures |r.ifftIn| == |st.ifftIn|
    decreases |blocks|
  {
    if blocks == [] then st
    else
      var s := Step(c, st, blocks[0]);
      if HasHeader(blocks[0]) && s.doExit then s else RunTransfer(c, s, blocks[1..])
  }

  /** What can happen between calls: another transfer, or a signal that sets `do_exit`. */
  datatype Event = Transfer(blocks: seq<Block>) | Signal

  function RunEvents(c: Config, st: State, es: seq<Event>): State
    requires c.Valid()
  {
    if es == [] then st
    else
      var s := RunEvents(c, st, es[..|es| - 1]);
      match es[|es| - 1]
      case Transfer(blocks) => RunTransfer(c, s, blocks)
      case Signal => s.(doExit := true)
  }

  // ----- which blocks a sweep is made of

  /** Start blocks of a stream. */
  function Starts(c: Config, bs: seq<Block>): nat {
    if bs == [] then 0
    else Starts(c, bs[..|bs| - 1]) + if IsStart(c, bs[|bs| - 1]) then 1 else 0
  }

  /** The sweeps of a one-shot or finite run; the 64-bit sweep count reaches 0 only after wrapping. */
  function SweepLimit(c: Config): nat {
    if c.oneShot then 1 else if c.numSweeps == 0 then TWO_64 else c.numSweeps
  }

  /** A run goes on while it has seen no more start blocks than this; the next one ends its last sweep. */
  predicate MayContinue(c: Config, starts: nat) {
    c.oneShot || c.finiteMode ==> starts <= SweepLimit(c)
  }

  /** The blocks that make output: from the first start block, up to the start block that is one too many. */
  function Picked(c: Config, bs: seq<Block>): seq<Block> {
    if bs == [] then []
    else
      var b := bs[|bs| - 1];
      Picked(c, bs[..|bs| - 1])
      + if HasHeader(b) && BelowCap(b) && 1 <= Starts(c, bs) && MayContinue(c, Starts(c, bs)) then [b] else []
  }

  function EmitAll(c: Config, st: State, bs: seq<Block>): (r: State)
    requires c.Valid()
    ensures r == st.(records := r.records, ifftIn := r.ifftIn) && |r.ifftIn| == |st.ifftIn|
  {
    if bs == [] then st else Emit(c, EmitAll(c, st, bs[..|bs| - 1]), bs[|bs| - 1])
  }

  /**
   * The inverse FFTs of a stream: one for every start block after the first, up to the one that is one too
   * many, each of the bins placed so far.
   */
  function FramesOf(c: Config, cells: seq<Cell>, bs: seq<Block>): seq<seq<Cell>>
    requires c.Valid()
  {
    if bs == [] then []
    else
      var front := bs[..|bs| - 1];
      FramesOf(c, cells, front)
      + if c.mode == Ifft && IsStart(c, bs[|bs| - 1]) && 1 <= Starts(c, front) && MayContinue(c, Starts(c, front))
        then [EmitAll(c, Fresh(cells), Picked(c, front)).ifftIn]
        else []
  }

  /** The blocks with a header: the callback skips all others. */
  function Headed(bs: seq<Block>): seq<Block> {
    if bs == [] then []
    else Headed(bs[..|bs| - 1]) + if HasHeader(bs[|bs| - 1]) then [bs[|bs| - 1]] else []
  }

  predicate NoSignal(es: seq<Event>) {
    forall i | 0 <= i < |es| :: es[i].Transfer?
  }

  /** The blocks of the transfers before the first signal. */
  function Stream(es: seq<Event>): seq<Block> {
    if es == [] then []
    else
      var last := es[|es| - 1];
      Stream(es[..|es| - 1]) + if NoSignal(es) then last.blocks else []
  }
}
