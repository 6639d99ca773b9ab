/** What `rx_callback` prints in text mode while it sweeps, and which frequencies that covers. */
module RxRecords {
  import opened Constants
  import opened Words
  import opened SweepGeometry
  import opened IfftPlacement
  import opened RxStream
  import opened RxTheorems
  import opened RxSweeps

  /** Record h of a block covers five megahertz, and its i-th value lies i and a half bins above its low end. */
  lemma RecordsAreLabelled(c: Config, b: Block, h: nat, i: nat)
    requires c.Valid() && BelowCap(b) && h < 2 && i < c.fftSize / 4
    ensures |RecordsOf(c, b)| == 2
    ensures var r := RecordsOf(c, b)[h];
      && r.hzLow == Hz(b) + h * (SAMPLE_RATE_HZ / 2) && r.hzHigh == r.hzLow + SAMPLE_RATE_HZ / 4
      && |r.bins| == c.fftSize / 4
      && r.bins[i].Bin? && r.bins[i].samples == Window(c, b) && r.bins[i].index < c.fftSize
      && Centre(Hz(b), c.fftSize, r.bins[i].index) == BinAbove(r.hzLow, c.fftSize, i)
  {
    hide Hz, Centre, BinAbove, Window, FirstBin, SecondBin;
    var n, f, w := c.fftSize, Hz(b), Window(c, b);
    BinLabels(f, n, i);
    BinsInARow(w, n, i);
    QuotRem(f + 5_000_000, TWO_64, 0, f + 5_000_000);
    QuotRem(f + 10_000_000, TWO_64, 0, f + 10_000_000);
    QuotRem(f + 15_000_000, TWO_64, 0, f + 15_000_000);
  }

  lemma BinsInARow(w: seq<Byte>, n: nat, i: nat)
    requires i < n / 4
    ensures KeptBins(w, FirstBin(n, 0), n / 4)[i] == Bin(w, FirstBin(n, i))
    ensures KeptBins(w, SecondBin(n, 0), n / 4)[i] == Bin(w, SecondBin(n, i))
  {
  }

  /** A record whose band contains x megahertz. */
  predicate Covers(r: Record, x: real) {
    r.hzLow as real <= x * FREQ_ONE_MHZ as real < r.hzHigh as real
  }

  /** The records of a run of blocks. */
  function Printed(c: Config, bs: seq<Block>): (s: seq<Record>)
    requires c.Valid()
    ensures |s| == 2 * |bs|
  {
    if bs == [] then [] else Printed(c, bs[..|bs| - 1]) + RecordsOf(c, bs[|bs| - 1])
  }

  lemma {:induction false} PrintedAt(c: Config, bs: seq<Block>, k: nat, h: nat)
    requires c.Valid() && k < |bs| && h < 2
    ensures Printed(c, bs)[2 * k + h] == RecordsOf(c, bs[k])[h]
  {
    hide RecordsOf;
    if k < |bs| - 1 {
      PrintedAt(c, bs[..|bs| - 1], k, h);
    }
    TwoRecords(c, bs[|bs| - 1]);
  }

  lemma TwoRecords(c: Config, b: Block)
    requires c.Valid()
    ensures |RecordsOf(c, b)| == 2
  {
  }

  lemma {:induction false} EmitsPrinted(c: Config, st: State, bs: seq<Block>)
    requires c.Valid() && c.mode == Text
    ensures EmitAll(c, st, bs).records == st.records + Printed(c, bs)
  {
    hide RecordsOf;
    if bs != [] { EmitsPrinted(c, st, bs[..|bs| - 1]); }
  }

  /** The positions of the blocks the cap lets through. */
  function KeptAt(bs: seq<Block>): (p: seq<nat>)
    ensures |p| == |Kept(bs)|
    ensures forall k | 0 <= k < |p| :: p[k] < |bs|
  {
    if bs == [] then []
    else KeptAt(bs[..|bs| - 1]) + if BelowCap(bs[|bs| - 1]) then [|bs| - 1] else []
  }

  lemma {:induction false} KeptPosition(bs: seq<Block>, k: nat)
    requires k < |Kept(bs)|
    ensures var m := KeptAt(bs)[k]; Kept(bs)[k] == bs[m] && BelowCap(bs[m])
  {
    hide BelowCap;
    if bs != [] && k < |Kept(bs[..|bs| - 1])| { KeptPosition(bs[..|bs| - 1], k); }
  }

  lemma {:induction false} KeptIncreases(bs: seq<Block>, j: nat, k: nat)
    requires j < k < |Kept(bs)|
    ensures KeptAt(bs)[j] < KeptAt(bs)[k]
  {
    hide BelowCap;
    if bs != [] && k < |Kept(bs[..|bs| - 1])| { KeptIncreases(bs[..|bs| - 1], j, k); }
  }

  lemma {:induction false} KeptIndex(bs: seq<Block>, m: nat) returns (k: nat)
    requires m < |bs| && BelowCap(bs[m])
    ensures k < |Kept(bs)| && KeptAt(bs)[k] == m
  {
    hide BelowCap;
    if m < |bs| - 1 {
      k := KeptIndex(bs[..|bs| - 1], m);
    } else {
      k := |Kept(bs[..|bs| - 1])|;
    }
  }

  // ----- the ranges of a sweep

  /** Ranges as `hackrf_sweep` accepts them: low and high ends in megahertz. */
  predicate Requests(rs: seq<(nat, nat)>) {
    forall r | 0 <= r < |rs| :: rs[r].0 < rs[r].1 <= 7250
  }

  function StepsOf(rs: seq<(nat, nat)>, r: nat): nat
    requires Requests(rs) && r < |rs|
  {
    Steps(rs[r].0, rs[r].1)
  }

  /** The block is labelled with sub-step l.1, in quarters, of the steps planned for range l.0. */
  predicate HasLabel(rs: seq<(nat, nat)>, b: Block, l: (nat, nat))
    requires Requests(rs)
  {
    && l.0 < |rs| && InSchedule(StepsOf(rs, l.0), l.1)
    && HasHeader(b) && Hz(b) == FREQ_ONE_MHZ * rs[l.0].0 + l.1 * QUARTER_HZ
  }

  /** Blocks with labels that all differ. */
  predicate HasLabels(rs: seq<(nat, nat)>, bs: seq<Block>, ls: seq<(nat, nat)>)
    requires Requests(rs)
  {
    && |bs| == |ls|
    && (forall k | 0 <= k < |ls| :: HasLabel(rs, bs[k], ls[k]))
    && (forall j, k | 0 <= j < k < |ls| :: ls[j] != ls[k])
  }

  /** Every sub-step of every range occurs. */
  ghost predicate WholeRanges(rs: seq<(nat, nat)>, ls: seq<(nat, nat)>)
    requires Requests(rs)
  {
    forall r: nat, q: nat :: r < |rs| && InSchedule(StepsOf(rs, r), q) ==> (r, q) in ls
  }

  /** Range r reports x megahertz. */
  predicate ReportedIn(rs: seq<(nat, nat)>, r: nat, x: real)
    requires Requests(rs)
  {
    r < |rs| && Reported(rs[r].0, StepsOf(rs, r), x)
  }

  /** Record h of a block covers exactly the band of its sub-step. */
  lemma BandCovered(c: Config, b: Block, lo: nat, q: nat, h: nat, x: real)
    requires c.Valid() && BelowCap(b) && h < 2 && Hz(b) == FREQ_ONE_MHZ * lo + q * QUARTER_HZ
    ensures |RecordsOf(c, b)| == 2
    ensures Covers(RecordsOf(c, b)[h], x) <==> InBand(lo, q / 4, q % 4, h, x)
  {
    hide Hz, RecordsOf, Covers, Centre, BinAbove, Window;
    RecordsAreLabelled(c, b, h, 0);
    var f := SubStep(lo, q / 4, q % 4);
    assert f == lo + 5 * q;
    Megahertz(RecordsOf(c, b)[h], f + 10 * h, x);
  }

  lemma Megahertz(r: Record, f: nat, x: real)
    requires r.hzLow == f * FREQ_ONE_MHZ && r.hzHigh == (f + 5) * FREQ_ONE_MHZ
    ensures Covers(r, x) <==> f as real <= x < (f + 5) as real
  {
  }

  /** The label of the block that the k-th record comes from. */
  function Origin(bs: seq<Block>, ls: seq<(nat, nat)>, k: nat): (l: (nat, nat))
    requires |bs| == |ls| && k < 2 * |Kept(bs)|
    ensures l in ls
  {
    ls[KeptAt(bs)[k / 2]]
  }

  /** The k-th record of a labelled sequence, and the band it covers. */
  lemma RecordBand(c: Config, rs: seq<(nat, nat)>, bs: seq<Block>, ls: seq<(nat, nat)>, k: nat, x: real)
    requires c.Valid() && Requests(rs) && HasLabels(rs, bs, ls) && k < |Printed(c, Kept(bs))|
    ensures var l := Origin(bs, ls, k);
      && l.0 < |rs| && InSchedule(StepsOf(rs, l.0), l.1)
      && (Covers(Printed(c, Kept(bs))[k], x) <==> InBand(rs[l.0].0, l.1 / 4, l.1 % 4, k % 2, x))
  {
    hide Hz, RecordsOf, Covers, InBand, Kept, Printed, BelowCap, InSchedule, StepsOf;
    PrintedAt(c, Kept(bs), k / 2, k % 2);
    var m := KeptAt(bs)[k / 2];
    KeptPosition(bs, k / 2);
    assert HasLabel(rs, bs[m], ls[m]);
    BandCovered(c, bs[m], rs[ls[m].0].0, ls[m].1, k % 2, x);
  }

  /** A record that covers a frequency comes from a range that reports it. */
  lemma PrintedIsReported(c: Config, rs: seq<(nat, nat)>, bs: seq<Block>, ls: seq<(nat, nat)>, k: nat, x: real)
    requires c.Valid() && Requests(rs) && HasLabels(rs, bs, ls) && k < |Printed(c, Kept(bs))|
    requires Covers(Printed(c, Kept(bs))[k], x)
    ensures ReportedIn(rs, Origin(bs, ls, k).0, x)
  {
    hide Covers, HasLabel, InBand, Kept, Printed, Origin, StepsOf;
    RecordBand(c, rs, bs, ls, k, x);
    var q := Origin(bs, ls, k).1;
    assert q / 4 < StepsOf(rs, Origin(bs, ls, k).0) && q % 4 < 2 && k % 2 < 2;
  }

  /** No frequency lies in two records of one range. */
  lemma RangeDisjoint(c: Config, rs: seq<(nat, nat)>, bs: seq<Block>, ls: seq<(nat, nat)>, j: nat, k: nat, x: real)
    requires c.Valid() && Requests(rs) && HasLabels(rs, bs, ls)
    requires j < |Printed(c, Kept(bs))| && k < |Printed(c, Kept(bs))|
    requires Covers(Printed(c, Kept(bs))[j], x) && Covers(Printed(c, Kept(bs))[k], x)
    requires Origin(bs, ls, j).0 == Origin(bs, ls, k).0
    ensures j == k
  {
    hide Covers, InBand, Kept, Printed, HasLabel, StepsOf;
    RecordBand(c, rs, bs, ls, j, x);
    RecordBand(c, rs, bs, ls, k, x);
    var q, r := Origin(bs, ls, j).1, Origin(bs, ls, k).1;
    BandsDisjoint(rs[Origin(bs, ls, j).0].0, x, q / 4, q % 4, j % 2, r / 4, r % 4, k % 2);
    SameQuarter(q, r);
    SamePosition(bs, ls, j, k);
  }

  lemma SameQuarter(q: nat, r: nat)
    requires q / 4 == r / 4 && q % 4 == r % 4
    ensures q == r
  {
  }

  lemma SamePosition(bs: seq<Block>, ls: seq<(nat, nat)>, j: nat, k: nat)
    requires |bs| == |ls| && (forall j, k | 0 <= j < k < |ls| :: ls[j] != ls[k])
    requires j < 2 * |Kept(bs)| && k < 2 * |Kept(bs)| && j % 2 == k % 2 && Origin(bs, ls, j) == Origin(bs, ls, k)
    ensures j == k
  {
    hide Kept, KeptAt;
    assert KeptAt(bs)[j / 2] == KeptAt(bs)[k / 2];
    if j / 2 < k / 2 {
      KeptIncreases(bs, j / 2, k / 2);
    } else if k / 2 < j / 2 {
      KeptIncreases(bs, k / 2, j / 2);
    }
  }

  /** A frequency that a range reports lies in a record of that range. */
  lemma ReportedIsPrinted(c: Config, rs: seq<(nat, nat)>, bs: seq<Block>, ls: seq<(nat, nat)>, r: nat, x: real)
    returns (k: nat)
    requires c.Valid() && Requests(rs) && HasLabels(rs, bs, ls) && WholeRanges(rs, ls) && ReportedIn(rs, r, x)
    ensures k < |Printed(c, Kept(bs))| && Covers(Printed(c, Kept(bs))[k], x) && Origin(bs, ls, k).0 == r
  {
    hide Hz, RecordsOf, Covers, Kept, Printed, HasHeader, StepsOf;
    var lo := rs[r].0;
    var s: nat, p: nat, h: nat :| s < StepsOf(rs, r) && p < 2 && h < 2 && InBand(lo, s, p, h, x);
    var q := 4 * s + p;
    assert q / 4 == s && q % 4 == p;
    var m :| 0 <= m < |ls| && ls[m] == (r, q) by { assert InSchedule(StepsOf(rs, r), q); }
    assert HasLabel(rs, bs[m], ls[m]);
    assert BelowCap(bs[m]) by { assert Hz(bs[m]) == SubStep(lo, s, p) * FREQ_ONE_MHZ; }
    var i := KeptIndex(bs, m);
    k := 2 * i + h;
    assert k / 2 == i && k % 2 == h && |Printed(c, Kept(bs))| == 2 * |KeptAt(bs)|;
    RecordBand(c, rs, bs, ls, k, x);
  }

  // ----- what a run prints

  /** A run in text mode that does not stop prints the records of the blocks the cap lets through. */
  lemma {:induction false} RunPrints(c: Config, st: State, bs: seq<Block>)
    requires c.Valid() && c.mode == Text && !FlatRun(c, st, bs).doExit
    requires forall k | 0 <= k < |bs| :: HasHeader(bs[k])
    requires bs != [] ==> st.started || IsStart(c, bs[0])
    ensures FlatRun(c, st, bs).records == st.records + Printed(c, Kept(bs))
    ensures bs != [] ==> FlatRun(c, st, bs).started
  {
    hide RecordsOf, Hz, BelowCap;
    if bs == [] {
      assert st.records + Printed(c, Kept(bs)) == st.records;
    } else {
      var n := |bs| - 1;
      RunPrints(c, st, bs[..n]);
      LastPrinted(c, st.records, bs);
    }
  }

  lemma LastPrinted(c: Config, before: seq<Record>, bs: seq<Block>)
    requires c.Valid() && bs != []
    ensures var b, front := bs[|bs| - 1], before + Printed(c, Kept(bs[..|bs| - 1]));
      before + Printed(c, Kept(bs)) == if BelowCap(b) then front + RecordsOf(c, b) else front
  {
    hide RecordsOf, BelowCap, Printed;
    var b, kept := bs[|bs| - 1], Kept(bs[..|bs| - 1]);
    if BelowCap(b) {
      PrintedLast(c, kept, b);
      Appended(before, Printed(c, kept), RecordsOf(c, b));
    } else {
      assert Kept(bs) == kept;
    }
  }

  lemma PrintedLast(c: Config, bs: seq<Block>, b: Block)
    requires c.Valid()
    ensures Printed(c, bs + [b]) == Printed(c, bs) + RecordsOf(c, b)
  {
    hide RecordsOf;
    assert (bs + [b])[..|bs|] == bs;
  }

  lemma Appended(a: seq<Record>, b: seq<Record>, d: seq<Record>)
    ensures a + (b + d) == a + b + d
  {
  }

  /** Whatever the grouping, a run in text mode prints the records of its picked blocks, in their order. */
  lemma EventsPrint(c: Config, cells: seq<Cell>, es: seq<Event>)
    requires c.Valid() && c.mode == Text
    ensures RunEvents(c, Fresh(cells), es).records == Printed(c, Picked(c, Stream(es)))
  {
    hide EmitAll, Picked, FlatRun, RunEvents, Starts, MayContinue, FramesOf, LateStarts, Stream, Printed;
    StreamRefinement(c, cells, es);
    EmitsPrinted(c, Fresh(cells), Picked(c, Stream(es)));
    assert [] + Printed(c, Picked(c, Stream(es))) == Printed(c, Picked(c, Stream(es)));
  }

  /** Two different ranges report x. */
  ghost predicate ReportedTwice(rs: seq<(nat, nat)>, x: real)
    requires Requests(rs)
  {
    exists r: nat, s: nat :: r < s && ReportedIn(rs, r, x) && ReportedIn(rs, s, x)
  }

  predicate CoveredTwice(printed: seq<Record>, x: real) {
    exists j, k :: 0 <= j < k < |printed| && Covers(printed[j], x) && Covers(printed[k], x)
  }

  /**
   * The records printed while a run sweeps its ranges once: they cover a frequency exactly when a range reports
   * it, as they do for all of the requested ranges; and they cover it twice exactly when two ranges report it.
   */
  lemma RangeRecordsCover(c: Config, st: State, rs: seq<(nat, nat)>, bs: seq<Block>, ls: seq<(nat, nat)>, x: real)
    requires c.Valid() && c.mode == Text && !FlatRun(c, st, bs).doExit
    requires Requests(rs) && HasLabels(rs, bs, ls) && WholeRanges(rs, ls)
    requires bs != [] ==> st.started || IsStart(c, bs[0])
    ensures st.records <= FlatRun(c, st, bs).records
    ensures var printed := FlatRun(c, st, bs).records[|st.records|..];
      && |printed| == 2 * |Kept(bs)|
      && ((exists k :: 0 <= k < |printed| && Covers(printed[k], x)) <==> exists r :: ReportedIn(rs, r, x))
      && (CoveredTwice(printed, x) <==> ReportedTwice(rs, x))
    ensures forall r | 0 <= r < |rs| && rs[r].0 as real <= x < rs[r].1 as real :: ReportedIn(rs, r, x)
  {
    hide Hz, RecordsOf, Covers, Kept, Printed, FlatRun, HasLabel, WholeRanges, ReportedIn, CoveredTwice, ReportedTwice;
    assert forall k | 0 <= k < |bs| :: HasHeader(bs[k]) by { AllHeaders(rs, bs, ls); }
    RunPrints(c, st, bs);
    var printed := Printed(c, Kept(bs));
    assert FlatRun(c, st, bs).records[|st.records|..] == printed;
    OnceIff(c, rs, bs, ls, x);
    TwiceIff(c, rs, bs, ls, x);
    forall r | 0 <= r < |rs| && rs[r].0 as real <= x < rs[r].1 as real ensures ReportedIn(rs, r, x) {
      RequestReported(rs, r, x);
    }
  }

  lemma AllHeaders(rs: seq<(nat, nat)>, bs: seq<Block>, ls: seq<(nat, nat)>)
    requires Requests(rs) && HasLabels(rs, bs, ls)
    ensures forall k | 0 <= k < |bs| :: HasHeader(bs[k])
  {
    forall k | 0 <= k < |bs| ensures HasHeader(bs[k]) {
      assert HasLabel(rs, bs[k], ls[k]);
    }
  }

  lemma RequestReported(rs: seq<(nat, nat)>, r: nat, x: real)
    requires Requests(rs) && r < |rs| && rs[r].0 as real <= x < rs[r].1 as real
    ensures ReportedIn(rs, r, x)
  {
    hide Reported, Steps;
    SweepCovers(rs[r].0, rs[r].1);
  }

  lemma OnceIff(c: Config, rs: seq<(nat, nat)>, bs: seq<Block>, ls: seq<(nat, nat)>, x: real)
    requires c.Valid() && Requests(rs) && HasLabels(rs, bs, ls) && WholeRanges(rs, ls)
    ensures var printed := Printed(c, Kept(bs));
      (exists k :: 0 <= k < |printed| && Covers(printed[k], x)) <==> exists r :: ReportedIn(rs, r, x)
  {
    hide Covers, Kept, Printed, HasLabels, WholeRanges, ReportedIn;
    var printed := Printed(c, Kept(bs));
    if k :| 0 <= k < |printed| && Covers(printed[k], x) { PrintedIsReported(c, rs, bs, ls, k, x); }
    if r :| ReportedIn(rs, r, x) { var k := ReportedIsPrinted(c, rs, bs, ls, r, x); }
  }

  lemma TwiceIff(c: Config, rs: seq<(nat, nat)>, bs: seq<Block>, ls: seq<(nat, nat)>, x: real)
    requires c.Valid() && Requests(rs) && HasLabels(rs, bs, ls) && WholeRanges(rs, ls)
    ensures CoveredTwice(Printed(c, Kept(bs)), x) <==> ReportedTwice(rs, x)
  {
    hide Covers, Kept, Printed, HasLabel, WholeRanges, ReportedIn, Origin;
    var printed := Printed(c, Kept(bs));
    if CoveredTwice(printed, x) {
      var j, k :| 0 <= j < k < |printed| && Covers(printed[j], x) && Covers(printed[k], x);
      PrintedIsReported(c, rs, bs, ls, j, x);
      PrintedIsReported(c, rs, bs, ls, k, x);
      if Origin(bs, ls, j).0 == Origin(bs, ls, k).0 {
        RangeDisjoint(c, rs, bs, ls, j, k, x);
        assert false;
      }
    }
    if ReportedTwice(rs, x) {
      var r: nat, s: nat :| r < s && ReportedIn(rs, r, x) && ReportedIn(rs, s, x);
      var j := ReportedIsPrinted(c, rs, bs, ls, r, x);
      var k := ReportedIsPrinted(c, rs, bs, ls, s, x);
      assert j != k && (j < k || k < j);
    }
  }

  /** Requests that lie apart can be reported twice, because planning rounds them up to whole steps. */
  lemma PlannedRangesOverlap()
    ensures var rs := [(0, 1), (10, 11)]; Requests(rs) && ReportedTwice(rs, 12.0)
  {
    var rs := [(0, 1), (10, 11)];
    assert Requests(rs) && StepsOf(rs, 0) == 1 && StepsOf(rs, 1) == 1;
    assert InBand(0, 0, 0, 1, 12.0) && InBand(10, 0, 0, 0, 12.0);
    assert Reported(0, 1, 12.0) && Reported(10, 1, 12.0);
    assert ReportedIn(rs, 0, 12.0) && ReportedIn(rs, 1, 12.0);
  }

  // ----- one range

  /**
   * The records printed while a whole sweep over the steps planned for [lo, hi) runs: a frequency lies in one
   * of them, and then in only one, exactly when the sweep reports it; this is so for all of [lo, hi).
   */
  lemma SweepRecordsCover(c: Config, st: State, bs: seq<Block>, qs: seq<nat>, lo: nat, hi: nat, x: real)
    requires c.Valid() && c.mode == Text && !st.doExit && !Begin(c, st).doExit
    requires Labelled(c, bs, qs) && WholeSchedule(c, qs) && bs != [] && qs[0] == 0
    requires lo < hi <= 7250 && c.startMhz == lo && c.steps == Steps(lo, hi)
    ensures st.records <= FlatRun(c, st, bs).records
    ensures var printed := FlatRun(c, st, bs).records[|st.records|..];
      && |printed| == 2 * |Kept(bs)|
      && ((exists k :: 0 <= k < |printed| && Covers(printed[k], x)) <==> Reported(lo, c.steps, x))
      && (lo as real <= x < hi as real ==> Reported(lo, c.steps, x))
      && !CoveredTwice(printed, x)
  {
    hide Hz, RecordsOf, Covers, Steps, Kept, Printed, FlatRun, Labelled, WholeSchedule, Reported, HasLabels;
    hide WholeRanges, CoveredTwice;
    var rs, ls := [(lo, hi)], seq(|qs|, k requires 0 <= k < |qs| => (0, qs[k]));
    OneRange(c, bs, qs, rs, ls);
    SweepRun(c, st, bs, qs);
    OneStart(c, bs, qs);
    RangeRecordsCover(c, st, rs, bs, ls, x);
    assert ReportedIn(rs, 0, x) <==> Reported(lo, c.steps, x);
  }

  /** A single range, labelled as before. */
  lemma OneRange(c: Config, bs: seq<Block>, qs: seq<nat>, rs: seq<(nat, nat)>, ls: seq<(nat, nat)>)
    requires c.Valid() && Labelled(c, bs, qs) && WholeSchedule(c, qs)
    requires Requests(rs) && |rs| == 1 && rs[0].0 == c.startMhz && StepsOf(rs, 0) == c.steps
    requires |ls| == |qs| && forall k | 0 <= k < |qs| :: ls[k] == (0, qs[k])
    ensures HasLabels(rs, bs, ls) && WholeRanges(rs, ls)
  {
    hide Hz, HasHeader, StepsOf;
    forall r: nat, q: nat | r < |rs| && InSchedule(StepsOf(rs, r), q) ensures (r, q) in ls {
      var k :| 0 <= k < |qs| && qs[k] == q;
      assert ls[k] == (0, q);
    }
  }
}
