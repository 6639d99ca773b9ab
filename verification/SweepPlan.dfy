/** The configuration part of `hackrf_sweep`: ranges, FFT size, and the sweep command they end in. */
module SweepPlan {
  import opened Constants
  import opened Words
  import opened SweepGeometry
  import opened SweepCommand
  import RxStream

  const SAMPLES_PER_BLOCK := 8192

  /** The high end of a range once it is planned as whole tuning steps. */
  function PlannedHigh(lo: nat, hi: nat): nat
    requires lo < hi
  {
    lo + Steps(lo, hi) * TUNE_STEP
  }

  /** The range [lo, hi) of the list: as requested, or already planned. */
  predicate RangeOf(lo: nat, hi: nat, request: (nat, nat)) {
    && request.0 < request.1 <= 7250
    && lo == request.0 && (hi == request.1 || hi == PlannedHigh(request.0, request.1))
  }

  /** A planned range is a fixed point, covers its request with the fewest steps, and fits 16 bits. */
  lemma PlannedRange(lo: nat, hi: nat, request: (nat, nat))
    requires RangeOf(lo, hi, request)
    ensures lo < hi && PlannedHigh(lo, hi) == PlannedHigh(request.0, request.1)
    ensures request.1 <= PlannedHigh(lo, hi) < request.1 + TUNE_STEP && PlannedHigh(lo, hi) < TWO_16
    ensures forall s: nat :: request.1 <= lo + s * TUNE_STEP <==> Steps(lo, hi) <= s
  {
  }

  lemma PlanStep(lo: nat, hi: nat, request: (nat, nat))
    requires RangeOf(lo, hi, request)
    ensures request.0 < request.1 && lo == request.0 && lo < hi
    ensures var steps := 1 + (hi - lo - 1) / TUNE_STEP;
      && steps == Steps(request.0, request.1)
      && (lo + steps * TUNE_STEP) % TWO_16 == PlannedHigh(request.0, request.1)
    ensures RangeOf(lo, PlannedHigh(request.0, request.1), request)
  {
  }

  // ----- the FFT size

  /** The least odd multiple of four that is not below n. */
  function Rounded(n: nat): (r: nat)
    ensures IsFftSize(r) && n <= r < n + 8
    ensures forall k | n <= k < r :: !IsFftSize(k)
  {
    n + (12 - n % 8) % 8
  }

  /** Where the sample window of a block starts. */
  function WindowStart(n: nat): int { BYTES_PER_BLOCK - 2 * n }

  /**
   * The guards let sizes up to 8184 through, but the window keeps clear of the ten header bytes exactly up to
   * 8180; the last four sizes round to 8188, which starts at byte 8 and which the guards refuse next time.
   */
  lemma WindowClearsHeader(n: nat)
    requires 4 <= n <= 8184
    ensures 10 <= WindowStart(Rounded(n)) <==> n <= 8180
    ensures Rounded(n) <= 8184 <==> n <= 8180
    ensures 8180 < n ==> Rounded(n) == 8188 && WindowStart(8188) == 8
    ensures Rounded(Rounded(n)) == Rounded(n)
  {
  }

  datatype Outcome = Refused | StartFailed | Requested(command: Command)

  class SweepState {
    var frequencies: array<nat>
    var numRanges: nat
    var fftSize: nat
    var stepCount: nat
    var numSamples: nat
    var amp: bool
    var ampEnable: nat
    var antenna: bool
    var antennaEnable: nat
    var binaryOutput: bool
    var ifftOutput: bool
    /** The ranges asked for so far. */
    ghost var requests: seq<(nat, nat)>

    ghost predicate Valid()
      reads this, frequencies
    {
      && frequencies.Length == 2 * MAX_SWEEP_RANGES
      && numRanges == |requests| <= MAX_SWEEP_RANGES
      && numSamples < TWO_32
      && forall i | 0 <= i < numRanges :: RangeOf(frequencies[2 * i], frequencies[2 * i + 1], requests[i])
    }

    constructor ()
      ensures Valid() && requests == [] && fftSize == 20 && numSamples == SAMPLES_PER_BLOCK
      ensures fresh(frequencies) && !amp && !antenna && !binaryOutput && !ifftOutput
    {
      frequencies := new nat[2 * MAX_SWEEP_RANGES](_ => 0);
      numRanges, fftSize, stepCount, numSamples := 0, 20, 0, SAMPLES_PER_BLOCK;
      amp, ampEnable, antenna, antennaEnable := false, 0, false, 0;
      binaryOutput, ifftOutput := false, false;
      requests := [];
    }

    /** `started` is whether the gain settings and `hackrf_start_rx` succeed. */
    method HackrfSweep(freqMin: nat, freqMax: nat, started: bool) returns (out: Outcome)
      requires Valid() && freqMin < TWO_32 && freqMax < TWO_32
      modifies this`numRanges, this`requests, this`fftSize, this`stepCount, frequencies
      ensures Valid() && frequencies == old(frequencies)
      ensures requests == if old(numRanges) < 10 && freqMin < freqMax <= 7250
                          then old(requests) + [(freqMin, freqMax)] else old(requests)
      ensures out.Refused? <==>
        || |requests| == |old(requests)|
        || numSamples % 8192 != 0 || numSamples < 8192
        || (amp && ampEnable > 1) || (antenna && antennaEnable > 1)
        || (binaryOutput && ifftOutput) || (ifftOutput && 1 < |requests|)
        || old(fftSize) < 4 || 8184 < old(fftSize)
      ensures fftSize == if out.Refused? then old(fftSize) else Rounded(old(fftSize))
      ensures stepCount == if out.Refused? then old(stepCount)
                           else Steps(requests[|requests| - 1].0, requests[|requests| - 1].1)
      ensures !out.Refused? ==> forall i | 0 <= i < |requests| ::
        frequencies[2 * i] == requests[i].0 && frequencies[2 * i + 1] == PlannedHigh(requests[i].0, requests[i].1)
      ensures out.Requested? ==> started && IsSweepOf(out.command, requests, numSamples)
      ensures out.StartFailed? ==> !started
    {
      hide RangeOf, PlannedHigh, Steps, Rounded;
      var added := AddRange(freqMin, freqMax);
      if !added {
        return Refused;
      }
      var accepted := CheckSettings();
      if !accepted {
        return Refused;
      }
      RoundFftSize();
      PlanRanges();
      if !started {
        return StartFailed;
      }
      out := Requested(Command(TUNE_STEP * FREQ_ONE_MHZ, OFFSET_HZ, INTERLEAVED,
                               frequencies[..2 * numRanges], numSamples * 2 % TWO_32));
    }

    /** The guards between the range and the plan. */
    method CheckSettings() returns (accepted: bool)
      ensures accepted <==>
        && numSamples % 8192 == 0 && 8192 <= numSamples
        && (amp ==> ampEnable <= 1) && (antenna ==> antennaEnable <= 1)
        && !(binaryOutput && ifftOutput) && !(ifftOutput && 1 < numRanges)
        && 4 <= fftSize <= 8184
    {
      if numSamples % SAMPLES_PER_BLOCK != 0 {
        return false;
      }
      if numSamples < SAMPLES_PER_BLOCK {
        return false;
      }
      if amp {
        if ampEnable > 1 {
          return false;
        }
      }
      if antenna {
        if antennaEnable > 1 {
          return false;
        }
      }
      if binaryOutput && ifftOutput {
        return false;
      }
      if ifftOutput && 1 < numRanges {
        return false;
      }
      if 4 > fftSize {
        return false;
      }
      if 8184 < fftSize {
        return false;
      }
      return true;
    }

    method AddRange(freqMin: nat, freqMax: nat) returns (added: bool)
      requires Valid()
      modifies this`numRanges, this`requests, frequencies
      ensures Valid()
      ensures added <==> old(numRanges) < 10 && freqMin < freqMax <= 7250
      ensures requests == if added then old(requests) + [(freqMin, freqMax)] else old(requests)
    {
      hide PlannedHigh, Steps;
      if MAX_SWEEP_RANGES <= numRanges {
        return false;
      }
      if freqMin >= freqMax {
        return false;
      }
      if FREQ_MAX_MHZ < freqMax {
        return false;
      }
      frequencies[2 * numRanges] := freqMin % TWO_16;
      frequencies[2 * numRanges + 1] := freqMax % TWO_16;
      numRanges := numRanges + 1;
      requests := requests + [(freqMin, freqMax)];
      added := true;
    }

    method RoundFftSize()
      modifies this`fftSize
      ensures fftSize == Rounded(old(fftSize))
    {
      while (fftSize + 4) % 8 != 0
        invariant old(fftSize) <= fftSize && Rounded(fftSize) == Rounded(old(fftSize))
        decreases Rounded(old(fftSize)) - fftSize
      {
        fftSize := fftSize + 1;
      }
    }

    /** For each range, a whole number of tuning steps; the high end grows where it has to. */
    method PlanRanges()
      requires Valid() && 1 <= numRanges
      modifies frequencies, this`stepCount
      ensures Valid()
      ensures forall i | 0 <= i < numRanges :: requests[i].0 < requests[i].1 <= 7250
      ensures forall i | 0 <= i < numRanges ::
        frequencies[2 * i] == requests[i].0 && frequencies[2 * i + 1] == PlannedHigh(requests[i].0, requests[i].1)
      ensures stepCount == Steps(requests[numRanges - 1].0, requests[numRanges - 1].1)
    {
      hide PlannedHigh, Steps;
      for i := 0 to numRanges
        invariant Valid()
        invariant forall k | 0 <= k < i ::
          frequencies[2 * k] == requests[k].0 && frequencies[2 * k + 1] == PlannedHigh(requests[k].0, requests[k].1)
        invariant 0 < i ==> stepCount == Steps(requests[i - 1].0, requests[i - 1].1)
      {
        var lo, hi := frequencies[2 * i], frequencies[2 * i + 1];
        PlanStep(lo, hi, requests[i]);
        stepCount := 1 + (hi - lo - 1) / TUNE_STEP;
        frequencies[2 * i + 1] := (lo + stepCount * TUNE_STEP) % TWO_16;
      }
    }
  }

  /** What an accepted call leaves behind is a configuration that `rx_callback` is proved for. */
  lemma ConfigIsValid(fftSize: nat, request: (nat, nat), mode: RxStream.Mode, oneShot: bool, finiteMode: bool,
                      numSweeps: nat)
    requires 4 <= fftSize <= 8184 && request.0 < request.1 <= 7250 && numSweeps < 0x1_0000_0000
    ensures RxStream.Config(Rounded(fftSize), Steps(request.0, request.1), request.0, mode,
                            oneShot, finiteMode, numSweeps).Valid()
  {
  }

  /** The command sweeps the planned form of every request, with num_samples doubled in 32 bits. */
  predicate IsSweepOf(c: Command, requests: seq<(nat, nat)>, numSamples: nat) {
    && c.stepWidth == 20_000_000 && c.offset == 7_500_000 && c.style == 1
    && c.numBytes == 2 * numSamples % TWO_32
    && |c.frequencies| == 2 * |requests|
    && forall i | 0 <= i < |requests| ::
      && requests[i].0 < requests[i].1 <= 7250
      && c.frequencies[2 * i] == requests[i].0
      && c.frequencies[2 * i + 1] == PlannedHigh(requests[i].0, requests[i].1)
  }

  /**
   * What `hackrf_sweep` asks for is refused by `hackrf_init_sweep` for exactly one sample count, 2^31, which
   * doubles to zero bytes; from there on the byte count is not the one meant.
   */
  lemma SweepIsAccepted(c: Command, requests: seq<(nat, nat)>, numSamples: nat)
    requires IsSweepOf(c, requests, numSamples) && 1 <= |requests| <= 10
    requires numSamples % SAMPLES_PER_BLOCK == 0 && SAMPLES_PER_BLOCK <= numSamples < TWO_32
    ensures Fits(c)
    ensures Accepted(c) <==> numSamples != 0x8000_0000
    ensures c.numBytes == 2 * numSamples <==> numSamples < 0x8000_0000
  {
    forall i | 0 <= i < |c.frequencies| ensures c.frequencies[i] < TWO_16 {
      var r := requests[i / 2];
      PlannedRange(r.0, r.1, r);
      assert i == 2 * (i / 2) || i == 2 * (i / 2) + 1;
    }
    var blocks := numSamples / SAMPLES_PER_BLOCK;
    assert 2 * numSamples == BYTES_PER_BLOCK * blocks;
    if numSamples < 0x8000_0000 {
      QuotRem(2 * numSamples, TWO_32, 0, 2 * numSamples);
      QuotRem(2 * numSamples, BYTES_PER_BLOCK, blocks, 0);
    } else {
      var rest := 2 * numSamples - TWO_32;
      QuotRem(2 * numSamples, TWO_32, 1, rest);
      QuotRem(rest, BYTES_PER_BLOCK, blocks - 0x4_0000, 0);
    }
  }
}
