/** `hackrf_set_freq`: a frequency in hertz as whole megahertz and the hertz below them. */
module SetFreq {
  import opened Constants
  import opened Words

  /** The two 32-bit words of a tuning request. */
  datatype TuneParams = TuneParams(freqMhz: nat, freqHz: nat)

  method SetFreq(freqHz: nat) returns (p: TuneParams)
    requires freqHz < TWO_64
    ensures p == SplitFreq(freqHz)
    ensures p.freqHz < FREQ_ONE_MHZ
    ensures p.freqMhz * FREQ_ONE_MHZ + p.freqHz == freqHz <==> freqHz < TWO_32 * FREQ_ONE_MHZ
  {
    var mhz := freqHz / FREQ_ONE_MHZ % TWO_32;
    FrequencySplit(freqHz);
    var hz := (freqHz - mhz * FREQ_ONE_MHZ) % TWO_32;
    p := TuneParams(mhz, hz);
  }

  function SplitFreq(freqHz: nat): TuneParams {
    var mhz := freqHz / FREQ_ONE_MHZ % TWO_32;
    TuneParams(mhz, (freqHz - mhz * FREQ_ONE_MHZ) % TWO_32)
  }

  /**
   * The hertz word is always below one megahertz, even where the megahertz word is cut to 32 bits; the two
   * words name the requested frequency exactly when nothing was cut.
   */
  lemma FrequencySplit(freqHz: nat)
    requires freqHz < TWO_64
    ensures var p := SplitFreq(freqHz);
      && p.freqMhz < TWO_32 && p.freqMhz * FREQ_ONE_MHZ <= freqHz
      && p.freqHz == freqHz % FREQ_ONE_MHZ
      && (p.freqMhz * FREQ_ONE_MHZ + p.freqHz == freqHz <==> freqHz < TWO_32 * FREQ_ONE_MHZ)
  {
  }
}
