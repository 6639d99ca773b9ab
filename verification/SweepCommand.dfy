/** `hackrf_init_sweep`: the vendor request that starts a sweep, and the layout a device reads it by. */
module SweepCommand {
  import opened Constants
  import opened Types
  import opened Words

  const INTERLEAVED := 1

  /** What the caller asks for; `frequencies` lists start/stop pairs in MHz. */
  datatype Command = Command(stepWidth: nat, offset: nat, style: nat, frequencies: seq<nat>, numBytes: nat)

  /** What goes over the wire. */
  datatype Request = Request(wValue: nat, wIndex: nat, data: seq<Byte>)

  /** The widths of the arguments. */
  predicate Fits(c: Command) {
    && c.stepWidth < TWO_32 && c.offset < TWO_32 && c.numBytes < TWO_32
    && forall i | 0 <= i < |c.frequencies| :: c.frequencies[i] < TWO_16
  }

  /** The commands the library does not refuse. */
  predicate Accepted(c: Command) {
    && |c.frequencies| % 2 == 0 && 1 <= |c.frequencies| / 2 <= 10
    && c.numBytes % 16384 == 0 && 16384 <= c.numBytes
    && 1 <= c.stepWidth && c.style <= 1
  }

  function EncodeList(f: seq<nat>): (s: seq<Byte>)
    ensures |s| == 2 * |f|
  {
    if f == [] then [] else EncodeList(f[..|f| - 1]) + LittleEndian(f[|f| - 1], 2)
  }

  function DecodeList(s: seq<Byte>): (f: seq<nat>)
    requires |s| % 2 == 0
    ensures |f| == |s| / 2
    ensures forall i | 0 <= i < |f| :: f[i] < TWO_16
  {
    if s == [] then []
    else
      var n := |s| - 2;
      TwoBytes(s[n..]);
      DecodeList(s[..n]) + [FromLittleEndian(s[n..])]
  }

  function Encode(c: Command): Request
    requires Fits(c) && Accepted(c)
  {
    Request(c.numBytes % TWO_16, c.numBytes / TWO_16,
            LittleEndian(c.stepWidth, 4) + LittleEndian(c.offset, 4) + [c.style] + EncodeList(c.frequencies))
  }

  /** The layout read back: two words, the style byte, then 16-bit frequencies; the length counts them. */
  function Decode(r: Request): Option<Command>
    requires r.wValue < TWO_16 && r.wIndex < TWO_16
  {
    if |r.data| < 9 || |r.data| % 2 == 0 then None
    else
      var c := Command(FromLittleEndian(r.data[..4]), FromLittleEndian(r.data[4..8]), r.data[8],
                       DecodeList(r.data[9..]), r.wIndex * TWO_16 + r.wValue);
      if Accepted(c) then Some(c) else None
  }

  /** `frequencyList` may be longer than the ranges in use; `sent` is what the control transfer returns. */
  method InitSweep(usbVersion: nat, frequencyList: seq<nat>, numRanges: int, numBytes: nat, stepWidth: nat,
                   offset: nat, style: nat, sent: int) returns (status: Code, request: Option<Request>)
    requires 0 <= numRanges <= 10 ==> 2 * numRanges <= |frequencyList|
    requires Fits(Command(stepWidth, offset, style, frequencyList, numBytes))
    ensures
      var accepted := 0x0102 <= usbVersion && 1 <= numRanges <= 10
        && Accepted(Command(stepWidth, offset, style, frequencyList[..2 * numRanges], numBytes));
      && (request.Some? <==> accepted)
      && (accepted ==>
            && request.value == Encode(Command(stepWidth, offset, style, frequencyList[..2 * numRanges], numBytes))
            && status == if sent < 9 + 4 * numRanges then LibusbError else Success)
      && (!accepted ==> status == if usbVersion < 0x0102 then UsbApiVersion else InvalidParam)
  {
    hide LittleEndian, FromLittleEndian, EncodeList, DecodeList, Pow2;
    request := None;
    if usbVersion < 0x0102 {
      return UsbApiVersion, None;
    }
    var data := new Byte[9 + MAX_SWEEP_RANGES * 2 * 2];
    var size := 9 + numRanges * 2 * 2;
    if numRanges < 1 || MAX_SWEEP_RANGES < numRanges {
      return InvalidParam, None;
    }
    if numBytes % BYTES_PER_BLOCK != 0 {
      return InvalidParam, None;
    }
    if BYTES_PER_BLOCK > numBytes {
      return InvalidParam, None;
    }
    if 1 > stepWidth {
      return InvalidParam, None;
    }
    if INTERLEAVED < style {
      return InvalidParam, None;
    }

    PackData(data, stepWidth, offset, style, frequencyList[..numRanges * 2]);
    request := Some(Request(numBytes % TWO_16, numBytes / TWO_16 % TWO_16, data[..size]));
    status := if sent < size then LibusbError else Success;
  }

  /** The byte layout, filled in place: header first, then one frequency after the other. */
  method PackData(data: array<Byte>, stepWidth: nat, offset: nat, style: Byte, list: seq<nat>)
    requires 9 + 2 * |list| <= data.Length
    modifies data
    ensures data[..9 + 2 * |list|]
         == LittleEndian(stepWidth, 4) + LittleEndian(offset, 4) + [style] + EncodeList(list)
  {
    hide LittleEndian, EncodeList;
    PackHeader(data, stepWidth, offset, style);
    ghost var head := LittleEndian(stepWidth, 4) + LittleEndian(offset, 4) + [style];
    EmptyList(list);

    var i := 0;
    while i < |list|
      invariant 0 <= i <= |list|
      invariant data[..9 + 2 * i] == head + EncodeList(list[..i])
    {
      ghost var before := data[..9 + 2 * i];
      assert before == head + EncodeList(list[..i]);
      data[9 + i * 2] := list[i] % TWO_8;
      data[10 + i * 2] := list[i] / 0x100 % TWO_8;
      NextFrequency(list, i);
      assert data[..9 + 2 * (i + 1)] == before + LittleEndian(list[i], 2);
      assert before + LittleEndian(list[i], 2) == head + EncodeList(list[..i + 1]);
      i := i + 1;
    }
    assert list[..i] == list;
  }

  method PackHeader(data: array<Byte>, stepWidth: nat, offset: nat, style: Byte)
    requires 9 <= data.Length
    modifies data
    ensures data[..9] == LittleEndian(stepWidth, 4) + LittleEndian(offset, 4) + [style]
  {
    hide LittleEndian;
    FourBytesOf(stepWidth);
    FourBytesOf(offset);
    data[0] := stepWidth % TWO_8;
    data[1] := stepWidth / 0x100 % TWO_8;
    data[2] := stepWidth / 0x1_0000 % TWO_8;
    data[3] := stepWidth / 0x100_0000 % TWO_8;
    data[4] := offset % TWO_8;
    data[5] := offset / 0x100 % TWO_8;
    data[6] := offset / 0x1_0000 % TWO_8;
    data[7] := offset / 0x100_0000 % TWO_8;
    data[8] := style;
  }

  lemma EmptyList(f: seq<nat>)
    ensures EncodeList(f[..0]) == []
  {
  }

  lemma NextFrequency(f: seq<nat>, i: nat)
    requires i < |f|
    ensures EncodeList(f[..i + 1]) == EncodeList(f[..i]) + LittleEndian(f[i], 2)
    ensures LittleEndian(f[i], 2) == [f[i] % TWO_8, f[i] / TWO_8 % TWO_8]
  {
    assert f[..i + 1][..i] == f[..i];
    var h := f[i] / TWO_8;
    assert LittleEndian(h, 1) == [h % TWO_8] + LittleEndian(h / TWO_8, 0);
    assert LittleEndian(f[i], 2) == [f[i] % TWO_8] + LittleEndian(h, 1);
  }

  lemma FourBytesOf(x: nat)
    ensures LittleEndian(x, 4)
         == [x % TWO_8, x / 0x100 % TWO_8, x / 0x1_0000 % TWO_8, x / 0x100_0000 % TWO_8]
  {
    var x1 := x / TWO_8;
    var x2 := x1 / TWO_8;
    var x3 := x2 / TWO_8;
    assert x2 == x / 0x1_0000 && x3 == x / 0x100_0000;
    assert LittleEndian(x3, 1) == [x3 % TWO_8] + LittleEndian(x3 / TWO_8, 0);
    assert LittleEndian(x2, 2) == [x2 % TWO_8] + LittleEndian(x3, 1);
    assert LittleEndian(x1, 3) == [x1 % TWO_8] + LittleEndian(x2, 2);
    assert LittleEndian(x, 4) == [x % TWO_8] + LittleEndian(x1, 3);
  }

  lemma WordSizes()
    ensures Pow2(16) == TWO_16 && Pow2(32) == TWO_32
  {
    assert Pow2(8) == TWO_8;
    Pow2Adds(8, 8);
    Pow2Adds(16, 16);
  }

  lemma TwoBytes(s: seq<Byte>)
    requires |s| == 2
    ensures FromLittleEndian(s) < TWO_16
  {
    FromLittleEndianBound(s);
    WordSizes();
  }

  // ----- the round trips

  lemma {:induction false} ListRoundTrip(f: seq<nat>)
    requires forall i | 0 <= i < |f| :: f[i] < TWO_16
    ensures DecodeList(EncodeList(f)) == f
  {
    if f != [] {
      var n := |f| - 1;
      var s := EncodeList(f);
      ListRoundTrip(f[..n]);
      assert s[..2 * n] == EncodeList(f[..n]) && s[2 * n..] == LittleEndian(f[n], 2);
      WordSizes();
      LittleEndianRoundTrip(f[n], 2);
      assert f == f[..n] + [f[n]];
    }
  }

  lemma {:induction false} BytesRoundTrip(s: seq<Byte>)
    requires |s| % 2 == 0
    ensures EncodeList(DecodeList(s)) == s
  {
    if s != [] {
      var n := |s| - 2;
      var f := DecodeList(s);
      BytesRoundTrip(s[..n]);
      assert f[..|f| - 1] == DecodeList(s[..n]);
      LittleEndianOfBytes(s[n..]);
      assert s == s[..n] + s[n..];
    }
  }

  /** The layout recovers every field of every accepted command. */
  lemma DecodeOfEncode(c: Command)
    requires Fits(c) && Accepted(c)
    ensures Decode(Encode(c)) == Some(c)
  {
    hide LittleEndian, FromLittleEndian, EncodeList, DecodeList, Pow2;
    var d := Encode(c).data;
    WordSizes();
    LittleEndianRoundTrip(c.stepWidth, 4);
    LittleEndianRoundTrip(c.offset, 4);
    ListRoundTrip(c.frequencies);
    assert d[..4] == LittleEndian(c.stepWidth, 4);
    assert d[4..8] == LittleEndian(c.offset, 4);
    assert d[9..] == EncodeList(c.frequencies);
  }

  /** Every request the layout accepts is the encoding of the command it stands for. */
  lemma EncodeOfDecode(r: Request)
    requires r.wValue < TWO_16 && r.wIndex < TWO_16 && Decode(r).Some?
    ensures Fits(Decode(r).value) && Encode(Decode(r).value) == r
  {
    hide LittleEndian, FromLittleEndian, EncodeList, DecodeList, Pow2;
    var d := r.data;
    WordSizes();
    LittleEndianOfBytes(d[..4]);
    LittleEndianOfBytes(d[4..8]);
    FromLittleEndianBound(d[..4]);
    FromLittleEndianBound(d[4..8]);
    BytesRoundTrip(d[9..]);
    FourParts(d);
    SplitWord(r.wIndex, r.wValue);
  }

  lemma FourParts(d: seq<Byte>)
    requires 9 <= |d|
    ensures d == d[..4] + d[4..8] + [d[8]] + d[9..]
  {
  }

  lemma SplitWord(hi: nat, lo: nat)
    requires lo < TWO_16
    ensures (hi * TWO_16 + lo) % TWO_16 == lo && (hi * TWO_16 + lo) / TWO_16 == hi
  {
    QuotRem(hi * TWO_16 + lo, TWO_16, hi, lo);
  }

  /** The request for one range from 100 to 200 MHz, as `hackrf_sweep` makes it with its defaults. */
  lemma RequestOnTheWire()
    ensures var c := Command(20_000_000, 7_500_000, 1, [100, 200], 16384);
      && Fits(c) && Accepted(c)
      && Encode(c) == Request(0x4000, 0, [0x00, 0x2D, 0x31, 0x01, 0xE0, 0x70, 0x72, 0x00, 0x01, 0x64, 0x00, 0xC8, 0x00])
  {
    hide LittleEndian, EncodeList;
    HeaderOnTheWire();
    ListOnTheWire([100, 200]);
  }

  lemma HeaderOnTheWire()
    ensures LittleEndian(20_000_000, 4) == [0x00, 0x2D, 0x31, 0x01]
    ensures LittleEndian(7_500_000, 4) == [0xE0, 0x70, 0x72, 0x00]
  {
    hide LittleEndian;
    FourBytesOf(20_000_000);
    FourBytesOf(7_500_000);
  }

  lemma ListOnTheWire(f: seq<nat>)
    requires f == [100, 200]
    ensures EncodeList(f) == [0x64, 0x00, 0xC8, 0x00]
  {
    hide LittleEndian, EncodeList;
    NextFrequency(f, 0);
    NextFrequency(f, 1);
    EmptyList(f);
    assert f[..2] == f;
  }

  /** Two different accepted commands are never sent as the same request. */
  lemma EncodeInjective(c: Command, d: Command)
    requires Fits(c) && Accepted(c) && Fits(d) && Accepted(d) && Encode(c) == Encode(d)
    ensures c == d
  {
    DecodeOfEncode(c);
    DecodeOfEncode(d);
  }
}
