/** The byte assembly of the counted responses: cell voltages and
    temperatures from reassembled chunks, balance states from one payload. */
module CellData {
  import opened Wrappers
  import opened ByteCodec

  /** Euclidean division is determined by quotient and remainder. */
  lemma DivModUnique(k: int, w: int, q: int, m: int)
    requires w > 0 && 0 <= m < w && k == w * q + m
    ensures k / w == q && k % w == m
  {
    var q', m' := k / w, k % w;
    assert k == w * q' + m';
    if q' < q {
      assert w * (q - q') >= w * 1 by {
        MulMonotone(w, 1, q - q');
      }
    } else if q' > q {
      assert w * (q' - q) >= w * 1 by {
        MulMonotone(w, 1, q' - q);
      }
    }
  }

  lemma MulMonotone(w: nat, a: int, b: int)
    requires a <= b
    ensures w * a <= w * b
  {
  }

  /** Byte `k` of `flat` is byte `k % w` of chunk `k / w`. */
  predicate FlatIndexed(flat: seq<byte>, chunks: seq<seq<byte>>, w: nat)
    requires w > 0
  {
    forall k | 0 <= k < |flat| ::
      k / w < |chunks| && k % w < |chunks[k / w]| && flat[k] == chunks[k / w][k % w]
  }

  /** `reduce([]) { $0 + $1[0..<w] }`: the first `w` bytes of every chunk,
      concatenated in order. */
  function Flatten(chunks: seq<seq<byte>>, w: nat): (r: seq<byte>)
    requires w > 0
    requires forall i | 0 <= i < |chunks| :: |chunks[i]| >= w
    ensures |r| == w * |chunks|
    ensures FlatIndexed(r, chunks, w)
  {
    if chunks == [] then []
    else
      var n := |chunks| - 1;
      var init := Flatten(chunks[..n], w);
      FlattenStep(chunks, w, init);
      init + chunks[n][..w]
  }

  /** Appending the next chunk's first `w` bytes keeps the indexing. */
  lemma FlattenStep(chunks: seq<seq<byte>>, w: nat, init: seq<byte>)
    requires w > 0 && chunks != []
    requires forall i | 0 <= i < |chunks| :: |chunks[i]| >= w
    requires |init| == w * (|chunks| - 1)
    requires FlatIndexed(init, chunks[..|chunks| - 1], w)
    ensures var r := init + chunks[|chunks| - 1][..w];
            |r| == w * |chunks| && FlatIndexed(r, chunks, w)
  {
    var n := |chunks| - 1;
    var r := init + chunks[n][..w];
    assert w * (n + 1) == w * n + w;
    forall k | 0 <= k < |r|
      ensures k / w < |chunks| && k % w < |chunks[k / w]| && r[k] == chunks[k / w][k % w]
    {
      if k < w * n {
        assert r[k] == init[k];
      } else {
        DivModUnique(k, w, n, k - w * n);
      }
    }
  }

  /** `reduce([], +)`: the chunks concatenated whole. */
  function Concat(chunks: seq<seq<byte>>): (r: seq<byte>)
    ensures chunks == [] ==> r == []
    ensures chunks != [] ==> chunks[0] <= r
    ensures forall i | 0 <= i < |chunks| :: |chunks[i]| <= |r|
    ensures chunks != [] ==> r[|r| - |chunks[|chunks| - 1]|..] == chunks[|chunks| - 1]
  {
    if chunks == [] then [] else Concat(chunks[..|chunks| - 1]) + chunks[|chunks| - 1]
  }

  /** Concatenating chunks that all have `w` bytes is flattening them. */
  lemma {:induction false} ConcatIsFlatten(chunks: seq<seq<byte>>, w: nat)
    requires w > 0
    requires forall i | 0 <= i < |chunks| :: |chunks[i]| == w
    ensures Concat(chunks) == Flatten(chunks, w)
  {
    if chunks != [] {
      var n := |chunks| - 1;
      ConcatIsFlatten(chunks[..n], w);
      assert chunks[n][..w] == chunks[n];
    }
  }

  /** `ConcatIsFlatten` for callers that cannot branch on its premise. */
  lemma UniformConcat(chunks: seq<seq<byte>>, w: nat)
    requires w > 0
    ensures (forall i | 0 <= i < |chunks| :: |chunks[i]| == w) ==> Concat(chunks) == Flatten(chunks, w)
  {
    if forall i | 0 <= i < |chunks| :: |chunks[i]| == w {
      ConcatIsFlatten(chunks, w);
    }
  }

  /** `prefix(n)`: at most the first `n` elements. */
  function Prefix<T>(s: seq<T>, n: nat): (r: seq<T>)
    ensures |r| == if |s| < n then |s| else n
    ensures r <= s
  {
    if |s| < n then s else s[..n]
  }

  /** The voltage decoding of `getCellVoltages`: bytes 0..5 of each chunk,
      two big-endian bytes per cell, in millivolts. Cell `i` lies in chunk
      `i / 3`, slot `i % 3`. Fails when the chunks hold fewer than `2 * n`
      bytes. */
  function CellVoltages(chunks: seq<seq<byte>>, cellCount: nat): (r: Result<seq<real>, DalyError>)
    requires forall i | 0 <= i < |chunks| :: |chunks[i]| >= 6
    ensures r.Success? <==> 6 * |chunks| >= 2 * cellCount
    ensures r.Failure? ==> r.error == IncompleteFrames
    ensures r.Success? ==>
              && |r.value| == cellCount
              && forall i | 0 <= i < cellCount ::
                   r.value[i] == Scaled(chunks[i / 3][2 * (i % 3)], chunks[i / 3][2 * (i % 3) + 1], 0.001)
  {
    var voltageData := Prefix(Flatten(chunks, 6), cellCount * 2);
    if |voltageData| != cellCount * 2 then Failure(IncompleteFrames)
    else
      VoltageSlots(chunks, cellCount, voltageData);
      Success(PairsToVoltages(voltageData, cellCount))
  }

  /** `Float(high:low:scale: 0.001)` of each consecutive byte pair. */
  function PairsToVoltages(data: seq<byte>, cellCount: nat): (v: seq<real>)
    requires |data| == 2 * cellCount
    ensures |v| == cellCount
    ensures forall i | 0 <= i < cellCount :: v[i] == Scaled(data[i * 2], data[i * 2 + 1], 0.001)
  {
    seq(cellCount, i requires 0 <= i < cellCount => Scaled(data[i * 2], data[i * 2 + 1], 0.001))
  }

  /** The two bytes of cell `i` sit in chunk `i / 3` at slots `2 * (i % 3)`
      and `2 * (i % 3) + 1`. */
  lemma VoltageSlots(chunks: seq<seq<byte>>, cellCount: nat, voltageData: seq<byte>)
    requires forall i | 0 <= i < |chunks| :: |chunks[i]| >= 6
    requires voltageData == Prefix(Flatten(chunks, 6), cellCount * 2)
    requires |voltageData| == cellCount * 2
    ensures forall i | 0 <= i < cellCount ::
              && i / 3 < |chunks|
              && voltageData[i * 2] == chunks[i / 3][2 * (i % 3)]
              && voltageData[i * 2 + 1] == chunks[i / 3][2 * (i % 3) + 1]
  {
    var flat := Flatten(chunks, 6);
    forall i | 0 <= i < cellCount
      ensures && i / 3 < |chunks|
              && voltageData[i * 2] == chunks[i / 3][2 * (i % 3)]
              && voltageData[i * 2 + 1] == chunks[i / 3][2 * (i % 3) + 1]
    {
      assert voltageData[i * 2] == flat[i * 2] && voltageData[i * 2 + 1] == flat[i * 2 + 1];
      assert (i * 2) / 6 == i / 3 && (i * 2) % 6 == 2 * (i % 3);
      assert (i * 2 + 1) / 6 == i / 3 && (i * 2 + 1) % 6 == 2 * (i % 3) + 1;
    }
  }

  /** The temperature decoding of `getCellTemperatures`, as intended: the
      seven data bytes of each chunk, one byte per sensor with offset 40.
      Sensor `i` lies in chunk `i / 7`, slot `i % 7`. */
  function CellTemperatures(chunks: seq<seq<byte>>, sensorCount: nat): (r: Result<seq<real>, DalyError>)
    requires forall i | 0 <= i < |chunks| :: |chunks[i]| >= 7
    ensures r.Success? <==> 7 * |chunks| >= sensorCount
    ensures r.Failure? ==> r.error == IncompleteFrames
    ensures r.Success? ==>
              && |r.value| == sensorCount
              && forall i | 0 <= i < sensorCount :: r.value[i] == OffsetByte(chunks[i / 7][i % 7], 40.0)
  {
    var data := Prefix(Flatten(chunks, 7), sensorCount);
    var temperatures := seq(|data|, i requires 0 <= i < |data| => OffsetByte(data[i], 40.0));
    if |temperatures| != sensorCount then Failure(IncompleteFrames)
    else Success(temperatures)
  }

  /** The temperature decoding as the source writes it: whole chunks are
      concatenated, so each chunk's trailing byte (the frame checksum that
      `extractFrame` leaves in the payload) is read as a temperature. With
      eight-byte chunks, sensor `i` lies in chunk `i / 8`, slot `i % 8`. */
  function CellTemperaturesAsWritten(chunks: seq<seq<byte>>, sensorCount: nat): (r: Result<seq<real>, DalyError>)
    ensures r.Success? <==> |Concat(chunks)| >= sensorCount
    ensures r.Failure? ==> r.error == IncompleteFrames
    ensures (forall i | 0 <= i < |chunks| :: |chunks[i]| == 8) && r.Success? ==>
              && sensorCount <= 8 * |chunks|
              && |r.value| == sensorCount
              && forall i | 0 <= i < sensorCount :: r.value[i] == OffsetByte(chunks[i / 8][i % 8], 40.0)
  {
    var data := Prefix(Concat(chunks), sensorCount);
    var temperatures := seq(|data|, i requires 0 <= i < |data| => OffsetByte(data[i], 40.0));
    UniformConcat(chunks, 8);
    if |temperatures| != sensorCount then Failure(IncompleteFrames)
    else Success(temperatures)
  }

  /** With eight-byte chunks and eight or more sensors, the eighth value
      is the last byte of the first chunk, not the first data byte of the
      second; the intended decoding reads the latter. */
  lemma EighthTemperatureMisread(chunks: seq<seq<byte>>, sensorCount: nat)
    requires |chunks| >= 2 && forall i | 0 <= i < |chunks| :: |chunks[i]| == 8
    requires 8 <= sensorCount <= 7 * |chunks|
    ensures CellTemperaturesAsWritten(chunks, sensorCount).Success?
    ensures CellTemperaturesAsWritten(chunks, sensorCount).value[7] == OffsetByte(chunks[0][7], 40.0)
    ensures CellTemperatures(chunks, sensorCount).Success?
    ensures CellTemperatures(chunks, sensorCount).value[7] == OffsetByte(chunks[1][0], 40.0)
  {
    ConcatIsFlatten(chunks, 8);
  }

  /** The balance decoding of `getCellBalanceState` as the source writes
      it: cell `i` is bit `i % 8` of byte `i / 8`, and the guard compares
      the cell count with eight bits per byte of the whole payload. */
  function BalanceStatesAsWritten(frame: seq<byte>, cellCount: nat): (r: Result<seq<bool>, DalyError>)
    ensures r.Success? <==> 8 * |frame| >= cellCount
    ensures r.Failure? ==> r.error == InvalidResponseLength
    ensures r.Success? ==>
              && |r.value| == cellCount
              && forall i | 0 <= i < cellCount :: r.value[i] == Bit(frame[i / 8], i % 8)
  {
    if |frame| * 8 >= cellCount then
      Success(seq(cellCount, i requires 0 <= i < cellCount => Bit(frame[i / 8], i % 8)))
    else
      Failure(InvalidResponseLength)
  }

  /** The balance decoding as intended: only the eight data bytes of the
      payload carry balance bits, so at most 64 cells can be reported. */
  function BalanceStates(payload: seq<byte>, cellCount: nat): (r: Result<seq<bool>, DalyError>)
    requires |payload| >= 8
    ensures r.Success? <==> cellCount <= 64
    ensures r.Failure? ==> r.error == InvalidResponseLength
    ensures r.Success? ==>
              && |r.value| == cellCount
              && forall i | 0 <= i < cellCount :: r.value[i] == Bit(payload[i / 8], i % 8)
  {
    BalanceStatesAsWritten(payload[..8], cellCount)
  }

  /** With the nine-byte payload of an extracted frame, the source's guard
      admits 72 cells and reads cells 64..71 from the ninth byte, the frame
      checksum; the intended decoding rejects that count. */
  lemma BalanceGuardAdmitsChecksum(payload: seq<byte>)
    requires |payload| == 9
    ensures BalanceStatesAsWritten(payload, 72).Success?
    ensures forall j | 0 <= j < 8 :: BalanceStatesAsWritten(payload, 72).value[64 + j] == Bit(payload[8], j)
    ensures BalanceStates(payload, 72) == Failure(InvalidResponseLength)
  {
  }
}
