/** The status response (command 0x94): counts, connection flags and the
    digital inputs and outputs. */
module StatusInformationResponse {
  import opened ByteCodec

  datatype StatusInformation = StatusInformation(
    cellCount: nat,
    temperatureSensorCount: nat,
    chargerIsConnected: bool,
    loadIsConnected: bool,
    di1: bool, di2: bool, di3: bool, di4: bool,
    do1: bool, do2: bool, do3: bool, do4: bool)

  /** The byte the eight digital flags spell when flag `k` (di1..di4,
      then do1..do4) is read as bit `k`. */
  function IoByte(s: StatusInformation): nat {
    BitValue(s.di1, 0) + BitValue(s.di2, 1) + BitValue(s.di3, 2) + BitValue(s.di4, 3)
    + BitValue(s.do1, 4) + BitValue(s.do2, 5) + BitValue(s.do3, 6) + BitValue(s.do4, 7)
  }

  /** `StatusInformation(bytes:)`: counts at bytes 0 and 1, connection
      flags set by any non-zero byte at 2 and 3, inputs di1..di4 in bits
      0..3 and outputs do1..do4 in bits 4..7 of byte 4. The flags give
      byte 4 back exactly. */
  function DecodeStatusInformation(bytes: seq<byte>): (s: StatusInformation)
    requires |bytes| >= 5
    ensures s.cellCount == bytes[0] && s.temperatureSensorCount == bytes[1]
    ensures s.chargerIsConnected <==> bytes[2] != 0
    ensures s.loadIsConnected <==> bytes[3] != 0
    ensures IoByte(s) == bytes[4]
  {
    var b := bytes[4];
    BitsReconstruct(b);
    StatusInformation(
      bytes[0], bytes[1], bytes[2] > 0, bytes[3] > 0,
      Bit(b, 0), Bit(b, 1), Bit(b, 2), Bit(b, 3),
      Bit(b, 4), Bit(b, 5), Bit(b, 6), Bit(b, 7))
  }

  /** A byte is the sum of its eight bits, each at its own weight. */
  lemma BitsReconstruct(b: byte)
    ensures BitValue(Bit(b, 0), 0) + BitValue(Bit(b, 1), 1) + BitValue(Bit(b, 2), 2)
            + BitValue(Bit(b, 3), 3) + BitValue(Bit(b, 4), 4) + BitValue(Bit(b, 5), 5)
            + BitValue(Bit(b, 6), 6) + BitValue(Bit(b, 7), 7) == b
  {
    var v0, v1, v2, v3, v4, v5, v6, v7 := BitWeights(b);
    HalvingChain(b);
    assert v0 + v1 + v2 + v3 + v4 + v5 + v6 + v7 == b;
  }

  /** The weight bit `i` of `b` contributes, written with `i` halvings. */
  lemma BitWeights(b: byte) returns (v0: int, v1: int, v2: int, v3: int, v4: int, v5: int, v6: int, v7: int)
    ensures v0 == BitValue(Bit(b, 0), 0) == b % 2
    ensures v1 == BitValue(Bit(b, 1), 1) == 2 * (b / 2 % 2)
    ensures v2 == BitValue(Bit(b, 2), 2) == 4 * (b / 2 / 2 % 2)
    ensures v3 == BitValue(Bit(b, 3), 3) == 8 * (b / 2 / 2 / 2 % 2)
    ensures v4 == BitValue(Bit(b, 4), 4) == 16 * (b / 2 / 2 / 2 / 2 % 2)
    ensures v5 == BitValue(Bit(b, 5), 5) == 32 * (b / 2 / 2 / 2 / 2 / 2 % 2)
    ensures v6 == BitValue(Bit(b, 6), 6) == 64 * (b / 2 / 2 / 2 / 2 / 2 / 2 % 2)
    ensures v7 == BitValue(Bit(b, 7), 7) == 128 * (b / 2 / 2 / 2 / 2 / 2 / 2 / 2 % 2)
  {
    v0, v1, v2, v3 := BitValue(Bit(b, 0), 0), BitValue(Bit(b, 1), 1), BitValue(Bit(b, 2), 2), BitValue(Bit(b, 3), 3);
    v4, v5, v6, v7 := BitValue(Bit(b, 4), 4), BitValue(Bit(b, 5), 5), BitValue(Bit(b, 6), 6), BitValue(Bit(b, 7), 7);
    assert v1 == 2 * (b / 2 % 2) by {
      WeightStep(b, 1);
    }
    assert v2 == 4 * (b / 2 / 2 % 2) by {
      WeightStep(b, 2);
      WeightStep(b / 2, 1);
    }
    assert v3 == 8 * (b / 2 / 2 / 2 % 2) by {
      WeightStep(b, 3);
      WeightStep(b / 2, 2);
      WeightStep(b / 2 / 2, 1);
    }
    assert v4 == 16 * (b / 2 / 2 / 2 / 2 % 2) by {
      WeightStep(b, 4);
      WeightStep(b / 2, 3);
      WeightStep(b / 2 / 2, 2);
      WeightStep(b / 2 / 2 / 2, 1);
    }
    assert v5 == 32 * (b / 2 / 2 / 2 / 2 / 2 % 2) by {
      WeightStep(b, 5);
      WeightStep(b / 2, 4);
      WeightStep(b / 2 / 2, 3);
      WeightStep(b / 2 / 2 / 2, 2);
      WeightStep(b / 2 / 2 / 2 / 2, 1);
    }
    assert v6 == 64 * (b / 2 / 2 / 2 / 2 / 2 / 2 % 2) by {
      WeightStep(b, 6);
      WeightStep(b / 2, 5);
      WeightStep(b / 2 / 2, 4);
      WeightStep(b / 2 / 2 / 2, 3);
      WeightStep(b / 2 / 2 / 2 / 2, 2);
      WeightStep(b / 2 / 2 / 2 / 2 / 2, 1);
    }
    assert v7 == 128 * (b / 2 / 2 / 2 / 2 / 2 / 2 / 2 % 2) by {
      WeightStep(b, 7);
      WeightStep(b / 2, 6);
      WeightStep(b / 2 / 2, 5);
      WeightStep(b / 2 / 2 / 2, 4);
      WeightStep(b / 2 / 2 / 2 / 2, 3);
      WeightStep(b / 2 / 2 / 2 / 2 / 2, 2);
      WeightStep(b / 2 / 2 / 2 / 2 / 2 / 2, 1);
    }
  }

  /** The weight of bit `i > 0` of `x` is twice that of bit `i - 1` of `x / 2`. */
  lemma WeightStep(x: nat, i: nat)
    requires i > 0
    ensures BitValue(Bit(x, i), i) == 2 * BitValue(Bit(x / 2, i - 1), i - 1)
  {
  }

  /** Eight halvings with their remainders rebuild a byte. */
  lemma HalvingChain(b: int)
    requires 0 <= b < 256
    ensures b == b % 2 + 2 * (b / 2 % 2) + 4 * (b / 2 / 2 % 2) + 8 * (b / 2 / 2 / 2 % 2)
               + 16 * (b / 2 / 2 / 2 / 2 % 2) + 32 * (b / 2 / 2 / 2 / 2 / 2 % 2)
               + 64 * (b / 2 / 2 / 2 / 2 / 2 / 2 % 2) + 128 * (b / 2 / 2 / 2 / 2 / 2 / 2 / 2 % 2)
  {
    var b1 := b / 2;
    var b2 := b1 / 2;
    var b3 := b2 / 2;
    var b4 := b3 / 2;
    var b5 := b4 / 2;
    var b6 := b5 / 2;
    var b7 := b6 / 2;
    assert b == b % 2 + 2 * b1 && b1 == b1 % 2 + 2 * b2 && b2 == b2 % 2 + 2 * b3;
    assert b3 == b3 % 2 + 2 * b4 && b4 == b4 % 2 + 2 * b5 && b5 == b5 % 2 + 2 * b6;
    assert b6 == b6 % 2 + 2 * b7;
    assert b1 < 128 && b2 < 64 && b3 < 32 && b4 < 16;
    assert b5 < 8 && b6 < 4 && b7 < 2 && b7 == b7 % 2;
  }

  /** Two payloads decode alike exactly when they agree on the counts,
      on whether bytes 2 and 3 are non-zero, and on byte 4; bytes 5..7
      are ignored. */
  lemma DecodeStatusInformationEquivalence(a: seq<byte>, b: seq<byte>)
    requires |a| >= 5 && |b| >= 5
    ensures DecodeStatusInformation(a) == DecodeStatusInformation(b)
            <==> && a[0] == b[0] && a[1] == b[1]
                 && (a[2] == 0 <==> b[2] == 0) && (a[3] == 0 <==> b[3] == 0)
                 && a[4] == b[4]
  {
  }
}
