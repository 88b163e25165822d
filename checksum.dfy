/** The vendor's one-byte checksum over a message payload: a CRC-8 variant with
    feedback polynomial 0x5C whose accumulator starts at the first payload byte,
    with no reflection and no final XOR. */
module Checksum {
  import opened Bytes

  /** The polynomial folded in whenever a set top bit is shifted out. */
  const Polynomial: bv8 := 0x5C

  /** One shift round on the 8-bit accumulator: shift left, dropping the top
      bit, and XOR in the polynomial when the dropped bit was set. On an 8-bit
      value, `(crc << 1) & 0xFF` is doubling with wrap-around, which is how it
      is written here. */
  function Round(crc: bv8): bv8
  {
    if crc & 0x80 != 0 then (crc * 2) ^ Polynomial else crc * 2
  }

  /** A round doubles the accumulator's value and drops the bit shifted out
      past the eighth; the polynomial goes in exactly when that bit was set. */
  lemma RoundShifts(crc: bv8)
    ensures crc < 0x80 ==> Round(crc) as int == 2 * crc as int
    ensures crc >= 0x80 ==> (Round(crc) ^ Polynomial) as int == 2 * crc as int - 256
  {
  }

  /** `n` consecutive rounds. */
  function Rounds(crc: bv8, n: nat): bv8
  {
    if n == 0 then crc else Round(Rounds(crc, n - 1))
  }

  /** The eight rounds run before each later payload byte is mixed in. */
  function Rounds8(crc: bv8): bv8
  {
    Round(Round(Round(Round(Round(Round(Round(Round(crc))))))))
  }

  lemma RoundsEight(crc: bv8)
    ensures Rounds(crc, 8) == Rounds8(crc)
  {
    assert Rounds(crc, 1) == Round(crc);
    assert Rounds(crc, 2) == Round(Round(crc));
    assert Rounds(crc, 3) == Round(Round(Round(crc)));
    assert Rounds(crc, 4) == Round(Round(Round(Round(crc))));
    assert Rounds(crc, 5) == Round(Round(Round(Round(Round(crc)))));
    assert Rounds(crc, 6) == Round(Round(Round(Round(Round(Round(crc))))));
    assert Rounds(crc, 7) == Round(Round(Round(Round(Round(Round(Round(crc)))))));
  }

  /** Mixes the remaining payload bytes into the accumulator, left to right. */
  function Absorb(acc: bv8, rest: seq<byte>): bv8
    decreases |rest|
  {
    if rest == [] then acc else Absorb(Rounds8(acc) ^ rest[0], rest[1..])
  }

  /** The checksum of a payload: 0 for the empty payload, otherwise the first byte
      with every later byte absorbed in order. */
  function Crc(payload: seq<byte>): (r: byte)
    ensures payload == [] ==> r == 0
    ensures |payload| == 1 ==> r == payload[0]
  {
    if payload == [] then 0 else Absorb(payload[0], payload[1..])
  }

  lemma {:induction false} AbsorbSnoc(acc: bv8, rest: seq<byte>, b: byte)
    ensures Absorb(acc, rest + [b]) == Rounds8(Absorb(acc, rest)) ^ b
    decreases |rest|
  {
    if rest == [] {
      assert [] + [b] == [b];
      assert [b][1..] == [];
    } else {
      var next := Rounds8(acc) ^ rest[0];
      assert (rest + [b])[1..] == rest[1..] + [b];
      assert Absorb(acc, rest + [b]) == Absorb(next, rest[1..] + [b]);
      assert Absorb(acc, rest) == Absorb(next, rest[1..]);
      AbsorbSnoc(next, rest[1..], b);
    }
  }

  /** Absorbing two runs of bytes one after the other. */
  lemma {:induction false} AbsorbAppend(acc: bv8, a: seq<byte>, b: seq<byte>)
    ensures Absorb(acc, a + b) == Absorb(Absorb(acc, a), b)
    decreases |a|
  {
    if a == [] {
      assert a + b == b;
    } else {
      assert (a + b)[1..] == a[1..] + b;
      AbsorbAppend(Rounds8(acc) ^ a[0], a[1..], b);
    }
  }

  /** Appending a byte to a non-empty payload runs eight rounds on the old
      checksum and XORs in the new byte. */
  lemma CrcSnoc(payload: seq<byte>, b: byte)
    requires payload != []
    ensures Crc(payload + [b]) == Rounds8(Crc(payload)) ^ b
  {
    assert (payload + [b])[1..] == payload[1..] + [b];
    AbsorbSnoc(payload[0], payload[1..], b);
  }

  /** The checksum of a payload extended by more bytes is the first part's
      checksum with the new bytes absorbed. */
  lemma CrcAppend(payload: seq<byte>, more: seq<byte>)
    requires payload != []
    ensures Crc(payload + more) == Absorb(Crc(payload), more)
  {
    assert (payload + more)[1..] == payload[1..] + more;
    AbsorbAppend(payload[0], payload[1..], more);
  }

  /** `calculate_weishaupt_crc_multi`: decodes the hex payload and runs the
      shift-and-XOR loops over it. The accumulator is kept as an 8-bit value, so
      the source's `& 0xFF` after each shift is the bit-vector's own wrap-around. */
  method CalculateWeishauptCrcMulti(hexPayloadString: string) returns (crc: byte)
    requires IsHexString(hexPayloadString)
    ensures crc == Crc(FromHex(hexPayloadString))
  {
    var dataBytes := FromHex(hexPayloadString);
    if dataBytes == [] {
      return 0;
    }
    var acc: bv8 := dataBytes[0];
    var i := 1;
    while i < |dataBytes|
      invariant 1 <= i <= |dataBytes|
      invariant acc == Absorb(dataBytes[0], dataBytes[1..i])
    {
      var nextByte := dataBytes[i];
      ghost var before := acc;
      var round := 0;
      while round < 8
        invariant 0 <= round <= 8
        invariant acc == Rounds(before, round)
      {
        if acc & 0x80 != 0 {
          acc := (acc * 2) ^ 0x5C;
        } else {
          acc := acc * 2;
        }
        round := round + 1;
      }
      RoundsEight(before);
      acc := acc ^ nextByte;
      AbsorbSnoc(dataBytes[0], dataBytes[1..i], nextByte);
      assert dataBytes[1..i + 1] == dataBytes[1..i] + [nextByte];
      i := i + 1;
    }
    assert dataBytes[1..i] == dataBytes[1..];
    crc := acc;
  }


  /** One step of Absorb on an explicit payload, for evaluating literal payloads. */
  lemma AbsorbStep(acc: bv8, b: byte, rest: seq<byte>, next: bv8)
    requires Rounds8(acc) ^ b == next
    ensures Absorb(acc, [b] + rest) == Absorb(next, rest)
  {
    assert ([b] + rest)[1..] == rest;
  }

  // The three payloads whose checksums the script's test function lists as expected
  // (ProcessValues4, ErrorHistory1 and SHC1 with their leading checksum removed).
  // Each is evaluated in three parts: the hex decoding (through the hex text of
  // the bytes and the round trip), the absorption of the later bytes one step
  // at a time, and the two put together.

  lemma ProcessValues4HeadBytes()
    ensures IsHexString("0122015B11") && FromHex("0122015B11") == [0x01, 0x22, 0x01, 0x5B, 0x11]
  {
    var bs: seq<byte> := [0x01, 0x22, 0x01, 0x5B, 0x11];
    assert Hex2(0x01) == "01";
    assert Hex2(0x22) == "22";
    assert Hex2(0x5B) == "5B";
    assert Hex2(0x11) == "11";
    assert ToHex(bs) == "0122015B11" by {
      assert bs[1..] == [0x22, 0x01, 0x5B, 0x11];
      assert bs[1..][1..] == [0x01, 0x5B, 0x11];
      assert bs[1..][1..][1..] == [0x5B, 0x11];
      assert bs[1..][1..][1..][1..] == [0x11];
    }
    FromHexToHex(bs);
  }

  lemma ProcessValues4TailBytes()
    ensures IsHexString("5F01660168") && FromHex("5F01660168") == [0x5F, 0x01, 0x66, 0x01, 0x68]
  {
    var bs: seq<byte> := [0x5F, 0x01, 0x66, 0x01, 0x68];
    assert Hex2(0x5F) == "5F";
    assert Hex2(0x01) == "01";
    assert Hex2(0x66) == "66";
    assert Hex2(0x68) == "68";
    assert ToHex(bs) == "5F01660168" by {
      assert bs[1..] == [0x01, 0x66, 0x01, 0x68];
      assert bs[1..][1..] == [0x66, 0x01, 0x68];
      assert bs[1..][1..][1..] == [0x01, 0x68];
      assert bs[1..][1..][1..][1..] == [0x68];
    }
    FromHexToHex(bs);
  }

  lemma ProcessValues4HeadAbsorb()
    ensures Absorb(0x01, [0x22, 0x01, 0x5B, 0x11]) == 0xCD
  {
    AbsorbStep(0x01, 0x22, [0x01, 0x5B, 0x11], 0x7E);
    AbsorbStep(0x7E, 0x01, [0x5B, 0x11], 0x39);
    AbsorbStep(0x39, 0x5B, [0x11], 0xD3);
    AbsorbStep(0xD3, 0x11, [], 0xCD);
  }

  lemma ProcessValues4HeadCrc()
    ensures Crc([0x01, 0x22, 0x01, 0x5B, 0x11]) == 0xCD
  {
    assert [0x01, 0x22, 0x01, 0x5B, 0x11][1..] == [0x22, 0x01, 0x5B, 0x11];
    ProcessValues4HeadAbsorb();
  }

  lemma ProcessValues4TailAbsorb()
    ensures Absorb(0xCD, [0x5F, 0x01, 0x66, 0x01, 0x68]) == 0x88
  {
    AbsorbStep(0xCD, 0x5F, [0x01, 0x66, 0x01, 0x68], 0xFF);
    AbsorbStep(0xFF, 0x01, [0x66, 0x01, 0x68], 0x95);
    AbsorbStep(0x95, 0x66, [0x01, 0x68], 0x56);
    AbsorbStep(0x56, 0x01, [0x68], 0x5D);
    AbsorbStep(0x5D, 0x68, [], 0x88);
  }

  lemma ProcessValues4Checksum()
    ensures Crc(FromHex("0122015B115F01660168")) == 0x88
  {
    var h, t := "0122015B11", "5F01660168";
    ProcessValues4HeadBytes();
    ProcessValues4TailBytes();
    FromHexAppend(h, t);
    assert h + t == "0122015B115F01660168";
    CrcAppend(FromHex(h), FromHex(t));
    ProcessValues4HeadCrc();
    ProcessValues4TailAbsorb();
  }

  lemma ErrorHistory1ChecksumBytes()
    ensures IsHexString("029F8263") && FromHex("029F8263") == [0x02, 0x9F, 0x82, 0x63]
  {
    var bs: seq<byte> := [0x02, 0x9F, 0x82, 0x63];
    assert Hex2(0x02) == "02";
    assert Hex2(0x9F) == "9F";
    assert Hex2(0x82) == "82";
    assert Hex2(0x63) == "63";
    assert ToHex(bs) == "029F8263" by {
      assert bs[1..] == [0x9F, 0x82, 0x63];
      assert bs[1..][1..] == [0x82, 0x63];
      assert bs[1..][1..][1..] == [0x63];
    }
    FromHexToHex(bs);
  }

  lemma ErrorHistory1ChecksumAbsorb()
    ensures Absorb(0x02, [0x9F, 0x82, 0x63]) == 0x03
  {
    AbsorbStep(0x02, 0x9F, [0x82, 0x63], 0x27);
    AbsorbStep(0x27, 0x82, [0x63], 0x76);
    AbsorbStep(0x76, 0x63, [], 0x03);
  }

  lemma ErrorHistory1Checksum()
    ensures Crc(FromHex("029F8263")) == 0x03
  {
    ErrorHistory1ChecksumBytes();
    ErrorHistory1ChecksumAbsorb();
    assert [0x02, 0x9F, 0x82, 0x63][1..] == [0x9F, 0x82, 0x63];
  }

  lemma Shc1ChecksumBytes()
    ensures IsHexString("73BB13AC") && FromHex("73BB13AC") == [0x73, 0xBB, 0x13, 0xAC]
  {
    var bs: seq<byte> := [0x73, 0xBB, 0x13, 0xAC];
    assert Hex2(0x73) == "73";
    assert Hex2(0xBB) == "BB";
    assert Hex2(0x13) == "13";
    assert Hex2(0xAC) == "AC";
    assert ToHex(bs) == "73BB13AC" by {
      assert bs[1..] == [0xBB, 0x13, 0xAC];
      assert bs[1..][1..] == [0x13, 0xAC];
      assert bs[1..][1..][1..] == [0xAC];
    }
    FromHexToHex(bs);
  }

  lemma Shc1ChecksumAbsorb()
    ensures Absorb(0x73, [0xBB, 0x13, 0xAC]) == 0x0C
  {
    AbsorbStep(0x73, 0xBB, [0x13, 0xAC], 0xAB);
    AbsorbStep(0xAB, 0x13, [0xAC], 0x63);
    AbsorbStep(0x63, 0xAC, [], 0x0C);
  }

  lemma Shc1Checksum()
    ensures Crc(FromHex("73BB13AC")) == 0x0C
  {
    Shc1ChecksumBytes();
    Shc1ChecksumAbsorb();
    assert [0x73, 0xBB, 0x13, 0xAC][1..] == [0xBB, 0x13, 0xAC];
  }
}
