/** The CRC16 tables of jib96o.c, and the repair of the one bit the DS2490 adapters
    are known to misread. */
module JibCrc {
  import opened Bits
  import opened Lfsr

  /** Bytes covered by CRCCorrectionTable. */
  const CORRECTIONS: nat := 140

  /** CRCTable[i] */
  function Entry(i: nat): bv16
    requires i < 256
  {
    OverByte(Crc16, 0, i as bv8)
  }

  /** CRCCorrectionTable[i]: what a flip of bit 0 of byte 2 does to the CRC of i + 1 bytes. */
  function Correction(i: nat): bv16
  {
    if i < 2 then 0
    else if i == 2 then OverByte(Crc16, 0, 1)
    else OverByte(Crc16, Correction(i - 1), 0)
  }

  /** What GetCRC16Correction returns for a length; its parameter is an unsigned char. */
  function CorrectionFor(length: nat): bv16
    requires length < 256
  {
    if length > CORRECTIONS || length < 1 then 0 else Correction(length - 1)
  }

  /** The table entry a register and a byte select. */
  function Index(crc: bv16, x: bv8): nat {
    ((crc ^ (x as bv16)) & 0xff) as nat
  }

  lemma LowByteFits(w: bv16)
    ensures w & 0xff < 256
    ensures (w & 0xff) as nat < 256
    ensures ((w & 0xff) as nat as bv8) as bv16 == w & 0xff
  {}

  lemma HighByteKept(crc: bv16, x: bv8)
    ensures (crc ^ (x as bv16)) >> 8 == crc >> 8
  {}

  lemma IndexFits(crc: bv16, x: bv8)
    ensures Index(crc, x) < 256
    ensures (Index(crc, x) as bv8) as bv16 == Plus(crc, x as bv16) & 0xff
    ensures Plus(crc, x as bv16) >> 8 == crc >> 8
  {
    LowByteFits(crc ^ (x as bv16));
    HighByteKept(crc, x);
  }

  /** A table look-up and a byte shift take in one byte. */
  lemma TableStep(crc: bv16, x: bv8)
    ensures Index(crc, x) < 256
    ensures Plus(Entry(Index(crc, x)), crc >> 8) == OverByte(Crc16, crc, x)
  {
    hide Shift, ShiftN, Plus, Index;
    IndexFits(crc, x);
    var w := Plus(crc, x as bv16);
    PlusZero(w & 0xff, 0);
    PlusZero(0, w & 0xff);
    HighAndLow(w);
  }

  lemma TGenStep(crc: bv16, x: bv8)
    ensures var odd := (crc ^ (x as bv16)) & 1 == 1;
            Plus(if odd then (crc >> 1) ^ 0xA001 else crc >> 1, (x >> 1) as bv16)
            == Shift(Crc16, Plus(crc, x as bv16))
  {
    ShiftByTest(crc ^ (x as bv16));
    if (crc ^ (x as bv16)) & 1 == 1 {
    } else {
    }
  }

  /** The bit loop CRC16TGen is the CRC16 register. */
  method CRC16TGen(x0: bv8, crc0: bv16) returns (crc: bv16)
    ensures crc == OverByte(Crc16, crc0, x0)
  {
    hide Shift, Plus;
    crc := crc0;
    var x, n := x0, 0;
    while n < 8
      invariant 0 <= n <= 8
      invariant Drop(x, 8 - n) == Drop(x0, 8)
      invariant ShiftN(Crc16, Plus(crc, x as bv16), 8 - n) == OverByte(Crc16, crc0, x0)
    {
      TGenStep(crc, x);
      var bit := (crc ^ (x as bv16)) & 1;
      crc := crc >> 1;
      if bit == 1 {
        crc := crc ^ 0xA001;
      }
      x := x >> 1;
      n := n + 1;
    }
    DropAll(x0);
    PlusZero(crc, 0);
  }

  lemma Nothing(crc: bv16)
    ensures OverBytes(Crc16, crc, []) == crc
  {}

  lemma OneMore(crc: bv16, bytes: seq<bv8>, x: bv8)
    ensures OverBytes(Crc16, crc, bytes + [x]) == OverByte(Crc16, OverBytes(Crc16, crc, bytes), x)
  {
    hide OverByte;
    BytesAppend(Crc16, crc, bytes, [x]);
    var d := OverByte(Crc16, OverBytes(Crc16, crc, bytes), x);
    assert OverBytes(Crc16, OverBytes(Crc16, crc, bytes), [x]) == OverBytes(Crc16, d, []) == d;
  }

  lemma FirstCorrections()
    ensures Correction(0) == 0 && Correction(1) == 0 && Correction(2) == OverByte(Crc16, 0, 1)
  {}

  lemma NextCorrection(i: nat)
    requires i >= 3
    ensures Correction(i) == OverByte(Crc16, Correction(i - 1), 0)
  {}

  class Tables {
    const table: array<bv16>
    const correction: array<bv16>

    /** CRCTable is filled. */
    ghost predicate Looked()
      reads table
    {
      table.Length == 256 && forall i :: 0 <= i < 256 ==> table[i] == Entry(i)
    }

    /** Both tables are filled. */
    ghost predicate Ready()
      reads table, correction
    {
      && Looked() && correction.Length == CORRECTIONS && table != correction
      && (forall i :: 0 <= i < CORRECTIONS ==> correction[i] == Correction(i))
    }

    /** The set-up the first SendCiBMessage runs: GenCRC16Table, then GenCRC16CorrectionTable. */
    constructor ()
      ensures Ready() && fresh(table) && fresh(correction)
    {
      table := new bv16[256];
      correction := new bv16[CORRECTIONS];
      new;
      GenCRC16Table();
      GenCRC16CorrectionTable();
    }

    /** Fills the look-up table and, with it, the correction table. */
    method GenCRC16Table()
      requires table.Length == 256 && correction.Length == CORRECTIONS && table != correction
      modifies table, correction
      ensures Ready()
    {
      var i := 0;
      while i < 256
        invariant 0 <= i <= 256
        invariant forall j :: 0 <= j < i ==> table[j] == Entry(j)
      {
        var e := CRC16TGen(i as bv8, 0);
        table[i] := e;
        i := i + 1;
      }
      GenCRC16CorrectionTable();
    }

    method GenCRC16CorrectionTable()
      requires Looked() && correction.Length == CORRECTIONS && table != correction
      modifies correction
      ensures Ready()
    {
      hide OverByte, Entry, Correction;
      var i := 0;
      while i < CORRECTIONS
        invariant 0 <= i <= CORRECTIONS && Looked()
        invariant forall j :: 0 <= j < i ==> correction[j] == 0
      {
        correction[i] := 0;
        i := i + 1;
      }
      var one := CRC16(1, 0);
      correction[2] := one;
      FirstCorrections();
      i := 3;
      while i < CORRECTIONS
        invariant 3 <= i <= CORRECTIONS && Looked()
        invariant forall j :: 0 <= j < i ==> correction[j] == Correction(j)
      {
        NextCorrection(i);
        var next := CRC16(0, correction[i - 1]);
        correction[i] := next;
        i := i + 1;
      }
    }

    /** One look-up. */
    method CRC16(x: bv8, crc: bv16) returns (r: bv16)
      requires Looked()
      ensures r == OverByte(Crc16, crc, x)
    {
      hide OverByte, Entry, Plus, Index;
      TableStep(crc, x);
      r := Plus(table[Index(crc, x)], crc >> 8);
    }

    /** The table engine over `count` bytes of a buffer is the CRC16 register. */
    method CRC16Buf(bp: array<bv8>, from: nat, crc0: bv16, count: nat) returns (crc: bv16)
      requires Looked()
      requires from + count <= bp.Length
      ensures crc == OverBytes(Crc16, crc0, bp[from..from + count])
    {
      hide *;
      crc := crc0;
      var i := 0;
      Nothing(crc0);
      assert bp[from..from + i] == [];
      while i < count
        invariant 0 <= i <= count
        invariant crc == OverBytes(Crc16, crc0, bp[from..from + i])
      {
        var x := bp[from + i];
        assert bp[from..from + (i + 1)] == bp[from..from + i] + [x];
        OneMore(crc0, bp[from..from + i], x);
        crc := CRC16(x, crc);
        i := i + 1;
      }
    }

    method GetCRC16Correction(length: nat) returns (r: bv16)
      requires Ready() && length < 256
      ensures r == CorrectionFor(length)
    {
      if length > correction.Length {
        return 0;
      }
      if length < 1 {
        return 0;
      }
      return correction[length - 1];
    }
  }
}
