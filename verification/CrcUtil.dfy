/** crcutil.c: the running CRC16 and CRC8 of a port. */
module CrcUtil {
  import opened Bits
  import opened Lfsr

  // dscrc_table, sixteen entries a row.
  const ROW_0: seq<bv8> := [0, 94, 188, 226, 97, 63, 221, 131, 194, 156, 126, 32, 163, 253, 31, 65]
  const ROW_1: seq<bv8> := [157, 195, 33, 127, 252, 162, 64, 30, 95, 1, 227, 189, 62, 96, 130, 220]
  const ROW_2: seq<bv8> := [35, 125, 159, 193, 66, 28, 254, 160, 225, 191, 93, 3, 128, 222, 60, 98]
  const ROW_3: seq<bv8> := [190, 224, 2, 92, 223, 129, 99, 61, 124, 34, 192, 158, 29, 67, 161, 255]
  const ROW_4: seq<bv8> := [70, 24, 250, 164, 39, 121, 155, 197, 132, 218, 56, 102, 229, 187, 89, 7]
  const ROW_5: seq<bv8> := [219, 133, 103, 57, 186, 228, 6, 88, 25, 71, 165, 251, 120, 38, 196, 154]
  const ROW_6: seq<bv8> := [101, 59, 217, 135, 4, 90, 184, 230, 167, 249, 27, 69, 198, 152, 122, 36]
  const ROW_7: seq<bv8> := [248, 166, 68, 26, 153, 199, 37, 123, 58, 100, 134, 216, 91, 5, 231, 185]
  const ROW_8: seq<bv8> := [140, 210, 48, 110, 237, 179, 81, 15, 78, 16, 242, 172, 47, 113, 147, 205]
  const ROW_9: seq<bv8> := [17, 79, 173, 243, 112, 46, 204, 146, 211, 141, 111, 49, 178, 236, 14, 80]
  const ROW_A: seq<bv8> := [175, 241, 19, 77, 206, 144, 114, 44, 109, 51, 209, 143, 12, 82, 176, 238]
  const ROW_B: seq<bv8> := [50, 108, 142, 208, 83, 13, 239, 177, 240, 174, 76, 18, 145, 207, 45, 115]
  const ROW_C: seq<bv8> := [202, 148, 118, 40, 171, 245, 23, 73, 8, 86, 180, 234, 105, 55, 213, 139]
  const ROW_D: seq<bv8> := [87, 9, 235, 181, 54, 104, 138, 212, 149, 203, 41, 119, 244, 170, 72, 22]
  const ROW_E: seq<bv8> := [233, 183, 85, 11, 136, 214, 52, 106, 43, 117, 151, 201, 74, 20, 246, 168]
  const ROW_F: seq<bv8> := [116, 42, 200, 150, 21, 75, 169, 247, 182, 232, 10, 84, 215, 137, 107, 53]

  function Row(r: bv8): (row: seq<bv8>)
    requires r < 16
    ensures |row| == 16
  {
    if r == 0 then ROW_0
    else if r == 1 then ROW_1
    else if r == 2 then ROW_2
    else if r == 3 then ROW_3
    else if r == 4 then ROW_4
    else if r == 5 then ROW_5
    else if r == 6 then ROW_6
    else if r == 7 then ROW_7
    else if r == 8 then ROW_8
    else if r == 9 then ROW_9
    else if r == 10 then ROW_A
    else if r == 11 then ROW_B
    else if r == 12 then ROW_C
    else if r == 13 then ROW_D
    else if r == 14 then ROW_E
    else ROW_F
  }

  /** dscrc_table[x]: row `x >> 4`, column `x & 0xf`. */
  function Table8(x: bv8): bv8 {
    Row(x >> 4)[(x & 0xf) as int]
  }

  lemma Sixteen(j: nat)
    requires j < 16
    ensures j == 0 || j == 1 || j == 2 || j == 3 || j == 4 || j == 5 || j == 6 || j == 7 || j == 8
         || j == 9 || j == 10 || j == 11 || j == 12 || j == 13 || j == 14 || j == 15
  {}

  /** The rows differ from the first one by their first entry. */
  lemma RowXor(h: bv8, j: nat)
    requires h < 16 && j < 16
    ensures Row(h)[j] == ROW_0[j] ^ Row(h)[0]
  {
    hide Row;
    if h < 8 {
      LowRowXor(h, j);
    } else {
      HighRowXor(h, j);
    }
  }

  lemma LowRowXor(h: bv8, j: nat)
    requires h < 8 && j < 16
    ensures Row(h)[j] == ROW_0[j] ^ Row(h)[0]
  {
    Sixteen(j);
    if h == 0 {
    } else if h == 1 {
    } else if h == 2 {
    } else if h == 3 {
    } else if h == 4 {
    } else if h == 5 {
    } else if h == 6 {
    } else {
    }
  }

  lemma HighRowXor(h: bv8, j: nat)
    requires 8 <= h < 16 && j < 16
    ensures Row(h)[j] == ROW_0[j] ^ Row(h)[0]
  {
    Sixteen(j);
    if h == 8 {
    } else if h == 9 {
    } else if h == 10 {
    } else if h == 11 {
    } else if h == 12 {
    } else if h == 13 {
    } else if h == 14 {
    } else {
    }
  }

  lemma FirstRow(j: nat)
    requires j < 16
    ensures ROW_0[j] as bv16 == Shift8(Crc8, j as bv16)
  {
    Sixteen(j);
  }

  lemma FirstColumn(h: bv8)
    requires h < 16
    ensures Row(h)[0] as bv16 == Shift8(Crc8, (h as bv16) << 4)
  {}

  lemma Nibbles(x: bv8)
    ensures var h, j := x >> 4, x & 0xf;
            h < 16 && j < 16 && x as bv16 == ((h as bv16) << 4) ^ (j as bv16)
            && (j as int) as bv16 == j as bv16
  {}

  /** The printed table is the table of the CRC8: entry x is x shifted eight times. */
  lemma TableIsCrc8(x: bv8)
    ensures Table8(x) as bv16 == OverByte(Crc8, 0, x)
  {
    hide Shift8, Plus, Row;
    Nibbles(x);
    Unroll8(Crc8, x as bv16);
    PlusZero(x as bv16, 0);
    PlusZero(0, x as bv16);
    RowExact(x >> 4, (x & 0xf) as int);
  }

  lemma RowExact(h: bv8, j: nat)
    requires h < 16 && j < 16
    ensures Row(h)[j] as bv16 == Shift8(Crc8, ((h as bv16) << 4) ^ (j as bv16))
  {
    hide Shift, Row;
    RowXor(h, j);
    FirstRow(j);
    FirstColumn(h);
    Unroll8(Crc8, (h as bv16) << 4);
    Unroll8(Crc8, j as bv16);
    Unroll8(Crc8, Plus((h as bv16) << 4, j as bv16));
    ShiftNLinear(Crc8, (h as bv16) << 4, j as bv16, 8);
    hide Shift8;
  }

  // ----- docrc16 -----

  predicate OddParity(n: bv16) {
    n == 1 || n == 2 || n == 4 || n == 7 || n == 8 || n == 11 || n == 13 || n == 14
  }

  /** `oddparity[cdata & 0xf] ^ oddparity[cdata >> 4]` */
  predicate Odd8(d: bv16) {
    OddParity(d & 0xf) != OddParity(d >> 4)
  }

  /** The low byte of register xor data. */
  function Mixed(crc: bv16, data: bv16): bv16 {
    (data ^ (crc & 0xff)) & 0xff
  }

  /** What `docrc16` folds into the register for the mixed byte d. */
  function Fold(d: bv16): bv16 {
    Plus(Plus(if Odd8(d) then 0xc001 else 0, d << 6), (d << 6) << 1)
  }

  /** The parity trick is eight shifts of the low byte. */
  lemma FoldIsShift8(d: bv16)
    requires d <= 0xff
    ensures Fold(d) == Shift8(Crc16, d)
  {}

  lemma MixedBytes(crc: bv16, data: bv16)
    ensures var w := Plus(crc, ((data & 0xff) as bv8) as bv16);
            w & 0xff == Mixed(crc, data) <= 0xff && w >> 8 == crc >> 8
  {}

  lemma ByteByFold(crc: bv16, data: bv16)
    ensures OverByte(Crc16, crc, (data & 0xff) as bv8) == Plus(Fold(Mixed(crc, data)), crc >> 8)
  {
    hide Shift, Shift8, Plus, Fold, Mixed, ShiftN;
    var w := Plus(crc, ((data & 0xff) as bv8) as bv16);
    MixedBytes(crc, data);
    HighAndLow(w);
    Unroll8(Crc16, w & 0xff);
    FoldIsShift8(w & 0xff);
  }

  lemma FoldLast(u: bv16, f: bv16, d: bv16, e: bv16)
    ensures Plus(Plus(Plus(u, f), d), e) == Plus(Plus(Plus(f, d), e), u)
    ensures Plus(Plus(u, d), e) == Plus(Plus(Plus(0, d), e), u)
  {
    hide Plus;
    PlusAssoc(Plus(u, f), d, e);
    PlusAssoc(u, f, d);
    PlusAssoc(u, Plus(f, d), e);
    PlusSwap(u, Plus(Plus(f, d), e));
    PlusZero(d, 0);
    PlusSwap(0, d);
    PlusAssoc(u, d, e);
    PlusSwap(u, Plus(d, e));
  }

  /** The order in which `docrc16` folds makes no difference. */
  lemma FoldOrder(u: bv16, d: bv16, d6: bv16, d7: bv16)
    requires d6 == d << 6 && d7 == d6 << 1
    ensures Odd8(d) ==> Plus(Plus(Plus(u, 0xc001), d6), d7) == Plus(Fold(d), u)
    ensures !Odd8(d) ==> Plus(Plus(u, d6), d7) == Plus(Fold(d), u)
  {
    hide Plus, Odd8;
    FoldLast(u, 0xc001, d << 6, (d << 6) << 1);
  }

  class CrcPort {
    var utilcrc16: bv16
    var utilcrc8: bv8

    constructor ()
      ensures utilcrc16 == 0 && utilcrc8 == 0
    {
      utilcrc16, utilcrc8 := 0, 0;
    }

    method SetCrc16(reset: bv16)
      modifies this`utilcrc16
      ensures utilcrc16 == reset
    {
      utilcrc16 := reset;
    }

    method SetCrc8(reset: bv8)
      modifies this`utilcrc8
      ensures utilcrc8 == reset
    {
      utilcrc8 := reset;
    }

    /** The parity-trick engine is the CRC16 register over the low byte of its argument. */
    method DoCrc16(data: bv16) returns (crc: bv16)
      modifies this`utilcrc16
      ensures utilcrc16 == crc == OverByte(Crc16, old(utilcrc16), (data & 0xff) as bv8)
    {
      hide *;
      ByteByFold(utilcrc16, data);
      var cdata := Mixed(utilcrc16, data);
      ghost var d := cdata;
      utilcrc16 := utilcrc16 >> 8;
      ghost var u := utilcrc16;
      if Odd8(cdata) {
        utilcrc16 := Plus(utilcrc16, 0xc001);
      }
      cdata := cdata << 6;
      utilcrc16 := Plus(utilcrc16, cdata);
      ghost var d6 := cdata;
      cdata := cdata << 1;
      utilcrc16 := Plus(utilcrc16, cdata);
      crc := utilcrc16;
      FoldOrder(u, d, d6, cdata);
    }

    /** The table engine is the CRC8 register. */
    method DoCrc8(x: bv8) returns (crc: bv8)
      modifies this`utilcrc8
      ensures utilcrc8 == crc && crc as bv16 == OverByte(Crc8, old(utilcrc8) as bv16, x)
    {
      hide *;
      TableStep8(utilcrc8, x);
      utilcrc8 := Table8(utilcrc8 ^ x);
      crc := utilcrc8;
    }
  }

  lemma TableStep8(c: bv8, x: bv8)
    ensures Table8(c ^ x) as bv16 == OverByte(Crc8, c as bv16, x)
  {
    hide Table8;
    TableIsCrc8(c ^ x);
    assert Plus(c as bv16, x as bv16) == Plus(0, (c ^ x) as bv16);
  }

  // ----- residues -----

  lemma SixteenOnes()
    ensures ShiftN(Crc16, 0xffff, 16) == 0xB001
  {
    ShiftNAdd(Crc16, 0xffff, 8, 8);
    Unroll8(Crc16, 0xffff);
    var half := Shift8(Crc16, 0xffff);
    Unroll8(Crc16, half);
  }

  /** The two bytes are the complement of the register value, low byte first. */
  predicate Complements(c: bv16, a: bv8, b: bv8) {
    a as bv16 == !c & 0xff && b as bv16 == !c >> 8
  }

  lemma ComplementSum(c: bv16, a: bv8, b: bv8)
    ensures Plus(c, Plus(a as bv16, (b as bv16) << 8)) == 0xffff <==> Complements(c, a, b)
  {}

  /** After a register value c, two more bytes leave 0xB001 exactly if they are the
      complement of c, low byte first. */
  lemma Residue16(c: bv16, a: bv8, b: bv8)
    ensures OverByte(Crc16, OverByte(Crc16, c, a), b) == 0xB001 <==> Complements(c, a, b)
  {
    hide Shift, Plus, ShiftN, OverByte, Complements;
    var v := Plus(c, Plus(a as bv16, (b as bv16) << 8));
    TwoBytes(c, a, b);
    SixteenOnes();
    ComplementSum(c, a, b);
    if ShiftN(Crc16, v, 16) == 0xB001 {
      ShiftNInjective(Crc16, v, 0xffff, 16);
    }
  }

  /** A message and two bytes give 0xB001 exactly if the bytes are the message's complemented CRC16. */
  lemma MessageResidue16(start: bv16, m: seq<bv8>, a: bv8, b: bv8)
    ensures OverBytes(Crc16, start, m + [a, b]) == 0xB001
        <==> Complements(OverBytes(Crc16, start, m), a, b)
  {
    hide Shift, Plus, ShiftN, OverByte, Complements;
    var c := OverBytes(Crc16, start, m);
    BytesAppend(Crc16, start, m, [a, b]);
    var d := OverByte(Crc16, c, a);
    assert OverBytes(Crc16, c, [a, b]) == OverBytes(Crc16, d, [b]) == OverByte(Crc16, d, b);
    Residue16(c, a, b);
  }

  /** A message and one byte give CRC8 zero exactly if the byte is the message's CRC8. */
  lemma MessageResidue8(m: seq<bv8>, a: bv8)
    ensures OverBytes(Crc8, 0, m + [a]) == 0 <==> a as bv16 == OverBytes(Crc8, 0, m)
  {
    hide Shift, Plus, ShiftN;
    var c := OverBytes(Crc8, 0, m);
    BytesAppend(Crc8, 0, m, [a]);
    BytesFit(Crc8, 0, m);
    assert OverBytes(Crc8, c, [a]) == OverByte(Crc8, c, a);
    FitsXor(Crc8, c, a as bv16);
    ShiftNNonzero(Crc8, Plus(c, a as bv16), 8);
  }
}
