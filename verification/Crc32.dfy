/**
 The table-driven CRC-32 and polynomial division.

 The generator is x^32 + x^26 + x^23 + x^22 + x^16 + x^12 + x^11 + x^10 + x^8 + x^7 + x^5 + x^4 + x^2 + x + 1, as in
 section 3.2.9 of IEEE 802.3; here the register starts at zero, and neither bits nor the result are reflected or
 inverted. Polynomials over GF(2) are sequences of coefficients, highest power first.
 */
module Crc32 {

  /** The generator without its leading term. */
  const POLY: bv32 := 0x04c1_1db7

  const TOP: bv32 := 0x8000_0000

  // ---------------------------------------------------------------- the table, in rows of sixteen

  function Table(b: bv8): bv32 {
    var k := b & 0x0f;
    match b >> 4
    case 0x0 => Row0(k)
    case 0x1 => Row1(k)
    case 0x2 => Row2(k)
    case 0x3 => Row3(k)
    case 0x4 => Row4(k)
    case 0x5 => Row5(k)
    case 0x6 => Row6(k)
    case 0x7 => Row7(k)
    case 0x8 => Row8(k)
    case 0x9 => Row9(k)
    case 0xa => RowA(k)
    case 0xb => RowB(k)
    case 0xc => RowC(k)
    case 0xd => RowD(k)
    case 0xe => RowE(k)
    case _ => RowF(k)
  }

  function Row0(k: bv8): bv32 {
    match k
    case 0x0 => 0x00000000 case 0x1 => 0x04c11db7 case 0x2 => 0x09823b6e case 0x3 => 0x0d4326d9
    case 0x4 => 0x130476dc case 0x5 => 0x17c56b6b case 0x6 => 0x1a864db2 case 0x7 => 0x1e475005
    case 0x8 => 0x2608edb8 case 0x9 => 0x22c9f00f case 0xa => 0x2f8ad6d6 case 0xb => 0x2b4bcb61
    case 0xc => 0x350c9b64 case 0xd => 0x31cd86d3 case 0xe => 0x3c8ea00a case _ => 0x384fbdbd
  }

  function Row1(k: bv8): bv32 {
    match k
    case 0x0 => 0x4c11db70 case 0x1 => 0x48d0c6c7 case 0x2 => 0x4593e01e case 0x3 => 0x4152fda9
    case 0x4 => 0x5f15adac case 0x5 => 0x5bd4b01b case 0x6 => 0x569796c2 case 0x7 => 0x52568b75
    case 0x8 => 0x6a1936c8 case 0x9 => 0x6ed82b7f case 0xa => 0x639b0da6 case 0xb => 0x675a1011
    case 0xc => 0x791d4014 case 0xd => 0x7ddc5da3 case 0xe => 0x709f7b7a case _ => 0x745e66cd
  }

  function Row2(k: bv8): bv32 {
    match k
    case 0x0 => 0x9823b6e0 case 0x1 => 0x9ce2ab57 case 0x2 => 0x91a18d8e case 0x3 => 0x95609039
    case 0x4 => 0x8b27c03c case 0x5 => 0x8fe6dd8b case 0x6 => 0x82a5fb52 case 0x7 => 0x8664e6e5
    case 0x8 => 0xbe2b5b58 case 0x9 => 0xbaea46ef case 0xa => 0xb7a96036 case 0xb => 0xb3687d81
    case 0xc => 0xad2f2d84 case 0xd => 0xa9ee3033 case 0xe => 0xa4ad16ea case _ => 0xa06c0b5d
  }

  function Row3(k: bv8): bv32 {
    match k
    case 0x0 => 0xd4326d90 case 0x1 => 0xd0f37027 case 0x2 => 0xddb056fe case 0x3 => 0xd9714b49
    case 0x4 => 0xc7361b4c case 0x5 => 0xc3f706fb case 0x6 => 0xceb42022 case 0x7 => 0xca753d95
    case 0x8 => 0xf23a8028 case 0x9 => 0xf6fb9d9f case 0xa => 0xfbb8bb46 case 0xb => 0xff79a6f1
    case 0xc => 0xe13ef6f4 case 0xd => 0xe5ffeb43 case 0xe => 0xe8bccd9a case _ => 0xec7dd02d
  }

  function Row4(k: bv8): bv32 {
    match k
    case 0x0 => 0x34867077 case 0x1 => 0x30476dc0 case 0x2 => 0x3d044b19 case 0x3 => 0x39c556ae
    case 0x4 => 0x278206ab case 0x5 => 0x23431b1c case 0x6 => 0x2e003dc5 case 0x7 => 0x2ac12072
    case 0x8 => 0x128e9dcf case 0x9 => 0x164f8078 case 0xa => 0x1b0ca6a1 case 0xb => 0x1fcdbb16
    case 0xc => 0x018aeb13 case 0xd => 0x054bf6a4 case 0xe => 0x0808d07d case _ => 0x0cc9cdca
  }

  function Row5(k: bv8): bv32 {
    match k
    case 0x0 => 0x7897ab07 case 0x1 => 0x7c56b6b0 case 0x2 => 0x71159069 case 0x3 => 0x75d48dde
    case 0x4 => 0x6b93dddb case 0x5 => 0x6f52c06c case 0x6 => 0x6211e6b5 case 0x7 => 0x66d0fb02
    case 0x8 => 0x5e9f46bf case 0x9 => 0x5a5e5b08 case 0xa => 0x571d7dd1 case 0xb => 0x53dc6066
    case 0xc => 0x4d9b3063 case 0xd => 0x495a2dd4 case 0xe => 0x44190b0d case _ => 0x40d816ba
  }

  function Row6(k: bv8): bv32 {
    match k
    case 0x0 => 0xaca5c697 case 0x1 => 0xa864db20 case 0x2 => 0xa527fdf9 case 0x3 => 0xa1e6e04e
    case 0x4 => 0xbfa1b04b case 0x5 => 0xbb60adfc case 0x6 => 0xb6238b25 case 0x7 => 0xb2e29692
    case 0x8 => 0x8aad2b2f case 0x9 => 0x8e6c3698 case 0xa => 0x832f1041 case 0xb => 0x87ee0df6
    case 0xc => 0x99a95df3 case 0xd => 0x9d684044 case 0xe => 0x902b669d case _ => 0x94ea7b2a
  }

  function Row7(k: bv8): bv32 {
    match k
    case 0x0 => 0xe0b41de7 case 0x1 => 0xe4750050 case 0x2 => 0xe9362689 case 0x3 => 0xedf73b3e
    case 0x4 => 0xf3b06b3b case 0x5 => 0xf771768c case 0x6 => 0xfa325055 case 0x7 => 0xfef34de2
    case 0x8 => 0xc6bcf05f case 0x9 => 0xc27dede8 case 0xa => 0xcf3ecb31 case 0xb => 0xcbffd686
    case 0xc => 0xd5b88683 case 0xd => 0xd1799b34 case 0xe => 0xdc3abded case _ => 0xd8fba05a
  }

  function Row8(k: bv8): bv32 {
    match k
    case 0x0 => 0x690ce0ee case 0x1 => 0x6dcdfd59 case 0x2 => 0x608edb80 case 0x3 => 0x644fc637
    case 0x4 => 0x7a089632 case 0x5 => 0x7ec98b85 case 0x6 => 0x738aad5c case 0x7 => 0x774bb0eb
    case 0x8 => 0x4f040d56 case 0x9 => 0x4bc510e1 case 0xa => 0x46863638 case 0xb => 0x42472b8f
    case 0xc => 0x5c007b8a case 0xd => 0x58c1663d case 0xe => 0x558240e4 case _ => 0x51435d53
  }

  function Row9(k: bv8): bv32 {
    match k
    case 0x0 => 0x251d3b9e case 0x1 => 0x21dc2629 case 0x2 => 0x2c9f00f0 case 0x3 => 0x285e1d47
    case 0x4 => 0x36194d42 case 0x5 => 0x32d850f5 case 0x6 => 0x3f9b762c case 0x7 => 0x3b5a6b9b
    case 0x8 => 0x0315d626 case 0x9 => 0x07d4cb91 case 0xa => 0x0a97ed48 case 0xb => 0x0e56f0ff
    case 0xc => 0x1011a0fa case 0xd => 0x14d0bd4d case 0xe => 0x19939b94 case _ => 0x1d528623
  }

  function RowA(k: bv8): bv32 {
    match k
    case 0x0 => 0xf12f560e case 0x1 => 0xf5ee4bb9 case 0x2 => 0xf8ad6d60 case 0x3 => 0xfc6c70d7
    case 0x4 => 0xe22b20d2 case 0x5 => 0xe6ea3d65 case 0x6 => 0xeba91bbc case 0x7 => 0xef68060b
    case 0x8 => 0xd727bbb6 case 0x9 => 0xd3e6a601 case 0xa => 0xdea580d8 case 0xb => 0xda649d6f
    case 0xc => 0xc423cd6a case 0xd => 0xc0e2d0dd case 0xe => 0xcda1f604 case _ => 0xc960ebb3
  }

  function RowB(k: bv8): bv32 {
    match k
    case 0x0 => 0xbd3e8d7e case 0x1 => 0xb9ff90c9 case 0x2 => 0xb4bcb610 case 0x3 => 0xb07daba7
    case 0x4 => 0xae3afba2 case 0x5 => 0xaafbe615 case 0x6 => 0xa7b8c0cc case 0x7 => 0xa379dd7b
    case 0x8 => 0x9b3660c6 case 0x9 => 0x9ff77d71 case 0xa => 0x92b45ba8 case 0xb => 0x9675461f
    case 0xc => 0x8832161a case 0xd => 0x8cf30bad case 0xe => 0x81b02d74 case _ => 0x857130c3
  }

  function RowC(k: bv8): bv32 {
    match k
    case 0x0 => 0x5d8a9099 case 0x1 => 0x594b8d2e case 0x2 => 0x5408abf7 case 0x3 => 0x50c9b640
    case 0x4 => 0x4e8ee645 case 0x5 => 0x4a4ffbf2 case 0x6 => 0x470cdd2b case 0x7 => 0x43cdc09c
    case 0x8 => 0x7b827d21 case 0x9 => 0x7f436096 case 0xa => 0x7200464f case 0xb => 0x76c15bf8
    case 0xc => 0x68860bfd case 0xd => 0x6c47164a case 0xe => 0x61043093 case _ => 0x65c52d24
  }

  function RowD(k: bv8): bv32 {
    match k
    case 0x0 => 0x119b4be9 case 0x1 => 0x155a565e case 0x2 => 0x18197087 case 0x3 => 0x1cd86d30
    case 0x4 => 0x029f3d35 case 0x5 => 0x065e2082 case 0x6 => 0x0b1d065b case 0x7 => 0x0fdc1bec
    case 0x8 => 0x3793a651 case 0x9 => 0x3352bbe6 case 0xa => 0x3e119d3f case 0xb => 0x3ad08088
    case 0xc => 0x2497d08d case 0xd => 0x2056cd3a case 0xe => 0x2d15ebe3 case _ => 0x29d4f654
  }

  function RowE(k: bv8): bv32 {
    match k
    case 0x0 => 0xc5a92679 case 0x1 => 0xc1683bce case 0x2 => 0xcc2b1d17 case 0x3 => 0xc8ea00a0
    case 0x4 => 0xd6ad50a5 case 0x5 => 0xd26c4d12 case 0x6 => 0xdf2f6bcb case 0x7 => 0xdbee767c
    case 0x8 => 0xe3a1cbc1 case 0x9 => 0xe760d676 case 0xa => 0xea23f0af case 0xb => 0xeee2ed18
    case 0xc => 0xf0a5bd1d case 0xd => 0xf464a0aa case 0xe => 0xf9278673 case _ => 0xfde69bc4
  }

  function RowF(k: bv8): bv32 {
    match k
    case 0x0 => 0x89b8fd09 case 0x1 => 0x8d79e0be case 0x2 => 0x803ac667 case 0x3 => 0x84fbdbd0
    case 0x4 => 0x9abc8bd5 case 0x5 => 0x9e7d9662 case 0x6 => 0x933eb0bb case 0x7 => 0x97ffad0c
    case 0x8 => 0xafb010b1 case 0x9 => 0xab710d06 case 0xa => 0xa6322bdf case 0xb => 0xa2f33668
    case 0xc => 0xbcb4666d case 0xd => 0xb8757bda case 0xe => 0xb5365d03 case _ => 0xb1f740b4
  }

  // ---------------------------------------------------------------- one bit at a time

  /** Addition of polynomials. */
  function Add(x: bv32, y: bv32): bv32 {
    x ^ y
  }

  function Up(x: bv32): bv32 {
    x << 1
  }

  function Down(x: bv32): bv32 {
    x >> 1
  }

  predicate HasTop(x: bv32) {
    x & TOP != 0
  }

  /** A byte in the top places of the register. */
  function Place(c: bv8): bv32 {
    (c as bv32) << 24
  }

  /** Multiplication by x, modulo the generator. */
  function Shift(x: bv32): bv32 {
    if HasTop(x) then Add(Up(x), POLY) else Up(x)
  }

  function ShiftN(x: bv32, n: nat): bv32
    decreases n
  {
    if n == 0 then x else ShiftN(Shift(x), n - 1)
  }

  function Shift8(x: bv32): bv32 {
    Shift(Shift(Shift(Shift(Shift(Shift(Shift(Shift(x))))))))
  }

  lemma Row0Entry(b: bv8)
    requires b >> 4 == 0
    ensures Table(b) == Shift8(Place(b))
  {
    assert b == b & 0x0f;
  }

  lemma Row1Entry(b: bv8)
    requires b >> 4 == 1
    ensures Table(b) == Shift8(Place(b))
  {
  }

  lemma Row2Entry(b: bv8)
    requires b >> 4 == 2
    ensures Table(b) == Shift8(Place(b))
  {
  }

  lemma Row3Entry(b: bv8)
    requires b >> 4 == 3
    ensures Table(b) == Shift8(Place(b))
  {
  }

  lemma Row4Entry(b: bv8)
    requires b >> 4 == 4
    ensures Table(b) == Shift8(Place(b))
  {
  }

  lemma Row5Entry(b: bv8)
    requires b >> 4 == 5
    ensures Table(b) == Shift8(Place(b))
  {
  }

  lemma Row6Entry(b: bv8)
    requires b >> 4 == 6
    ensures Table(b) == Shift8(Place(b))
  {
  }

  lemma Row7Entry(b: bv8)
    requires b >> 4 == 7
    ensures Table(b) == Shift8(Place(b))
  {
  }

  lemma Row8Entry(b: bv8)
    requires b >> 4 == 8
    ensures Table(b) == Shift8(Place(b))
  {
  }

  lemma Row9Entry(b: bv8)
    requires b >> 4 == 9
    ensures Table(b) == Shift8(Place(b))
  {
  }

  lemma RowAEntry(b: bv8)
    requires b >> 4 == 10
    ensures Table(b) == Shift8(Place(b))
  {
  }

  lemma RowBEntry(b: bv8)
    requires b >> 4 == 11
    ensures Table(b) == Shift8(Place(b))
  {
  }

  lemma RowCEntry(b: bv8)
    requires b >> 4 == 12
    ensures Table(b) == Shift8(Place(b))
  {
  }

  lemma RowDEntry(b: bv8)
    requires b >> 4 == 13
    ensures Table(b) == Shift8(Place(b))
  {
  }

  lemma RowEEntry(b: bv8)
    requires b >> 4 == 14
    ensures Table(b) == Shift8(Place(b))
  {
  }

  lemma RowFEntry(b: bv8)
    requires b >> 4 == 15
    ensures Table(b) == Shift8(Place(b))
  {
  }

  /** Every table entry is its index, eight bits on. */
  lemma TableEntry(b: bv8)
    ensures Table(b) == Shift8(Place(b))
  {
    hide Table, Shift8, Place;
    if b >> 4 == 0 { Row0Entry(b); } else if b >> 4 == 1 { Row1Entry(b); }
    else if b >> 4 == 2 { Row2Entry(b); } else if b >> 4 == 3 { Row3Entry(b); }
    else if b >> 4 == 4 { Row4Entry(b); } else if b >> 4 == 5 { Row5Entry(b); }
    else if b >> 4 == 6 { Row6Entry(b); } else if b >> 4 == 7 { Row7Entry(b); }
    else if b >> 4 == 8 { Row8Entry(b); } else if b >> 4 == 9 { Row9Entry(b); }
    else if b >> 4 == 10 { RowAEntry(b); } else if b >> 4 == 11 { RowBEntry(b); }
    else if b >> 4 == 12 { RowCEntry(b); } else if b >> 4 == 13 { RowDEntry(b); }
    else if b >> 4 == 14 { RowEEntry(b); } else { RowFEntry(b); }
  }

  lemma HasTopAdd(x: bv32, y: bv32)
    ensures HasTop(Add(x, y)) <==> HasTop(x) != HasTop(y)
  {
  }

  lemma UpAdd(x: bv32, y: bv32)
    ensures Up(Add(x, y)) == Add(Up(x), Up(y))
  {
  }

  lemma AddCommutes(x: bv32, y: bv32)
    ensures Add(x, y) == Add(y, x)
  {
  }

  lemma AddAssociates(x: bv32, y: bv32, z: bv32)
    ensures Add(Add(x, y), z) == Add(x, Add(y, z))
  {
  }

  lemma AddSelf(x: bv32)
    ensures Add(x, x) == 0 && Add(x, 0) == x && Add(0, x) == x
  {
  }

  lemma AddRules(x: bv32, y: bv32, z: bv32)
    ensures Add(x, y) == Add(y, x) && Add(Add(x, y), z) == Add(x, Add(y, z))
    ensures Add(x, x) == 0 && Add(x, 0) == x && Add(0, x) == x
  {
    hide Add;
    AddCommutes(x, y);
    AddAssociates(x, y, z);
    AddSelf(x);
  }

  lemma AddZero(x: bv32, y: bv32)
    requires Add(x, y) == 0
    ensures x == y
  {
  }

  lemma ShiftLinear(x: bv32, y: bv32)
    ensures Shift(Add(x, y)) == Add(Shift(x), Shift(y))
  {
    hide Add, Up, HasTop;
    HasTopAdd(x, y);
    UpAdd(x, y);
    AddRules(Up(x), Up(y), POLY);
    AddRules(Up(x), POLY, Up(y));
    AddRules(Up(x), POLY, Add(Up(y), POLY));
    AddRules(Up(y), POLY, POLY);
    AddRules(POLY, Up(y), POLY);
  }

  lemma {:induction false} ShiftNLinear(x: bv32, y: bv32, n: nat)
    ensures ShiftN(Add(x, y), n) == Add(ShiftN(x, n), ShiftN(y, n))
    decreases n
  {
    hide Shift, Add;
    if n > 0 {
      ShiftLinear(x, y);
      ShiftNLinear(Shift(x), Shift(y), n - 1);
    }
  }

  lemma {:induction false} ShiftNAdd(x: bv32, m: nat, n: nat)
    ensures ShiftN(x, m + n) == ShiftN(ShiftN(x, m), n)
    decreases m
  {
    hide Shift;
    if m > 0 { ShiftNAdd(Shift(x), m - 1, n); }
  }

  lemma ShiftNEight(x: bv32)
    ensures ShiftN(x, 8) == Shift8(x)
  {
    hide Shift;
    var y := Shift(Shift(Shift(Shift(x))));
    assert ShiftN(x, 4) == y by { assert ShiftN(x, 2) == Shift(Shift(x)); ShiftNAdd(x, 2, 2); }
    assert ShiftN(y, 4) == Shift8(x) by { assert ShiftN(y, 2) == Shift(Shift(y)); ShiftNAdd(y, 2, 2); }
    ShiftNAdd(x, 4, 4);
  }

  lemma Shift8Linear(x: bv32, y: bv32)
    ensures Shift8(Add(x, y)) == Add(Shift8(x), Shift8(y))
  {
    hide *;
    ShiftNEight(Add(x, y));
    ShiftNEight(x);
    ShiftNEight(y);
    ShiftNLinear(x, y, 8);
  }

  lemma ShiftZero(x: bv32)
    ensures Shift(x) == 0 <==> x == 0
  {
  }

  /** Only zero shifts to zero, since the generator has a constant term. */
  lemma {:induction false} ShiftNNonzero(x: bv32, n: nat)
    ensures ShiftN(x, n) == 0 <==> x == 0
    decreases n
  {
    hide Shift;
    if n > 0 {
      ShiftZero(x);
      ShiftNNonzero(Shift(x), n - 1);
    }
  }

  // ---------------------------------------------------------------- the byte loop

  /** The register after one more byte, by eight shifts. */
  function Next(crc: bv32, c: bv8): bv32 {
    Shift8(Add(crc, Place(c)))
  }

  function CrcFrom(crc: bv32, data: seq<bv8>): bv32
    decreases |data|
  {
    if data == [] then crc else CrcFrom(Next(crc, data[0]), data[1..])
  }

  /** The byte about to leave the register. */
  function Top8(crc: bv32): bv8 {
    (crc >> 24) as bv8
  }

  /** The step of the loop. */
  function TableNext(crc: bv32, c: bv8): bv32 {
    Add(Table(Top8(crc) ^ c), crc << 8)
  }

  /** The low 24 bits of the register. */
  function Low(crc: bv32): bv32 {
    crc & 0x00ff_ffff
  }

  /** The low 24 bits just move up. */
  lemma LowMoves(crc: bv32)
    ensures Shift8(Low(crc)) == crc << 8
  {
  }

  lemma PlaceTop(crc: bv32)
    ensures Add(Place(Top8(crc)), Low(crc)) == crc
  {
  }

  lemma PlaceXor(a: bv8, b: bv8)
    ensures Place(a ^ b) == Add(Place(a), Place(b))
  {
  }

  /** The step of the loop is eight shifts. */
  lemma TableStep(crc: bv32, c: bv8)
    ensures TableNext(crc, c) == Next(crc, c)
  {
    hide Table, Shift8, Place, Low, Add, Top8;
    TableEntry(Top8(crc) ^ c);
    LowMoves(crc);
    Shift8Linear(Place(Top8(crc) ^ c), Low(crc));
    PlaceTop(crc);
    PlaceXor(Top8(crc), c);
    AddRules(Place(Top8(crc)), Place(c), Low(crc));
    AddRules(Place(Top8(crc)), Low(crc), Place(c));
    AddRules(Place(c), Low(crc), Low(crc));
  }

  /** The table-driven loop computes the bit-serial register. */
  method GenerateCrc32(data: seq<bv8>) returns (crc: bv32)
    ensures crc == CrcFrom(0, data)
  {
    hide TableNext, Next, Table;
    crc := 0;
    for i := 0 to |data|
      invariant CrcFrom(crc, data[i..]) == CrcFrom(0, data)
    {
      TableStep(crc, data[i]);
      assert data[i..][1..] == data[i + 1..];
      crc := TableNext(crc, data[i]);
    }
  }

  method CheckCec32(data: seq<bv8>) returns (ok: bool)
    ensures ok <==> CrcFrom(0, data) == 0
  {
    hide CrcFrom;
    var crc := GenerateCrc32(data);
    ok := crc == 0;
  }

  // ---------------------------------------------------------------- registers and messages as bits

  function Shl(x: bv32, n: nat): bv32
    decreases n
  {
    if n == 0 then x else Shl(Up(x), n - 1)
  }

  lemma {:induction false} ShlAdd(x: bv32, m: nat, n: nat)
    ensures Shl(x, m + n) == Shl(Shl(x, m), n)
    decreases m
  {
    hide Up;
    if m > 0 { ShlAdd(Up(x), m - 1, n); }
  }

  function Up4(x: bv32): bv32 {
    Up(Up(Up(Up(x))))
  }

  lemma ShlFour(x: bv32)
    ensures Shl(x, 4) == Up4(x) && Shl(x, 3) == Up(Up(Up(x)))
  {
    hide Up;
    assert Shl(x, 2) == Up(Up(x));
    assert Shl(Up(Up(x)), 2) == Up4(x) && Shl(Up(Up(x)), 1) == Up(Up(Up(x)));
    ShlAdd(x, 2, 2);
    ShlAdd(x, 2, 1);
  }

  function Up16(x: bv32): bv32 {
    Up4(Up4(Up4(Up4(x))))
  }

  lemma ShlSixteen(x: bv32)
    ensures Shl(x, 16) == Up16(x) && Shl(x, 12) == Up4(Up4(Up4(x)))
  {
    hide Up4, Shl;
    ShlFour(x);
    ShlFour(Up4(x));
    ShlAdd(x, 4, 4);
    ShlFour(Up4(Up4(x)));
    ShlAdd(x, 8, 4);
    ShlFour(Up4(Up4(Up4(x))));
    ShlAdd(x, 12, 4);
  }

  lemma UpAll(x: bv32)
    ensures Up16(Up16(x)) == 0
    ensures Up(Up(Up(Up4(Up4(Up4(Up16(x))))))) == 0 ==> x & 1 == 0
  {
  }

  lemma ShlAll(x: bv32)
    ensures Shl(x, 32) == 0 && (Shl(x, 31) == 0 ==> x & 1 == 0)
  {
    hide Shl, Up16, Up4, Up;
    ShlSixteen(x);
    ShlSixteen(Up16(x));
    ShlAdd(x, 16, 16);
    ShlAdd(x, 16, 12);
    ShlFour(Up4(Up4(Up4(Up16(x)))));
    ShlAdd(x, 28, 3);
    UpAll(x);
  }

  /** The top `n` bits, highest first. */
  function Bits(x: bv32, n: nat): (s: seq<bool>)
    ensures |s| == n
    decreases n
  {
    if n == 0 then [] else [HasTop(x)] + Bits(Up(x), n - 1)
  }

  function TopIf(b: bool): bv32 {
    if b then TOP else 0
  }

  /** The bits in the top places of a register. */
  function FromBits(w: seq<bool>): bv32 {
    if w == [] then 0 else Add(TopIf(w[0]), Down(FromBits(w[1..])))
  }

  lemma {:induction false} ShlZero(n: nat)
    ensures Shl(0, n) == 0
  {
    if n > 0 { ShlZero(n - 1); }
  }

  lemma DownUp(x: bv32)
    requires x & 1 == 0
    ensures Up(Down(x)) == x
  {
  }

  /** A register whose bits end before the lowest one. */
  lemma LowBitClear(x: bv32, n: nat)
    requires n <= 31 && Shl(x, n) == 0
    ensures Up(Down(x)) == x
  {
    hide Shl, Up, Down;
    ShlAdd(x, n, 31 - n);
    ShlZero(31 - n);
    ShlAll(x);
    DownUp(x);
  }

  lemma UnderTop(a: bv32, b: bool)
    ensures Up(Add(TopIf(b), Down(a))) == Up(Down(a)) && (HasTop(Add(TopIf(b), Down(a))) <==> b)
  {
  }

  lemma TopGone(x: bv32)
    ensures (x << 1) >> 1 == x & 0x7fff_ffff
  {
  }

  lemma TopPart(x: bv32)
    ensures (x & TOP) ^ (x & 0x7fff_ffff) == x && (x & TOP == 0 || x & TOP == TOP)
  {
  }

  lemma TopAndRest(x: bv32)
    ensures Add(TopIf(HasTop(x)), Down(Up(x))) == x
  {
    TopGone(x);
    TopPart(x);
    assert TopIf(HasTop(x)) == x & TOP;
  }

  lemma {:induction false} FromBitsEnds(w: seq<bool>)
    requires |w| <= 32
    ensures Shl(FromBits(w), |w|) == 0
    ensures w != [] ==> Up(FromBits(w)) == FromBits(w[1..]) && (HasTop(FromBits(w)) <==> w[0])
  {
    hide Up, Down, Add, HasTop, TopIf;
    if w != [] {
      var a := FromBits(w[1..]);
      FromBitsEnds(w[1..]);
      LowBitClear(a, |w| - 1);
      UnderTop(a, w[0]);
    }
  }

  lemma {:induction false} BitsOfFromBits(w: seq<bool>)
    requires |w| <= 32
    ensures Bits(FromBits(w), |w|) == w
  {
    hide Up, FromBits, HasTop;
    if w != [] {
      FromBitsEnds(w);
      BitsOfFromBits(w[1..]);
      assert w == [w[0]] + w[1..];
    }
  }

  lemma {:induction false} FromBitsOfBits(x: bv32, n: nat)
    requires n <= 32 && Shl(x, n) == 0
    ensures FromBits(Bits(x, n)) == x
    decreases n
  {
    hide Up, Down, Add, HasTop, TopIf;
    if n > 0 {
      FromBitsOfBits(Up(x), n - 1);
      assert Bits(x, n)[1..] == Bits(Up(x), n - 1);
      TopAndRest(x);
    }
  }

  lemma RegisterBits(x: bv32)
    ensures FromBits(Bits(x, 32)) == x
  {
    ShlAll(x);
    FromBitsOfBits(x, 32);
  }

  /** The bits of a message, the highest of each byte first. */
  function ByteBits(c: bv8): (s: seq<bool>)
    ensures |s| == 8
  {
    Bits(Place(c), 8)
  }

  function MessageBits(data: seq<bv8>): (s: seq<bool>)
    ensures |s| == 8 * |data|
  {
    if data == [] then [] else ByteBits(data[0]) + MessageBits(data[1..])
  }

  lemma PlaceUp(c: bv8)
    ensures Up4(Up4(Place(c))) == 0
  {
  }

  lemma ByteBitsBack(c: bv8)
    ensures FromBits(ByteBits(c)) == Place(c)
  {
    hide Up4, Place, Bits, FromBits, Shl;
    ShlFour(Place(c));
    ShlFour(Up4(Place(c)));
    ShlAdd(Place(c), 4, 4);
    PlaceUp(c);
    FromBitsOfBits(Place(c), 8);
  }

  /** The register, fed bit by bit. */
  function CrcBits(x: bv32, w: seq<bool>): bv32
    decreases |w|
  {
    if w == [] then x else CrcBits(Shift(Add(x, TopIf(w[0]))), w[1..])
  }

  lemma {:induction false} CrcBitsAppend(x: bv32, v: seq<bool>, w: seq<bool>)
    ensures CrcBits(x, v + w) == CrcBits(CrcBits(x, v), w)
    decreases |v|
  {
    hide Shift, Add, TopIf;
    if v == [] {
      assert v + w == w;
    } else {
      assert (v + w)[1..] == v[1..] + w;
      CrcBitsAppend(Shift(Add(x, TopIf(v[0]))), v[1..], w);
    }
  }

  lemma ShiftDown(x: bv32)
    requires Up(Down(x)) == x
    ensures Shift(Down(x)) == x
  {
  }

  /** Up to 32 bits can be added all at once. */
  lemma {:induction false} AtOnce(x: bv32, w: seq<bool>)
    requires |w| <= 32
    ensures CrcBits(x, w) == ShiftN(Add(x, FromBits(w)), |w|)
    decreases |w|
  {
    hide Shift, Add, TopIf, Down, Up;
    if w == [] {
      AddSelf(x);
    } else {
      var a := FromBits(w[1..]);
      var t := TopIf(w[0]);
      FromBitsEnds(w[1..]);
      LowBitClear(a, |w| - 1);
      ShiftDown(a);
      AddAssociates(x, t, Down(a));
      ShiftLinear(Add(x, t), Down(a));
      AtOnce(Shift(Add(x, t)), w[1..]);
    }
  }

  /** The byte loop and the bit loop agree. */
  lemma {:induction false} BytesAreBits(crc: bv32, data: seq<bv8>)
    ensures CrcFrom(crc, data) == CrcBits(crc, MessageBits(data))
    decreases |data|
  {
    hide Shift8, ShiftN, FromBits, CrcBits, ByteBits, Place, Add;
    if data == [] {
      NoBits(crc);
    } else {
      var c := data[0];
      AtOnce(crc, ByteBits(c));
      ByteBitsBack(c);
      ShiftNEight(Add(crc, Place(c)));
      CrcBitsAppend(crc, ByteBits(c), MessageBits(data[1..]));
      BytesAreBits(Next(crc, c), data[1..]);
    }
  }

  lemma NoBits(x: bv32)
    ensures CrcBits(x, []) == x
  {
  }

  // ---------------------------------------------------------------- linearity and bursts

  function Xor(a: seq<bool>, b: seq<bool>): (c: seq<bool>)
    requires |a| == |b|
    ensures |c| == |a|
    ensures forall i :: 0 <= i < |a| ==> c[i] == (a[i] != b[i])
  {
    if a == [] then [] else [a[0] != b[0]] + Xor(a[1..], b[1..])
  }

  function Zeros(n: nat): (z: seq<bool>)
    ensures |z| == n && forall i :: 0 <= i < n ==> !z[i]
  {
    seq(n, _ => false)
  }

  lemma TopIfXor(a: bool, b: bool)
    ensures TopIf(a != b) == Add(TopIf(a), TopIf(b))
  {
  }

  lemma AddSwap(x: bv32, y: bv32, s: bv32, t: bv32)
    ensures Add(Add(x, y), Add(s, t)) == Add(Add(x, s), Add(y, t))
  {
    hide Add;
    AddAssociates(x, y, Add(s, t));
    AddAssociates(y, s, t);
    AddCommutes(y, s);
    AddAssociates(s, y, t);
    AddAssociates(x, s, Add(y, t));
  }

  /** The register is linear in its start and in the message together. */
  lemma {:induction false} CrcBitsLinear(x: bv32, y: bv32, v: seq<bool>, w: seq<bool>)
    requires |v| == |w|
    ensures CrcBits(Add(x, y), Xor(v, w)) == Add(CrcBits(x, v), CrcBits(y, w))
    decreases |v|
  {
    hide Shift, Add, TopIf;
    if v != [] {
      var s, t := TopIf(v[0]), TopIf(w[0]);
      TopIfXor(v[0], w[0]);
      AddSwap(x, y, s, t);
      ShiftLinear(Add(x, s), Add(y, t));
      assert Xor(v, w)[1..] == Xor(v[1..], w[1..]);
      CrcBitsLinear(Shift(Add(x, s)), Shift(Add(y, t)), v[1..], w[1..]);
    }
  }

  lemma {:induction false} CrcBitsZeros(x: bv32, n: nat)
    ensures CrcBits(x, Zeros(n)) == ShiftN(x, n)
    decreases n
  {
    hide Shift;
    if n > 0 {
      assert Zeros(n)[1..] == Zeros(n - 1);
      AddSelf(x);
      CrcBitsZeros(Shift(x), n - 1);
    }
  }

  lemma {:induction false} FromBitsNonzero(w: seq<bool>)
    requires |w| <= 32
    ensures FromBits(w) == 0 ==> w == Zeros(|w|)
  {
    hide FromBits;
    if FromBits(w) == 0 {
      BitsOfFromBits(w);
      BitsZero(|w|);
    }
  }

  lemma {:induction false} BitsZero(n: nat)
    ensures Bits(0, n) == Zeros(n)
  {
    if n > 0 { BitsZero(n - 1); }
  }

  lemma {:induction false} SomeBit(d: seq<bool>) returns (i: nat)
    requires d != Zeros(|d|)
    ensures i < |d| && d[i]
  {
    assert exists k :: 0 <= k < |d| && d[k];
    i :| i < |d| && d[i];
  }

  /** An error pattern within 32 consecutive bits leaves a non-zero register. */
  lemma BurstCaught(d: seq<bool>, from: nat)
    requires from <= |d| && d != Zeros(|d|)
    requires forall i :: 0 <= i < |d| && (i < from || i >= from + 32) ==> !d[i]
    ensures CrcBits(0, d) != 0
  {
    hide CrcBits, ShiftN, FromBits;
    var end := if from + 32 <= |d| then from + 32 else |d|;
    var w, after: nat := d[from..end], |d| - end;
    assert d == Zeros(from) + (w + Zeros(after));
    var i := SomeBit(d);
    assert w[i - from];
    CrcBitsAppend(0, Zeros(from), w + Zeros(after));
    CrcBitsZeros(0, from);
    ShiftNNonzero(0, from);
    CrcBitsAppend(0, w, Zeros(after));
    CrcBitsZeros(CrcBits(0, w), after);
    ShiftNNonzero(CrcBits(0, w), after);
    AtOnce(0, w);
    AddSelf(FromBits(w));
    ShiftNNonzero(FromBits(w), |w|);
    FromBitsNonzero(w);
  }

  /** Messages of one length that differ, but only within 32 consecutive bits, have different checksums. */
  lemma BurstDetected(a: seq<bv8>, b: seq<bv8>, from: nat)
    requires |a| == |b| && a != b && from <= 8 * |a|
    requires forall i :: 0 <= i < 8 * |a| && (i < from || i >= from + 32) ==> MessageBits(a)[i] == MessageBits(b)[i]
    ensures CrcFrom(0, a) != CrcFrom(0, b)
  {
    hide CrcBits, CrcFrom, MessageBits;
    var v, w := MessageBits(a), MessageBits(b);
    var d := Xor(v, w);
    if d == Zeros(|d|) {
      SameBits(v, w);
      MessageBitsInjective(a, b);
    }
    BurstCaught(d, from);
    BytesAreBits(0, a);
    BytesAreBits(0, b);
    AddSelf(0);
    CrcBitsLinear(0, 0, v, w);
    AddSelf(CrcFrom(0, a));
  }

  lemma SameBits(v: seq<bool>, w: seq<bool>)
    requires |v| == |w| && Xor(v, w) == Zeros(|v|)
    ensures v == w
  {
    forall i | 0 <= i < |v| ensures v[i] == w[i] {
      assert !Xor(v, w)[i];
    }
  }

  lemma PlaceInjective(a: bv8, b: bv8)
    requires Place(a) == Place(b)
    ensures a == b
  {
  }

  lemma {:induction false} MessageBitsInjective(a: seq<bv8>, b: seq<bv8>)
    requires |a| == |b| && MessageBits(a) == MessageBits(b)
    ensures a == b
    decreases |a|
  {
    hide ByteBits, Place;
    if a != [] {
      var v, w := MessageBits(a), MessageBits(b);
      assert ByteBits(a[0]) == v[..8] == w[..8] == ByteBits(b[0]);
      ByteBitsBack(a[0]);
      ByteBitsBack(b[0]);
      PlaceInjective(a[0], b[0]);
      assert MessageBits(a[1..]) == v[8..] == w[8..] == MessageBits(b[1..]);
      MessageBitsInjective(a[1..], b[1..]);
    }
  }

  // ---------------------------------------------------------------- a message followed by its checksum

  /** The checksum in network byte order. */
  function CrcBytes(crc: bv32): (s: seq<bv8>)
    ensures |s| == 4
  {
    [Top8(crc), Top8(crc << 8), Top8(crc << 16), Top8(crc << 24)]
  }

  /** A byte equal to the top of the register cancels it. */
  lemma Cancel(x: bv32)
    ensures Next(x, Top8(x)) == x << 8
  {
    hide Shift8;
    assert Add(x, Place(Top8(x))) == Low(x);
    LowMoves(x);
  }

  lemma EightsUp(x: bv32)
    ensures (x << 8) << 8 == x << 16 && (x << 16) << 8 == x << 24 && (x << 24) << 8 == 0
  {
  }

  lemma CancelsAll(crc: bv32)
    ensures CrcFrom(crc, CrcBytes(crc)) == 0
  {
    hide Next, Top8;
    var s := CrcBytes(crc);
    EightsUp(crc);
    Cancel(crc);
    Cancel(crc << 8);
    Cancel(crc << 16);
    Cancel(crc << 24);
    CrcFour(crc, s[0], s[1], s[2], s[3]);
  }

  lemma CrcFour(crc: bv32, a: bv8, b: bv8, c: bv8, d: bv8)
    ensures CrcFrom(crc, [a, b, c, d]) == Next(Next(Next(Next(crc, a), b), c), d)
  {
    hide Next;
    assert [a, b, c, d][1..] == [b, c, d] && [b, c, d][1..] == [c, d] && [c, d][1..] == [d] && [d][1..] == [];
    assert CrcFrom(crc, [a, b, c, d]) == CrcFrom(Next(crc, a), [b, c, d]);
    assert CrcFrom(Next(crc, a), [b, c, d]) == CrcFrom(Next(Next(crc, a), b), [c, d]);
    var x := Next(Next(crc, a), b);
    assert CrcFrom(x, [c, d]) == CrcFrom(Next(x, c), [d]) == Next(Next(x, c), d);
  }

  lemma {:induction false} CrcFromAppend(crc: bv32, a: seq<bv8>, b: seq<bv8>)
    ensures CrcFrom(crc, a + b) == CrcFrom(CrcFrom(crc, a), b)
    decreases |a|
  {
    hide Next;
    if a == [] {
      assert a + b == b;
    } else {
      assert (a + b)[1..] == a[1..] + b;
      CrcFromAppend(Next(crc, a[0]), a[1..], b);
    }
  }

  /** Four bytes after a message make it check exactly when they are its checksum in network byte order. */
  lemma ChecksExactly(data: seq<bv8>, tail: seq<bv8>)
    requires |tail| == 4
    ensures CrcFrom(0, data + tail) == 0 <==> tail == CrcBytes(CrcFrom(0, data))
  {
    hide CrcFrom, CrcBytes;
    var crc := CrcFrom(0, data);
    CrcFromAppend(0, data, tail);
    CancelsAll(crc);
    if CrcFrom(crc, tail) == 0 {
      TailIsRegister(crc, tail);
      TailIsRegister(crc, CrcBytes(crc));
      BitsOfFromBits(MessageBits(tail));
      BitsOfFromBits(MessageBits(CrcBytes(crc)));
      MessageBitsInjective(tail, CrcBytes(crc));
    }
  }

  lemma TailIsRegister(crc: bv32, tail: seq<bv8>)
    requires |tail| == 4 && CrcFrom(crc, tail) == 0
    ensures FromBits(MessageBits(tail)) == crc
  {
    hide CrcFrom, CrcBits, ShiftN, FromBits, MessageBits, Add;
    var w := MessageBits(tail);
    BytesAreBits(crc, tail);
    AtOnce(crc, w);
    ShiftNNonzero(Add(crc, FromBits(w)), 32);
    AddZero(crc, FromBits(w));
  }

  // ---------------------------------------------------------------- long division

  /** One step of long division: the next coefficient comes down, and the generator is subtracted if it goes. */
  function DivideStep(reg: bv32, b: bool): bv32 {
    var low: bv32 := if b then 1 else 0;
    Add(Shift(reg), low)
  }

  /** The remainder of a polynomial by the generator, from a partial remainder on. */
  function Remainder(reg: bv32, bits: seq<bool>): bv32
    decreases |bits|
  {
    if bits == [] then reg else Remainder(DivideStep(reg, bits[0]), bits[1..])
  }

  lemma {:induction false} RemainderZeros(reg: bv32, n: nat)
    ensures Remainder(reg, Zeros(n)) == ShiftN(reg, n)
    decreases n
  {
    hide Shift;
    if n > 0 {
      assert Zeros(n)[1..] == Zeros(n - 1);
      AddSelf(Shift(reg));
      RemainderZeros(Shift(reg), n - 1);
    }
  }

  /** One shifted 32 times is the generator's tail; so is the top bit shifted once. */
  lemma OneAround()
    ensures ShiftN(1, 32) == POLY == Shift(TOP)
  {
    OneUp();
    ShiftNAdd(1, 24, 8);
    ShiftNAdd(1, 16, 8);
    ShiftNAdd(1, 8, 8);
    ShiftNEight(1);
    ShiftNEight(0x100);
    ShiftNEight(0x1_0000);
    ShiftNEight(0x100_0000);
  }

  lemma OneUp()
    ensures Shift8(1) == 0x100 && Shift8(0x100) == 0x1_0000 && Shift8(0x1_0000) == 0x100_0000
    ensures Shift8(0x100_0000) == POLY && Shift(TOP) == POLY
  {
  }

  lemma ZeroShifts(n: nat)
    ensures ShiftN(0, n) == 0 && Shift(0) == 0
  {
    ShiftNNonzero(0, n);
  }

  /** Feeding bits at the top is dividing the message with 32 zeros after it. */
  lemma {:induction false} RegisterDivides(reg: bv32, bits: seq<bool>)
    ensures CrcBits(ShiftN(reg, 32), bits) == Remainder(reg, bits + Zeros(32))
    decreases |bits|
  {
    hide Shift, Add, TopIf, ShiftN, DivideStep;
    if bits == [] {
      assert bits + Zeros(32) == Zeros(32);
      RemainderZeros(reg, 32);
    } else {
      assert (bits + Zeros(32))[1..] == bits[1..] + Zeros(32);
      StepsAgree(reg, bits[0]);
      RegisterDivides(DivideStep(reg, bits[0]), bits[1..]);
    }
  }

  lemma StepsAgree(reg: bv32, b: bool)
    ensures Shift(Add(ShiftN(reg, 32), TopIf(b))) == ShiftN(DivideStep(reg, b), 32)
  {
    hide Shift, Add, ShiftN;
    var low: bv32 := if b then 1 else 0;
    ShiftLinear(ShiftN(reg, 32), TopIf(b));
    ShiftNLinear(Shift(reg), low, 32);
    OneAround();
    ZeroShifts(32);
    OneMoreShift(reg);
  }

  lemma OneMoreShift(reg: bv32)
    ensures Shift(ShiftN(reg, 32)) == ShiftN(Shift(reg), 32)
  {
    hide Shift;
    ShiftNAdd(reg, 32, 1);
    assert ShiftN(ShiftN(reg, 32), 1) == Shift(ShiftN(reg, 32));
    assert ShiftN(reg, 33) == ShiftN(Shift(reg), 32);
  }

  /** The checksum is the remainder of the message times x^32. */
  lemma CrcIsRemainder(data: seq<bv8>)
    ensures CrcFrom(0, data) == Remainder(0, MessageBits(data) + Zeros(32))
  {
    hide CrcFrom, CrcBits, Remainder, ShiftN;
    ZeroShifts(32);
    BytesAreBits(0, data);
    RegisterDivides(0, MessageBits(data));
  }

  // ---------------------------------------------------------------- quotient and remainder

  function Generator(): (g: seq<bool>)
    ensures |g| == 33 && g[0]
  {
    [true] + Bits(POLY, 32)
  }

  function GeneratorIf(c: bool): (g: seq<bool>)
    ensures |g| == 33 && g[0] == c
  {
    if c then Generator() else Zeros(33)
  }

  /** The product of a polynomial and the generator, coefficient by coefficient. */
  function Times(q: seq<bool>): (p: seq<bool>)
    ensures |p| == |q| + 32
    decreases |q|
  {
    if q == [] then Zeros(32)
    else Xor(Times(q[..|q| - 1]) + [false], Zeros(|q| - 1) + GeneratorIf(q[|q| - 1]))
  }

  /** `bits`, as a polynomial, is `q` times the generator plus `reg`. */
  ghost predicate Divides(bits: seq<bool>, q: seq<bool>, reg: bv32) {
    |q| == |bits| && Zeros(32) + bits == Xor(Times(q), Zeros(|q|) + Bits(reg, 32))
  }

  lemma {:induction false} BitsAppend(x: bv32, m: nat, n: nat)
    ensures Bits(x, m + n) == Bits(x, m) + Bits(Shl(x, m), n)
    decreases m
  {
    hide Up, HasTop;
    if m > 0 { BitsAppend(Up(x), m - 1, n); }
  }

  lemma {:induction false} BitsXor(x: bv32, y: bv32, n: nat)
    ensures Bits(Add(x, y), n) == Xor(Bits(x, n), Bits(y, n))
    decreases n
  {
    hide Up, HasTop, Add;
    if n > 0 {
      HasTopAdd(x, y);
      UpAdd(x, y);
      BitsXor(Up(x), Up(y), n - 1);
      assert Bits(x, n)[1..] == Bits(Up(x), n - 1) && Bits(y, n)[1..] == Bits(Up(y), n - 1);
    }
  }

  lemma BitsUp(x: bv32)
    ensures Bits(x, 32)[0] == HasTop(x)
    ensures Bits(Up(x), 32) == Bits(x, 32)[1..] + [false]
  {
    hide Up, HasTop, Shl;
    BitsAppend(x, 32, 1);
    ShlAll(x);
    NoTop();
    assert Bits(0, 1) == [HasTop(0)] + Bits(Up(0), 0);
    assert Bits(x, 33) == [HasTop(x)] + Bits(Up(x), 32);
    assert Bits(x, 33)[1..] == Bits(Up(x), 32);
  }

  lemma NoTop()
    ensures !HasTop(0) && !HasTop(1) && !HasTop(2) && Up(1) == 2
  {
  }

  /** Only the lowest coefficient of one is set. */
  lemma OneBits()
    ensures Bits(1, 32) == Zeros(31) + [true]
  {
    hide Up, HasTop, Shl;
    var w := Zeros(31) + [true];
    BitsOfFromBits(w);
    OneFromBits(31);
    ZerosThenOne();
  }

  /** A one after `n` zeros. */
  function Single(n: nat): bv32 {
    if n == 0 then TOP else Down(Single(n - 1))
  }

  lemma {:induction false} OneFromBits(n: nat)
    ensures FromBits(Zeros(n) + [true]) == Single(n)
  {
    hide Down, Add, TopIf;
    var w := Zeros(n) + [true];
    NothingOnTop(FromBits(w[1..]));
    if n == 0 {
      assert w[1..] == [] && w[0];
    } else {
      assert w[1..] == Zeros(n - 1) + [true] && !w[0];
      OneFromBits(n - 1);
    }
  }

  lemma NothingOnTop(x: bv32)
    ensures Add(TopIf(false), Down(x)) == Down(x) && Add(TopIf(true), Down(0)) == TOP
  {
  }

  function Down4(x: bv32): bv32 {
    Down(Down(Down(Down(x))))
  }

  lemma SingleFour(n: nat)
    ensures Single(n + 4) == Down4(Single(n)) && Single(n + 3) == Down(Down(Down(Single(n))))
  {
    hide Down;
    assert Single(n + 2) == Down(Down(Single(n)));
  }

  lemma ZerosThenOne()
    ensures Single(31) == 1
  {
    hide Single, Down, Down4;
    SingleFour(0);
    SingleFour(4);
    SingleFour(8);
    SingleFour(12);
    SingleFour(16);
    SingleFour(20);
    SingleFour(24);
    SingleFour(28);
    SingleStart();
    DownAll();
  }

  lemma SingleStart()
    ensures Single(0) == TOP
  {
  }

  lemma DownAll()
    ensures Down(Down(Down(Down4(Down4(Down4(Down4(Down4(Down4(Down4(TOP)))))))))) == 1
  {
  }

  /** The lowest coefficient of a register, which is even, set or not. */
  lemma LowBits(x: bv32, b: bool)
    ensures var low: bv32 := if b then 1 else 0;
      Bits(Add(Up(x), low), 32) == Bits(x, 32)[1..] + [b]
  {
    hide Bits, Up, Add, HasTop;
    BitsUp(x);
    var r := Bits(x, 32)[1..];
    if b {
      BitsXor(Up(x), 1, 32);
      OneBits();
      assert Xor(r + [false], Zeros(31) + [true]) == r + [true];
    } else {
      AddSelf(Up(x));
    }
  }

  /** The remainder after one step, with the generator put back where it was subtracted. */
  lemma DivideBits(reg: bv32, b: bool)
    ensures Xor(GeneratorIf(HasTop(reg)), [false] + Bits(DivideStep(reg, b), 32)) == Bits(reg, 32) + [b]
  {
    hide Bits, Up, Add, HasTop, Xor, Zeros;
    var low: bv32 := if b then 1 else 0;
    var r := Bits(reg, 32)[1..] + [b];
    BitsUp(reg);
    LowBits(reg, b);
    assert Bits(reg, 32) + [b] == [HasTop(reg)] + r;
    if HasTop(reg) {
      AddAssociates(Up(reg), POLY, low);
      AddCommutes(POLY, low);
      AddAssociates(Up(reg), low, POLY);
      BitsXor(Add(Up(reg), low), POLY, 32);
      assert Xor(Generator(), [false] + Xor(r, Bits(POLY, 32))) == [true] + r;
    } else {
      assert Xor(Zeros(33), [false] + r) == [false] + r;
    }
  }

  lemma XorMiddle(a: seq<bool>, t: seq<bool>, n: nat, g: seq<bool>, d: seq<bool>, r: seq<bool>)
    requires |t| == n + 33 && |a| == n + 33 && |g| == |d| == |r| == 33 && Xor(g, d) == r
    requires a == Xor(t, Zeros(n) + r)
    ensures a == Xor(Xor(t, Zeros(n) + g), Zeros(n) + d)
  {
    hide Xor, Zeros;
    forall k | 0 <= k < |a| ensures a[k] == Xor(Xor(t, Zeros(n) + g), Zeros(n) + d)[k] {
      if k >= n { assert r[k - n] == (g[k - n] != d[k - n]); }
    }
  }

  lemma DivideOneMore(bits: seq<bool>, q: seq<bool>, reg: bv32, b: bool)
    requires Divides(bits, q, reg)
    ensures Divides(bits + [b], q + [HasTop(reg)], DivideStep(reg, b))
  {
    hide Bits, HasTop, DivideStep, GeneratorIf, Xor, Zeros;
    var n, c, reg' := |q|, HasTop(reg), DivideStep(reg, b);
    var q', r, d := q + [c], Bits(reg, 32) + [b], [false] + Bits(reg', 32);
    DivideBits(reg, b);
    var a := Zeros(32) + (bits + [b]);
    assert a == (Zeros(32) + bits) + [b];
    assert a == Xor(Times(q) + [false], Zeros(n) + r);
    XorMiddle(a, Times(q) + [false], n, GeneratorIf(c), d, r);
    assert q'[..n] == q && q'[n] == c;
    assert Times(q') == Xor(Times(q) + [false], Zeros(n) + GeneratorIf(c));
    assert Zeros(n) + d == Zeros(n + 1) + Bits(reg', 32);
  }

  /** Long division gives a quotient and this remainder. */
  lemma {:induction false} LongDivision(done: seq<bool>, q: seq<bool>, reg: bv32, bits: seq<bool>)
    returns (q': seq<bool>)
    requires Divides(done, q, reg)
    ensures Divides(done + bits, q', Remainder(reg, bits))
    decreases |bits|
  {
    hide Divides, HasTop, DivideStep;
    if bits == [] {
      assert done + bits == done;
      q' := q;
    } else {
      DivideOneMore(done, q, reg, bits[0]);
      q' := LongDivision(done + [bits[0]], q + [HasTop(reg)], DivideStep(reg, bits[0]), bits[1..]);
      assert done + [bits[0]] + bits[1..] == done + bits;
    }
  }

  /** The leading coefficients of a product determine the factor. */
  lemma {:induction false} FactorUnique(q: seq<bool>, q': seq<bool>)
    requires |q| == |q'| && forall k :: 0 <= k < |q| ==> Times(q)[k] == Times(q')[k]
    ensures q == q'
    decreases |q|
  {
    hide Xor, Zeros, Bits, GeneratorIf;
    if q != [] {
      var n := |q| - 1;
      var t, t' := Times(q[..n]), Times(q'[..n]);
      assert forall k :: 0 <= k < n ==> Times(q)[k] == t[k] && Times(q')[k] == t'[k];
      FactorUnique(q[..n], q'[..n]);
      assert Times(q)[n] == ((t + [false])[n] != q[n]) && Times(q')[n] == ((t' + [false])[n] != q'[n]);
      assert q == q[..n] + [q[n]] && q' == q'[..n] + [q'[n]];
    }
  }

  /** A polynomial has only one quotient and remainder. */
  lemma DivisionUnique(bits: seq<bool>, q: seq<bool>, reg: bv32, q': seq<bool>, reg': bv32)
    requires Divides(bits, q, reg) && Divides(bits, q', reg')
    ensures q == q' && reg == reg'
  {
    hide Bits, Times, Xor, Zeros;
    var n, s := |q|, Zeros(32) + bits;
    var e, e' := Zeros(n) + Bits(reg, 32), Zeros(n) + Bits(reg', 32);
    assert forall k :: 0 <= k < n ==> s[k] == (Times(q)[k] != e[k]) && s[k] == (Times(q')[k] != e'[k]);
    FactorUnique(q, q');
    forall k | 0 <= k < 32 ensures Bits(reg, 32)[k] == Bits(reg', 32)[k] {
      assert s[n + k] == (Times(q)[n + k] != e[n + k]) && s[n + k] == (Times(q')[n + k] != e'[n + k]);
    }
    assert Bits(reg, 32) == Bits(reg', 32);
    RegisterBits(reg);
    RegisterBits(reg');
  }

  /** The checksum is the one remainder of the message times x^32 by the generator. */
  lemma CrcIsTheRemainder(data: seq<bv8>, crc: bv32)
    ensures (exists q :: Divides(MessageBits(data) + Zeros(32), q, crc)) <==> crc == CrcFrom(0, data)
  {
    hide Divides, CrcFrom, Remainder, MessageBits;
    var bits := MessageBits(data) + Zeros(32);
    DividesNothing();
    var q := LongDivision([], [], 0, bits);
    assert [] + bits == bits;
    CrcIsRemainder(data);
    if p :| Divides(bits, p, crc) {
      DivisionUnique(bits, p, crc, q, CrcFrom(0, data));
    }
  }

  lemma DividesNothing()
    ensures Divides([], [], 0)
  {
    BitsZero(32);
  }
}
