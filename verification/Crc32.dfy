/** lib/crc.c, cavan_crc32: the CRC of RFC 1952, section 8, least significant bit first. */
module Crc32 {
  import opened Crc

  const POLYNOMIAL: bv32 := 0xEDB88320

  /** The table, sixteen entries to a row. */
  function Table(i: bv8): bv32 {
    match i >> 4
    case 0 =>
      (match i & 15
       case 0 => 0x00000000 case 1 => 0x77073096 case 2 => 0xee0e612c case 3 => 0x990951ba
       case 4 => 0x076dc419 case 5 => 0x706af48f case 6 => 0xe963a535 case 7 => 0x9e6495a3
       case 8 => 0x0edb8832 case 9 => 0x79dcb8a4 case 10 => 0xe0d5e91e case 11 => 0x97d2d988
       case 12 => 0x09b64c2b case 13 => 0x7eb17cbd case 14 => 0xe7b82d07 case _ => 0x90bf1d91)
    case 1 =>
      (match i & 15
       case 0 => 0x1db71064 case 1 => 0x6ab020f2 case 2 => 0xf3b97148 case 3 => 0x84be41de
       case 4 => 0x1adad47d case 5 => 0x6ddde4eb case 6 => 0xf4d4b551 case 7 => 0x83d385c7
       case 8 => 0x136c9856 case 9 => 0x646ba8c0 case 10 => 0xfd62f97a case 11 => 0x8a65c9ec
       case 12 => 0x14015c4f case 13 => 0x63066cd9 case 14 => 0xfa0f3d63 case _ => 0x8d080df5)
    case 2 =>
      (match i & 15
       case 0 => 0x3b6e20c8 case 1 => 0x4c69105e case 2 => 0xd56041e4 case 3 => 0xa2677172
       case 4 => 0x3c03e4d1 case 5 => 0x4b04d447 case 6 => 0xd20d85fd case 7 => 0xa50ab56b
       case 8 => 0x35b5a8fa case 9 => 0x42b2986c case 10 => 0xdbbbc9d6 case 11 => 0xacbcf940
       case 12 => 0x32d86ce3 case 13 => 0x45df5c75 case 14 => 0xdcd60dcf case _ => 0xabd13d59)
    case 3 =>
      (match i & 15
       case 0 => 0x26d930ac case 1 => 0x51de003a case 2 => 0xc8d75180 case 3 => 0xbfd06116
       case 4 => 0x21b4f4b5 case 5 => 0x56b3c423 case 6 => 0xcfba9599 case 7 => 0xb8bda50f
       case 8 => 0x2802b89e case 9 => 0x5f058808 case 10 => 0xc60cd9b2 case 11 => 0xb10be924
       case 12 => 0x2f6f7c87 case 13 => 0x58684c11 case 14 => 0xc1611dab case _ => 0xb6662d3d)
    case 4 =>
      (match i & 15
       case 0 => 0x76dc4190 case 1 => 0x01db7106 case 2 => 0x98d220bc case 3 => 0xefd5102a
       case 4 => 0x71b18589 case 5 => 0x06b6b51f case 6 => 0x9fbfe4a5 case 7 => 0xe8b8d433
       case 8 => 0x7807c9a2 case 9 => 0x0f00f934 case 10 => 0x9609a88e case 11 => 0xe10e9818
       case 12 => 0x7f6a0dbb case 13 => 0x086d3d2d case 14 => 0x91646c97 case _ => 0xe6635c01)
    case 5 =>
      (match i & 15
       case 0 => 0x6b6b51f4 case 1 => 0x1c6c6162 case 2 => 0x856530d8 case 3 => 0xf262004e
       case 4 => 0x6c0695ed case 5 => 0x1b01a57b case 6 => 0x8208f4c1 case 7 => 0xf50fc457
       case 8 => 0x65b0d9c6 case 9 => 0x12b7e950 case 10 => 0x8bbeb8ea case 11 => 0xfcb9887c
       case 12 => 0x62dd1ddf case 13 => 0x15da2d49 case 14 => 0x8cd37cf3 case _ => 0xfbd44c65)
    case 6 =>
      (match i & 15
       case 0 => 0x4db26158 case 1 => 0x3ab551ce case 2 => 0xa3bc0074 case 3 => 0xd4bb30e2
       case 4 => 0x4adfa541 case 5 => 0x3dd895d7 case 6 => 0xa4d1c46d case 7 => 0xd3d6f4fb
       case 8 => 0x4369e96a case 9 => 0x346ed9fc case 10 => 0xad678846 case 11 => 0xda60b8d0
       case 12 => 0x44042d73 case 13 => 0x33031de5 case 14 => 0xaa0a4c5f case _ => 0xdd0d7cc9)
    case 7 =>
      (match i & 15
       case 0 => 0x5005713c case 1 => 0x270241aa case 2 => 0xbe0b1010 case 3 => 0xc90c2086
       case 4 => 0x5768b525 case 5 => 0x206f85b3 case 6 => 0xb966d409 case 7 => 0xce61e49f
       case 8 => 0x5edef90e case 9 => 0x29d9c998 case 10 => 0xb0d09822 case 11 => 0xc7d7a8b4
       case 12 => 0x59b33d17 case 13 => 0x2eb40d81 case 14 => 0xb7bd5c3b case _ => 0xc0ba6cad)
    case 8 =>
      (match i & 15
       case 0 => 0xedb88320 case 1 => 0x9abfb3b6 case 2 => 0x03b6e20c case 3 => 0x74b1d29a
       case 4 => 0xead54739 case 5 => 0x9dd277af case 6 => 0x04db2615 case 7 => 0x73dc1683
       case 8 => 0xe3630b12 case 9 => 0x94643b84 case 10 => 0x0d6d6a3e case 11 => 0x7a6a5aa8
       case 12 => 0xe40ecf0b case 13 => 0x9309ff9d case 14 => 0x0a00ae27 case _ => 0x7d079eb1)
    case 9 =>
      (match i & 15
       case 0 => 0xf00f9344 case 1 => 0x8708a3d2 case 2 => 0x1e01f268 case 3 => 0x6906c2fe
       case 4 => 0xf762575d case 5 => 0x806567cb case 6 => 0x196c3671 case 7 => 0x6e6b06e7
       case 8 => 0xfed41b76 case 9 => 0x89d32be0 case 10 => 0x10da7a5a case 11 => 0x67dd4acc
       case 12 => 0xf9b9df6f case 13 => 0x8ebeeff9 case 14 => 0x17b7be43 case _ => 0x60b08ed5)
    case 10 =>
      (match i & 15
       case 0 => 0xd6d6a3e8 case 1 => 0xa1d1937e case 2 => 0x38d8c2c4 case 3 => 0x4fdff252
       case 4 => 0xd1bb67f1 case 5 => 0xa6bc5767 case 6 => 0x3fb506dd case 7 => 0x48b2364b
       case 8 => 0xd80d2bda case 9 => 0xaf0a1b4c case 10 => 0x36034af6 case 11 => 0x41047a60
       case 12 => 0xdf60efc3 case 13 => 0xa867df55 case 14 => 0x316e8eef case _ => 0x4669be79)
    case 11 =>
      (match i & 15
       case 0 => 0xcb61b38c case 1 => 0xbc66831a case 2 => 0x256fd2a0 case 3 => 0x5268e236
       case 4 => 0xcc0c7795 case 5 => 0xbb0b4703 case 6 => 0x220216b9 case 7 => 0x5505262f
       case 8 => 0xc5ba3bbe case 9 => 0xb2bd0b28 case 10 => 0x2bb45a92 case 11 => 0x5cb36a04
       case 12 => 0xc2d7ffa7 case 13 => 0xb5d0cf31 case 14 => 0x2cd99e8b case _ => 0x5bdeae1d)
    case 12 =>
      (match i & 15
       case 0 => 0x9b64c2b0 case 1 => 0xec63f226 case 2 => 0x756aa39c case 3 => 0x026d930a
       case 4 => 0x9c0906a9 case 5 => 0xeb0e363f case 6 => 0x72076785 case 7 => 0x05005713
       case 8 => 0x95bf4a82 case 9 => 0xe2b87a14 case 10 => 0x7bb12bae case 11 => 0x0cb61b38
       case 12 => 0x92d28e9b case 13 => 0xe5d5be0d case 14 => 0x7cdcefb7 case _ => 0x0bdbdf21)
    case 13 =>
      (match i & 15
       case 0 => 0x86d3d2d4 case 1 => 0xf1d4e242 case 2 => 0x68ddb3f8 case 3 => 0x1fda836e
       case 4 => 0x81be16cd case 5 => 0xf6b9265b case 6 => 0x6fb077e1 case 7 => 0x18b74777
       case 8 => 0x88085ae6 case 9 => 0xff0f6a70 case 10 => 0x66063bca case 11 => 0x11010b5c
       case 12 => 0x8f659eff case 13 => 0xf862ae69 case 14 => 0x616bffd3 case _ => 0x166ccf45)
    case 14 =>
      (match i & 15
       case 0 => 0xa00ae278 case 1 => 0xd70dd2ee case 2 => 0x4e048354 case 3 => 0x3903b3c2
       case 4 => 0xa7672661 case 5 => 0xd06016f7 case 6 => 0x4969474d case 7 => 0x3e6e77db
       case 8 => 0xaed16a4a case 9 => 0xd9d65adc case 10 => 0x40df0b66 case 11 => 0x37d83bf0
       case 12 => 0xa9bcae53 case 13 => 0xdebb9ec5 case 14 => 0x47b2cf7f case _ => 0x30b5ffe9)
    case _ =>
      (match i & 15
       case 0 => 0xbdbdf21c case 1 => 0xcabac28a case 2 => 0x53b39330 case 3 => 0x24b4a3a6
       case 4 => 0xbad03605 case 5 => 0xcdd70693 case 6 => 0x54de5729 case 7 => 0x23d967bf
       case 8 => 0xb3667a2e case 9 => 0xc4614ab8 case 10 => 0x5d681b02 case 11 => 0x2a6f2b94
       case 12 => 0xb40bbe37 case 13 => 0xc30c8ea1 case 14 => 0x5a05df1b case _ => 0x2d02ef8d)
  }

  /** Multiplication by x modulo the generator polynomial. Bit 31 is the constant coefficient. */
  function Shift(r: bv32): bv32 { if Odd(r) then Xor(Half(r), POLYNOMIAL) else Half(r) }

  function Back(r: bv32): bv32 { if r & 0x80000000 != 0 then ((r ^ POLYNOMIAL) << 1) | 1 else r << 1 }

  // The operators of the loop, named so that the algebra below can use their laws instead of their bits.

  function Xor(a: bv32, b: bv32): bv32 { a ^ b }

  predicate Odd(r: bv32) { r & 1 == 1 }

  function Half(r: bv32): bv32 { r >> 1 }

  function Low(r: bv32): bv8 { (r & 0xFF) as bv8 }

  function High(r: bv32): bv32 { r & 0xFFFFFF00 }

  function Down(r: bv32): bv32 { r >> 8 }

  /** Where a byte of the message meets the register. */
  function Join(b: bv8): bv32 { b as bv32 }

  /** One turn of the loop over the table. */
  function Turn(r: bv32, b: bv8): bv32 { Xor(Table(Low(Xor(r, Join(b)))), Down(r)) }

  function Bit(b: bv8, k: nat): bool
    requires k < 8
  {
    if k == 0 then b & 1 != 0
    else if k == 1 then b & 2 != 0
    else if k == 2 then b & 4 != 0
    else if k == 3 then b & 8 != 0
    else if k == 4 then b & 16 != 0
    else if k == 5 then b & 32 != 0
    else if k == 6 then b & 64 != 0
    else b & 128 != 0
  }

  function ByteBits(b: bv8): seq<bool> { seq(8, k requires 0 <= k < 8 => Bit(b, k)) }

  const CODE: Code<bv32> := Code(32, 0, 0x80000000, Xor, Shift, Back, ByteBits, Join, Turn)

  function Flip(r: bv32): bv32 { r ^ 0xFFFFFFFF }

  function Checksum(crc: bv32, buff: seq<bv8>): bv32 { Flip(Update(CODE, Flip(crc), buff)) }

  // One shift: it is linear and it can be undone.

  lemma XorIsSum(a: bv32, b: bv32, c: bv32)
    ensures Xor(Xor(a, b), c) == Xor(a, Xor(b, c)) && Xor(a, b) == Xor(b, a) && Xor(a, 0) == a && Xor(a, a) == 0
  {
  }

  lemma XorTwice(a: bv32, b: bv32, c: bv32)
    ensures Xor(Xor(a, c), Xor(b, c)) == Xor(a, b)
  {
    hide Xor;
    XorIsSum(a, c, Xor(b, c));
    XorIsSum(c, b, c);
    XorIsSum(b, c, c);
    XorIsSum(c, c, c);
    XorIsSum(b, a, a);
  }

  lemma HalfXor(a: bv32, b: bv32)
    ensures Half(Xor(a, b)) == Xor(Half(a), Half(b))
  {
  }

  lemma OddXor(a: bv32, b: bv32)
    ensures Odd(Xor(a, b)) <==> Odd(a) != Odd(b)
  {
  }

  lemma ShiftXor(a: bv32, b: bv32)
    ensures Shift(Xor(a, b)) == Xor(Shift(a), Shift(b))
  {
    hide Odd, Half, Xor, POLYNOMIAL;
    OddXor(a, b);
    HalfXor(a, b);
    XorTwice(Half(a), Half(b), POLYNOMIAL);
    XorIsSum(Half(a), Half(b), POLYNOMIAL);
    XorIsSum(Half(a), POLYNOMIAL, Half(b));
    XorIsSum(Half(b), POLYNOMIAL, 0);
  }

  lemma ShiftBackCarry(r: bv32)
    requires r & 0x80000000 != 0
    ensures Shift(Back(r)) == r
  {
  }

  lemma ShiftBack(r: bv32)
    ensures Shift(Back(r)) == r
  {
    if r & 0x80000000 != 0 {
      hide Shift, Back;
      ShiftBackCarry(r);
    }
  }

  lemma BackShift(r: bv32)
    ensures Back(Shift(r)) == r
  {
  }

  lemma CodeIsAlgebra()
    ensures Algebra(CODE)
  {
    hide Xor, Shift, Back;
    forall a: bv32, b: bv32, c: bv32
      ensures CODE.xor(CODE.xor(a, b), c) == CODE.xor(a, CODE.xor(b, c))
    {
      XorIsSum(a, b, c);
    }
    forall a: bv32, b: bv32
      ensures CODE.xor(a, b) == CODE.xor(b, a)
      ensures CODE.shift(CODE.xor(a, b)) == CODE.xor(CODE.shift(a), CODE.shift(b))
    {
      XorIsSum(a, b, b);
      ShiftXor(a, b);
    }
    forall a: bv32
      ensures CODE.xor(a, 0) == a && CODE.xor(a, a) == 0
      ensures CODE.back(CODE.shift(a)) == a && CODE.shift(CODE.back(a)) == a
    {
      XorIsSum(a, a, a);
      BackShift(a);
      ShiftBack(a);
    }
  }

  lemma EightShifts(r: bv32)
    ensures Shifts(CODE, r, 8) == Shift(Shift(Shift(Shift(Shift(Shift(Shift(Shift(r))))))))
  {
    hide Shift;
    assert Shifts(CODE, r, 1) == Shift(r);
    assert Shifts(CODE, r, 3) == Shift(Shift(Shifts(CODE, r, 1)));
    assert Shifts(CODE, r, 5) == Shift(Shift(Shifts(CODE, r, 3)));
    assert Shifts(CODE, r, 7) == Shift(Shift(Shifts(CODE, r, 5)));
  }

  /** Eight shifts that carry nothing out are a plain shift by a byte. */
  lemma PlainShift(r: bv32)
    requires r & 0xFF == 0
    ensures Shifts(CODE, r, 8) == r >> 8
  {
    EightShifts(r);
    hide Shifts;
  }

  // One byte.

  /** Every table entry is the byte shifted out. */
  lemma TableIsEightShifts(i: bv8)
    ensures Table(i) == Shifts(CODE, Join(i), 8)
  {
    if i < 128 { LowerHalf(i); } else { UpperHalf(i); }
    hide Shifts, Table, Shift, Join, Step;
    var r := Join(i);
    EightShifts(r);
    StepIsShift(r);
    StepIsShift(Step(r));
    StepIsShift(Step(Step(r)));
    StepIsShift(Step(Step(Step(r))));
    StepIsShift(Step(Step(Step(Step(r)))));
    StepIsShift(Step(Step(Step(Step(Step(r))))));
    StepIsShift(Step(Step(Step(Step(Step(Step(r)))))));
    StepIsShift(Step(Step(Step(Step(Step(Step(Step(r))))))));
  }

  /** The same shift in plain operators. */
  function Step(r: bv32): bv32 { if r & 1 == 1 then (r >> 1) ^ POLYNOMIAL else r >> 1 }

  lemma StepIsShift(r: bv32)
    ensures Step(r) == Shift(r)
  {
  }

  lemma LowerHalf(i: bv8)
    requires i < 128
    ensures Table(i) == Step(Step(Step(Step(Step(Step(Step(Step(Join(i)))))))))
  {
  }

  lemma UpperHalf(i: bv8)
    requires i >= 128
    ensures Table(i) == Step(Step(Step(Step(Step(Step(Step(Step(Join(i)))))))))
  {
  }

  lemma LowAndHigh(x: bv32)
    ensures Xor(Join(Low(x)), High(x)) == x
  {
  }

  lemma HighShifts(x: bv32)
    ensures Shifts(CODE, High(x), 8) == Down(x)
  {
    hide Shifts;
    PlainShift(High(x));
  }

  lemma DownForgets(r: bv32, b: bv8)
    ensures Down(Xor(r, Join(b))) == Down(r)
  {
  }

  lemma TurnIsEightShifts(r: bv32, b: bv8)
    ensures Turn(r, b) == Shifts(CODE, Xor(r, Join(b)), 8)
  {
    hide Table, Low, High, Down, Xor, Join, Shifts;
    var x := Xor(r, Join(b));
    LowAndHigh(x);
    DownForgets(r, b);
    TableIsEightShifts(Low(x));
    HighShifts(x);
    CodeIsAlgebra();
    ShiftsXor(CODE, Join(Low(x)), High(x), 8);
  }

  /** The first k bits of a byte as they enter an empty register. */
  function Part(b: bv8, k: nat): bv32 {
    if k == 0 then 0
    else if k == 1 then (b as bv32) << 31
    else if k == 2 then (b as bv32) << 30
    else if k == 3 then (b as bv32) << 29
    else if k == 4 then (b as bv32) << 28
    else if k == 5 then (b as bv32) << 27
    else if k == 6 then (b as bv32) << 26
    else if k == 7 then (b as bv32) << 25
    else (b as bv32) << 24
  }

  lemma EnterOne(b: bv8, k: nat)
    requires k < 4
    ensures Xor(Shift(Part(b, k)), Unit(CODE, Bit(b, k))) == Part(b, k + 1)
  {
  }

  lemma EnterMore(b: bv8, k: nat)
    requires 4 <= k < 6
    ensures Xor(Shift(Part(b, k)), Unit(CODE, Bit(b, k))) == Part(b, k + 1)
  {
  }

  lemma EnterLast(b: bv8, k: nat)
    requires 6 <= k < 8
    ensures Xor(Shift(Part(b, k)), Unit(CODE, Bit(b, k))) == Part(b, k + 1)
  {
  }

  /** A byte k bytes before the place where it meets the register. */
  function Place(b: bv8, k: nat): bv32
    requires k < 4
  {
    if k == 0 then b as bv32
    else if k == 1 then (b as bv32) << 8
    else if k == 2 then (b as bv32) << 16
    else (b as bv32) << 24
  }

  lemma PlaceOnce(b: bv8)
    ensures Shifts(CODE, (b as bv32) << 8, 8) == b as bv32
    ensures Shifts(CODE, (b as bv32) << 16, 8) == (b as bv32) << 8
    ensures Shifts(CODE, (b as bv32) << 24, 8) == (b as bv32) << 16
  {
    hide Shifts;
    PlainShift((b as bv32) << 8);
    PlainShift((b as bv32) << 16);
    PlainShift((b as bv32) << 24);
  }

  lemma {:induction false} PlaceMeetsJoin(b: bv8, k: nat)
    requires k < 4
    ensures Shifts(CODE, Place(b, k), 8 * k) == Join(b)
  {
    if k > 0 {
      hide Shifts, Join;
      PlaceMeetsJoin(b, k - 1);
      PlaceOnce(b);
      ShiftsAdd(CODE, Place(b, k), 8, 8 * (k - 1));
    }
  }

  lemma ByteEnters(b: bv8)
    ensures |ByteBits(b)| == 8 && Shifts(CODE, Divide(CODE, 0, ByteBits(b)), 24) == Join(b)
  {
    assert Part(b, 0) == 0 && Part(b, 8) == Place(b, 3);
    assert CODE.bits(b) == ByteBits(b) && |ByteBits(b)| == 8;
    hide Bit, Shifts, Divide, Join, Part, Xor, Shift, Place;
    forall k | 0 <= k < 8
      ensures Part(b, k + 1) == CODE.xor(CODE.shift(Part(b, k)), Unit(CODE, CODE.bits(b)[k]))
    {
      if k < 4 { EnterOne(b, k); } else if k < 6 { EnterMore(b, k); } else { EnterLast(b, k); }
    }
    DivideBits(CODE, b, Part, 8);
    assert ByteBits(b)[..8] == ByteBits(b);
    PlaceMeetsJoin(b, 3);
  }

  lemma CodeEnters()
    ensures Enters(CODE)
  {
    hide Shifts, Divide, Join, ByteBits;
    forall b: bv8 { ByteEnters(b); }
  }

  lemma CodeTurns()
    ensures Turns(CODE)
  {
    hide Turn, Xor, Join, Shifts;
    forall r: bv32, b: bv8 { TurnIsEightShifts(r, b); }
  }

  lemma CodeIsBytewise()
    ensures Bytewise(CODE)
  {
    hide Algebra, Enters, Turns;
    CodeIsAlgebra();
    CodeEnters();
    CodeTurns();
  }

  // ---- the checksum ----

  /** The table-driven loop leaves the remainder of the message with 32 zero bits behind it. */
  lemma UpdateIsDivision(r: bv32, buff: seq<bv8>)
    ensures Update(CODE, r, buff) == Divide(CODE, Backs(CODE, r, 32), Bits(CODE, buff) + Zeros(32))
    ensures Shifts(CODE, Backs(CODE, r, 32), 32) == r
  {
    hide Bytewise;
    CodeIsBytewise();
    Crc.UpdateIsDivision(CODE, r, buff);
  }

  lemma Complement(r: bv32)
    ensures Flip(Flip(r)) == r
  {
  }

  /** A checksum can be carried from one buffer to the next. */
  lemma CrcAppend(crc: bv32, a: seq<bv8>, b: seq<bv8>)
    ensures Checksum(crc, a + b) == Checksum(Checksum(crc, a), b)
  {
    hide Update, Flip;
    UpdateAppend(CODE, Flip(crc), a, b);
    Complement(Update(CODE, Flip(crc), a));
  }

  lemma LiftIsPlace(b: bv8, k: nat)
    requires k < 4
    ensures Lift(CODE, b, k) == Place(b, k)
  {
    hide Bytewise, Shifts, Algebra, Place, Join;
    CodeIsAlgebra();
    PlaceMeetsJoin(b, k);
    ShiftsBacks(CODE, Join(b), 8 * k);
    ShiftsAreOneToOne(CODE, Lift(CODE, b, k), Place(b, k), 8 * k);
  }

  function At(a: seq<bv8>, k: nat): bv8 { if k < |a| then a[k] else 0 }

  function Pack(b0: bv8, b1: bv8, b2: bv8, b3: bv8): bv32 {
    Xor(Xor(Xor(Place(b0, 0), Place(b1, 1)), Place(b2, 2)), Place(b3, 3))
  }

  /** The same in plain operators. */
  function Plain(b0: bv8, b1: bv8, b2: bv8, b3: bv8): bv32 {
    (((b0 as bv32) ^ ((b1 as bv32) << 8)) ^ ((b2 as bv32) << 16)) ^ ((b3 as bv32) << 24)
  }

  lemma PackIsPlain(b0: bv8, b1: bv8, b2: bv8, b3: bv8)
    ensures Pack(b0, b1, b2, b3) == Plain(b0, b1, b2, b3)
  {
  }

  lemma PlainIsOneToOne(a0: bv8, a1: bv8, a2: bv8, a3: bv8, b0: bv8, b1: bv8, b2: bv8, b3: bv8)
    requires Plain(a0, a1, a2, a3) == Plain(b0, b1, b2, b3)
    ensures a0 == b0 && a1 == b1 && a2 == b2 && a3 == b3
  {
  }

  lemma PackIsOneToOne(a0: bv8, a1: bv8, a2: bv8, a3: bv8, b0: bv8, b1: bv8, b2: bv8, b3: bv8)
    requires Pack(a0, a1, a2, a3) == Pack(b0, b1, b2, b3)
    ensures a0 == b0 && a1 == b1 && a2 == b2 && a3 == b3
  {
    hide Plain, Pack;
    PackIsPlain(a0, a1, a2, a3);
    PackIsPlain(b0, b1, b2, b3);
    PlainIsOneToOne(a0, a1, a2, a3, b0, b1, b2, b3);
  }

  lemma PackShort(b: bv8, c: bv8, d: bv8, e: bv8)
    ensures Pack(0, 0, 0, 0) == 0
    ensures Pack(b, 0, 0, 0) == Xor(0, Place(b, 0))
    ensures Pack(b, c, 0, 0) == Xor(Pack(b, 0, 0, 0), Place(c, 1))
    ensures Pack(b, c, d, 0) == Xor(Pack(b, c, 0, 0), Place(d, 2))
    ensures Pack(b, c, d, e) == Xor(Pack(b, c, d, 0), Place(e, 3))
  {
    assert Place(0, 0) == 0 && Place(0, 1) == 0 && Place(0, 2) == 0 && Place(0, 3) == 0;
    hide Place, Xor;
    XorIsSum(0, 0, 0);
    XorIsSum(Place(b, 0), 0, 0);
    XorIsSum(0, Place(b, 0), 0);
    XorIsSum(Xor(Place(b, 0), Place(c, 1)), 0, 0);
    XorIsSum(Xor(Xor(Place(b, 0), Place(c, 1)), Place(d, 2)), 0, 0);
  }

  function PackOf(a: seq<bv8>): bv32 { Pack(At(a, 0), At(a, 1), At(a, 2), At(a, 3)) }

  lemma PackSnoc(a: seq<bv8>, b: bv8)
    requires |a| < 4
    ensures PackOf([]) == 0 && PackOf(a + [b]) == Xor(PackOf(a), Place(b, |a|))
  {
    var c := a + [b];
    PackShort(At(c, 0), At(c, 1), At(c, 2), At(c, 3));
    hide Pack, Place, Xor;
    assert PackOf([]) == 0;
    AtSnoc(a, b, 0);
    AtSnoc(a, b, 1);
    AtSnoc(a, b, 2);
    AtSnoc(a, b, 3);
    hide At;
  }

  lemma AtSnoc(a: seq<bv8>, b: bv8, k: nat)
    ensures At(a + [b], k) == if k == |a| then b else At(a, k)
    ensures k >= |a| ==> At(a, k) == 0
  {
  }

  lemma WordSnoc(a: seq<bv8>, b: bv8)
    requires |a| < 4
    ensures Word(CODE, []) == 0 && Word(CODE, a + [b]) == Xor(Word(CODE, a), Place(b, |a|))
  {
    hide Place, Xor, Lift;
    LiftIsPlace(b, |a|);
    assert (a + [b])[..|a|] == a;
  }

  lemma {:induction false} WordIsPack(a: seq<bv8>)
    requires |a| <= 4
    ensures Word(CODE, a) == PackOf(a)
  {
    hide *;
    if a == [] {
      PackSnoc(a, 0);
      WordSnoc(a, 0);
    } else {
      var init, b := a[..|a| - 1], a[|a| - 1];
      assert a == init + [b];
      WordIsPack(init);
      PackSnoc(init, b);
      WordSnoc(init, b);
    }
  }

  lemma WordIsOneToOne(a: seq<bv8>, b: seq<bv8>)
    requires |a| == |b| <= 4 && Word(CODE, a) == Word(CODE, b)
    ensures a == b
  {
    hide Pack, Word;
    WordIsPack(a);
    WordIsPack(b);
    PackIsOneToOne(At(a, 0), At(a, 1), At(a, 2), At(a, 3), At(b, 0), At(b, 1), At(b, 2), At(b, 3));
    forall k | 0 <= k < |a|
      ensures a[k] == b[k]
    {
      assert a[k] == At(a, k) && b[k] == At(b, k);
    }
  }

  /** Two messages of one length that differ only within four consecutive bytes never share a checksum. */
  lemma BurstIsSeen(crc: bv32, before: seq<bv8>, a: seq<bv8>, b: seq<bv8>, after: seq<bv8>)
    requires |a| == |b| <= 4 && a != b
    ensures Checksum(crc, before + a + after) != Checksum(crc, before + b + after)
  {
    hide Bytewise, Word, Update, Flip;
    CodeIsBytewise();
    if Word(CODE, a) == Word(CODE, b) { WordIsOneToOne(a, b); }
    Crc.BurstIsSeen(CODE, Flip(crc), before, a, b, after);
    Complement(Update(CODE, Flip(crc), before + a + after));
    Complement(Update(CODE, Flip(crc), before + b + after));
  }

  /** The checksum loop. The sign extension of a plain char is masked off before the table is read. */
  method CavanCrc32(crc: bv32, buff: seq<bv8>) returns (r: bv32)
    ensures r == Checksum(crc, buff)
    ensures Flip(r) == Divide(CODE, Backs(CODE, Flip(crc), 32), Bits(CODE, buff) + Zeros(32))
  {
    hide Table, Turn, Divide, Backs, Flip;
    r := Flip(crc);
    for i := 0 to |buff|
      invariant r == Update(CODE, Flip(crc), buff[..i])
    {
      var b := buff[i];
      assert buff[..i + 1][..i] == buff[..i];
      r := Turn(r, b);
    }
    assert buff[..|buff|] == buff;
    UpdateIsDivision(Flip(crc), buff);
    Complement(r);
    r := Flip(r);
  }
}
