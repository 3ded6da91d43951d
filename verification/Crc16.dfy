/** lib/crc.c, cavan_crc16: the polynomial x^16 + x^12 + x^5 + 1, most significant bit first, nothing complemented. */
module Crc16 {
  import opened Crc

  const POLYNOMIAL: bv16 := 0x1021

  /** The table, sixteen entries to a row. */
  function Table(i: bv8): bv16 {
    match i >> 4
    case 0 =>
      (match i & 15
       case 0 => 0x0000 case 1 => 0x1021 case 2 => 0x2042 case 3 => 0x3063
       case 4 => 0x4084 case 5 => 0x50a5 case 6 => 0x60c6 case 7 => 0x70e7
       case 8 => 0x8108 case 9 => 0x9129 case 10 => 0xa14a case 11 => 0xb16b
       case 12 => 0xc18c case 13 => 0xd1ad case 14 => 0xe1ce case _ => 0xf1ef)
    case 1 =>
      (match i & 15
       case 0 => 0x1231 case 1 => 0x0210 case 2 => 0x3273 case 3 => 0x2252
       case 4 => 0x52b5 case 5 => 0x4294 case 6 => 0x72f7 case 7 => 0x62d6
       case 8 => 0x9339 case 9 => 0x8318 case 10 => 0xb37b case 11 => 0xa35a
       case 12 => 0xd3bd case 13 => 0xc39c case 14 => 0xf3ff case _ => 0xe3de)
    case 2 =>
      (match i & 15
       case 0 => 0x2462 case 1 => 0x3443 case 2 => 0x0420 case 3 => 0x1401
       case 4 => 0x64e6 case 5 => 0x74c7 case 6 => 0x44a4 case 7 => 0x5485
       case 8 => 0xa56a case 9 => 0xb54b case 10 => 0x8528 case 11 => 0x9509
       case 12 => 0xe5ee case 13 => 0xf5cf case 14 => 0xc5ac case _ => 0xd58d)
    case 3 =>
      (match i & 15
       case 0 => 0x3653 case 1 => 0x2672 case 2 => 0x1611 case 3 => 0x0630
       case 4 => 0x76d7 case 5 => 0x66f6 case 6 => 0x5695 case 7 => 0x46b4
       case 8 => 0xb75b case 9 => 0xa77a case 10 => 0x9719 case 11 => 0x8738
       case 12 => 0xf7df case 13 => 0xe7fe case 14 => 0xd79d case _ => 0xc7bc)
    case 4 =>
      (match i & 15
       case 0 => 0x48c4 case 1 => 0x58e5 case 2 => 0x6886 case 3 => 0x78a7
       case 4 => 0x0840 case 5 => 0x1861 case 6 => 0x2802 case 7 => 0x3823
       case 8 => 0xc9cc case 9 => 0xd9ed case 10 => 0xe98e case 11 => 0xf9af
       case 12 => 0x8948 case 13 => 0x9969 case 14 => 0xa90a case _ => 0xb92b)
    case 5 =>
      (match i & 15
       case 0 => 0x5af5 case 1 => 0x4ad4 case 2 => 0x7ab7 case 3 => 0x6a96
       case 4 => 0x1a71 case 5 => 0x0a50 case 6 => 0x3a33 case 7 => 0x2a12
       case 8 => 0xdbfd case 9 => 0xcbdc case 10 => 0xfbbf case 11 => 0xeb9e
       case 12 => 0x9b79 case 13 => 0x8b58 case 14 => 0xbb3b case _ => 0xab1a)
    case 6 =>
      (match i & 15
       case 0 => 0x6ca6 case 1 => 0x7c87 case 2 => 0x4ce4 case 3 => 0x5cc5
       case 4 => 0x2c22 case 5 => 0x3c03 case 6 => 0x0c60 case 7 => 0x1c41
       case 8 => 0xedae case 9 => 0xfd8f case 10 => 0xcdec case 11 => 0xddcd
       case 12 => 0xad2a case 13 => 0xbd0b case 14 => 0x8d68 case _ => 0x9d49)
    case 7 =>
      (match i & 15
       case 0 => 0x7e97 case 1 => 0x6eb6 case 2 => 0x5ed5 case 3 => 0x4ef4
       case 4 => 0x3e13 case 5 => 0x2e32 case 6 => 0x1e51 case 7 => 0x0e70
       case 8 => 0xff9f case 9 => 0xefbe case 10 => 0xdfdd case 11 => 0xcffc
       case 12 => 0xbf1b case 13 => 0xaf3a case 14 => 0x9f59 case _ => 0x8f78)
    case 8 =>
      (match i & 15
       case 0 => 0x9188 case 1 => 0x81a9 case 2 => 0xb1ca case 3 => 0xa1eb
       case 4 => 0xd10c case 5 => 0xc12d case 6 => 0xf14e case 7 => 0xe16f
       case 8 => 0x1080 case 9 => 0x00a1 case 10 => 0x30c2 case 11 => 0x20e3
       case 12 => 0x5004 case 13 => 0x4025 case 14 => 0x7046 case _ => 0x6067)
    case 9 =>
      (match i & 15
       case 0 => 0x83b9 case 1 => 0x9398 case 2 => 0xa3fb case 3 => 0xb3da
       case 4 => 0xc33d case 5 => 0xd31c case 6 => 0xe37f case 7 => 0xf35e
       case 8 => 0x02b1 case 9 => 0x1290 case 10 => 0x22f3 case 11 => 0x32d2
       case 12 => 0x4235 case 13 => 0x5214 case 14 => 0x6277 case _ => 0x7256)
    case 10 =>
      (match i & 15
       case 0 => 0xb5ea case 1 => 0xa5cb case 2 => 0x95a8 case 3 => 0x8589
       case 4 => 0xf56e case 5 => 0xe54f case 6 => 0xd52c case 7 => 0xc50d
       case 8 => 0x34e2 case 9 => 0x24c3 case 10 => 0x14a0 case 11 => 0x0481
       case 12 => 0x7466 case 13 => 0x6447 case 14 => 0x5424 case _ => 0x4405)
    case 11 =>
      (match i & 15
       case 0 => 0xa7db case 1 => 0xb7fa case 2 => 0x8799 case 3 => 0x97b8
       case 4 => 0xe75f case 5 => 0xf77e case 6 => 0xc71d case 7 => 0xd73c
       case 8 => 0x26d3 case 9 => 0x36f2 case 10 => 0x0691 case 11 => 0x16b0
       case 12 => 0x6657 case 13 => 0x7676 case 14 => 0x4615 case _ => 0x5634)
    case 12 =>
      (match i & 15
       case 0 => 0xd94c case 1 => 0xc96d case 2 => 0xf90e case 3 => 0xe92f
       case 4 => 0x99c8 case 5 => 0x89e9 case 6 => 0xb98a case 7 => 0xa9ab
       case 8 => 0x5844 case 9 => 0x4865 case 10 => 0x7806 case 11 => 0x6827
       case 12 => 0x18c0 case 13 => 0x08e1 case 14 => 0x3882 case _ => 0x28a3)
    case 13 =>
      (match i & 15
       case 0 => 0xcb7d case 1 => 0xdb5c case 2 => 0xeb3f case 3 => 0xfb1e
       case 4 => 0x8bf9 case 5 => 0x9bd8 case 6 => 0xabbb case 7 => 0xbb9a
       case 8 => 0x4a75 case 9 => 0x5a54 case 10 => 0x6a37 case 11 => 0x7a16
       case 12 => 0x0af1 case 13 => 0x1ad0 case 14 => 0x2ab3 case _ => 0x3a92)
    case 14 =>
      (match i & 15
       case 0 => 0xfd2e case 1 => 0xed0f case 2 => 0xdd6c case 3 => 0xcd4d
       case 4 => 0xbdaa case 5 => 0xad8b case 6 => 0x9de8 case 7 => 0x8dc9
       case 8 => 0x7c26 case 9 => 0x6c07 case 10 => 0x5c64 case 11 => 0x4c45
       case 12 => 0x3ca2 case 13 => 0x2c83 case 14 => 0x1ce0 case _ => 0x0cc1)
    case _ =>
      (match i & 15
       case 0 => 0xef1f case 1 => 0xff3e case 2 => 0xcf5d case 3 => 0xdf7c
       case 4 => 0xaf9b case 5 => 0xbfba case 6 => 0x8fd9 case 7 => 0x9ff8
       case 8 => 0x6e17 case 9 => 0x7e36 case 10 => 0x4e55 case 11 => 0x5e74
       case 12 => 0x2e93 case 13 => 0x3eb2 case 14 => 0x0ed1 case _ => 0x1ef0)
  }

  /** Multiplication by x modulo the generator polynomial. Bit 0 is the constant coefficient. */
  function Shift(r: bv16): bv16 { if Top(r) then Xor(Double(r), POLYNOMIAL) else Double(r) }

  function Back(r: bv16): bv16 { if r & 1 != 0 then ((r ^ POLYNOMIAL) >> 1) | 0x8000 else r >> 1 }

  // The operators of the loop, named so that the algebra below can use their laws instead of their bits.

  function Xor(a: bv16, b: bv16): bv16 { a ^ b }

  predicate Top(r: bv16) { r & 0x8000 != 0 }

  function Double(r: bv16): bv16 { r << 1 }

  function High(r: bv16): bv8 { (r >> 8) as bv8 }

  function Low(r: bv16): bv16 { r & 0xFF }

  function Up(r: bv16): bv16 { r << 8 }

  /** Where a byte of the message meets the register. */
  function Join(b: bv8): bv16 { (b as bv16) << 8 }

  /** One turn of the loop over the table. */
  function Turn(r: bv16, b: bv8): bv16 { Xor(Table(High(r) ^ b), Up(r)) }

  function Bit(b: bv8, k: nat): bool
    requires k < 8
  {
    if k == 0 then b & 128 != 0
    else if k == 1 then b & 64 != 0
    else if k == 2 then b & 32 != 0
    else if k == 3 then b & 16 != 0
    else if k == 4 then b & 8 != 0
    else if k == 5 then b & 4 != 0
    else if k == 6 then b & 2 != 0
    else b & 1 != 0
  }

  function ByteBits(b: bv8): seq<bool> { seq(8, k requires 0 <= k < 8 => Bit(b, k)) }

  const CODE: Code<bv16> := Code(16, 0, 1, Xor, Shift, Back, ByteBits, Join, Turn)

  // One shift: it is linear and it can be undone.

  lemma XorIsSum(a: bv16, b: bv16, c: bv16)
    ensures Xor(Xor(a, b), c) == Xor(a, Xor(b, c)) && Xor(a, b) == Xor(b, a) && Xor(a, 0) == a && Xor(a, a) == 0
  {
  }

  lemma XorTwice(a: bv16, b: bv16, c: bv16)
    ensures Xor(Xor(a, c), Xor(b, c)) == Xor(a, b)
  {
    hide Xor;
    XorIsSum(a, c, Xor(b, c));
    XorIsSum(c, b, c);
    XorIsSum(b, c, c);
    XorIsSum(c, c, c);
    XorIsSum(b, a, a);
  }

  lemma DoubleXor(a: bv16, b: bv16)
    ensures Double(Xor(a, b)) == Xor(Double(a), Double(b))
  {
  }

  lemma TopXor(a: bv16, b: bv16)
    ensures Top(Xor(a, b)) <==> Top(a) != Top(b)
  {
  }

  lemma ShiftXor(a: bv16, b: bv16)
    ensures Shift(Xor(a, b)) == Xor(Shift(a), Shift(b))
  {
    hide Top, Double, Xor, POLYNOMIAL;
    TopXor(a, b);
    DoubleXor(a, b);
    XorTwice(Double(a), Double(b), POLYNOMIAL);
    XorIsSum(Double(a), Double(b), POLYNOMIAL);
    XorIsSum(Double(a), POLYNOMIAL, Double(b));
    XorIsSum(Double(b), POLYNOMIAL, 0);
  }

  lemma ShiftBack(r: bv16)
    ensures Shift(Back(r)) == r
  {
  }

  lemma BackShiftCarry(r: bv16)
    requires r & 0x8000 != 0
    ensures Back(Shift(r)) == r
  {
  }

  lemma BackShift(r: bv16)
    ensures Back(Shift(r)) == r
  {
    if r & 0x8000 != 0 {
      hide Shift, Back;
      BackShiftCarry(r);
    }
  }

  lemma CodeIsAlgebra()
    ensures Algebra(CODE)
  {
    hide Xor, Shift, Back;
    forall a: bv16, b: bv16, c: bv16
      ensures CODE.xor(CODE.xor(a, b), c) == CODE.xor(a, CODE.xor(b, c))
    {
      XorIsSum(a, b, c);
    }
    forall a: bv16, b: bv16
      ensures CODE.xor(a, b) == CODE.xor(b, a)
      ensures CODE.shift(CODE.xor(a, b)) == CODE.xor(CODE.shift(a), CODE.shift(b))
    {
      XorIsSum(a, b, b);
      ShiftXor(a, b);
    }
    forall a: bv16
      ensures CODE.xor(a, 0) == a && CODE.xor(a, a) == 0
      ensures CODE.back(CODE.shift(a)) == a && CODE.shift(CODE.back(a)) == a
    {
      XorIsSum(a, a, a);
      BackShift(a);
      ShiftBack(a);
    }
  }

  lemma EightShifts(r: bv16)
    ensures Shifts(CODE, r, 8) == Shift(Shift(Shift(Shift(Shift(Shift(Shift(Shift(r))))))))
  {
    hide Shift;
    assert Shifts(CODE, r, 1) == Shift(r);
    assert Shifts(CODE, r, 3) == Shift(Shift(Shifts(CODE, r, 1)));
    assert Shifts(CODE, r, 5) == Shift(Shift(Shifts(CODE, r, 3)));
    assert Shifts(CODE, r, 7) == Shift(Shift(Shifts(CODE, r, 5)));
  }

  /** Eight shifts that carry nothing out are a plain shift by a byte. */
  lemma PlainShift(r: bv16)
    requires r & 0xFF00 == 0
    ensures Shifts(CODE, r, 8) == r << 8
  {
    EightShifts(r);
    hide Shifts;
  }

  // One byte.

  /** Every table entry is the byte shifted out. */
  lemma TableIsEightShifts(i: bv8)
    ensures Table(i) == Shifts(CODE, Join(i), 8)
  {
    if i < 128 { LowerHalf(i); } else { UpperHalf(i); }
    hide Shifts, Table, Shift, Join, Step;
    var r := Join(i);
    EightShifts(r);
    StepIsShift(r);
    StepIsShift(Step(r));
    StepIsShift(Step(Step(r)));
    StepIsShift(Step(Step(Step(r))));
    StepIsShift(Step(Step(Step(Step(r)))));
    StepIsShift(Step(Step(Step(Step(Step(r))))));
    StepIsShift(Step(Step(Step(Step(Step(Step(r)))))));
    StepIsShift(Step(Step(Step(Step(Step(Step(Step(r))))))));
  }

  /** The same shift in plain operators. */
  function Step(r: bv16): bv16 { if r & 0x8000 != 0 then (r << 1) ^ POLYNOMIAL else r << 1 }

  lemma StepIsShift(r: bv16)
    ensures Step(r) == Shift(r)
  {
  }

  lemma LowerHalf(i: bv8)
    requires i < 128
    ensures Table(i) == Step(Step(Step(Step(Step(Step(Step(Step(Join(i)))))))))
  {
  }

  lemma UpperHalf(i: bv8)
    requires i >= 128
    ensures Table(i) == Step(Step(Step(Step(Step(Step(Step(Step(Join(i)))))))))
  {
  }

  lemma HighAndLow(r: bv16, b: bv8)
    ensures Xor(Join(High(r) ^ b), Low(r)) == Xor(r, Join(b))
  {
  }

  lemma LowShifts(r: bv16)
    ensures Shifts(CODE, Low(r), 8) == Up(r)
  {
    hide Shifts;
    PlainShift(Low(r));
    assert Low(r) << 8 == Up(r);
  }

  lemma TurnIsEightShifts(r: bv16, b: bv8)
    ensures Turn(r, b) == Shifts(CODE, Xor(r, Join(b)), 8)
  {
    hide Table, Low, High, Up, Xor, Join, Shifts;
    var i := High(r) ^ b;
    HighAndLow(r, b);
    TableIsEightShifts(i);
    LowShifts(r);
    CodeIsAlgebra();
    ShiftsXor(CODE, Join(i), Low(r), 8);
  }

  /** The first k bits of a byte as they enter an empty register. */
  function Part(b: bv8, k: nat): bv16 {
    if k == 0 then 0
    else if k == 1 then (b as bv16) >> 7
    else if k == 2 then (b as bv16) >> 6
    else if k == 3 then (b as bv16) >> 5
    else if k == 4 then (b as bv16) >> 4
    else if k == 5 then (b as bv16) >> 3
    else if k == 6 then (b as bv16) >> 2
    else if k == 7 then (b as bv16) >> 1
    else b as bv16
  }

  lemma EnterOne(b: bv8, k: nat)
    requires k < 5
    ensures Xor(Shift(Part(b, k)), Unit(CODE, Bit(b, k))) == Part(b, k + 1)
  {
  }

  lemma EnterMore(b: bv8, k: nat)
    requires 5 <= k < 8
    ensures Xor(Shift(Part(b, k)), Unit(CODE, Bit(b, k))) == Part(b, k + 1)
  {
  }

  lemma ByteMeetsJoin(b: bv8)
    ensures Shifts(CODE, b as bv16, 8) == Join(b)
  {
    hide Shifts;
    PlainShift(b as bv16);
  }

  lemma ByteEnters(b: bv8)
    ensures |ByteBits(b)| == 8 && Shifts(CODE, Divide(CODE, 0, ByteBits(b)), 8) == Join(b)
  {
    assert Part(b, 0) == 0 && Part(b, 8) == b as bv16;
    assert CODE.bits(b) == ByteBits(b) && |ByteBits(b)| == 8;
    hide Bit, Shifts, Divide, Join, Part, Xor, Shift;
    forall k | 0 <= k < 8
      ensures Part(b, k + 1) == CODE.xor(CODE.shift(Part(b, k)), Unit(CODE, CODE.bits(b)[k]))
    {
      if k < 5 { EnterOne(b, k); } else { EnterMore(b, k); }
    }
    DivideBits(CODE, b, Part, 8);
    assert ByteBits(b)[..8] == ByteBits(b);
    ByteMeetsJoin(b);
  }

  lemma CodeEnters()
    ensures Enters(CODE)
  {
    hide Shifts, Divide, Join, ByteBits;
    forall b: bv8 { ByteEnters(b); }
  }

  lemma CodeTurns()
    ensures Turns(CODE)
  {
    hide Turn, Xor, Join, Shifts;
    forall r: bv16, b: bv8 { TurnIsEightShifts(r, b); }
  }

  lemma CodeIsBytewise()
    ensures Bytewise(CODE)
  {
    hide Algebra, Enters, Turns;
    CodeIsAlgebra();
    CodeEnters();
    CodeTurns();
  }

  // ---- the checksum ----

  /** The table-driven loop leaves the remainder of the message with 16 zero bits behind it. */
  lemma UpdateIsDivision(r: bv16, buff: seq<bv8>)
    ensures Update(CODE, r, buff) == Divide(CODE, Backs(CODE, r, 16), Bits(CODE, buff) + Zeros(16))
    ensures Shifts(CODE, Backs(CODE, r, 16), 16) == r
  {
    hide Bytewise;
    CodeIsBytewise();
    Crc.UpdateIsDivision(CODE, r, buff);
  }

  lemma LiftIsPlace(b: bv8)
    ensures Lift(CODE, b, 0) == Join(b) && Lift(CODE, b, 1) == b as bv16
  {
    hide Bytewise, Shifts, Algebra, Join;
    CodeIsAlgebra();
    ByteMeetsJoin(b);
    ShiftsBacks(CODE, Join(b), 8);
    ShiftsAreOneToOne(CODE, Lift(CODE, b, 1), b as bv16, 8);
  }

  function Pack(b0: bv8, b1: bv8): bv16 { Xor(Join(b0), b1 as bv16) }

  lemma PackIsOneToOne(a0: bv8, a1: bv8, b0: bv8, b1: bv8)
    requires Pack(a0, a1) == Pack(b0, b1)
    ensures a0 == b0 && a1 == b1
  {
  }

  lemma WordOfOne(a: seq<bv8>)
    requires |a| == 1
    ensures Word(CODE, a) == Pack(a[0], 0)
  {
    LiftIsPlace(a[0]);
    XorIsSum(0, Join(a[0]), 0);
    hide Lift, Xor, Join;
    assert a[..0] == [];
  }

  lemma WordOfTwo(a: seq<bv8>)
    requires |a| == 2
    ensures Word(CODE, a) == Pack(a[0], a[1])
  {
    WordOfOne(a[..1]);
    LiftIsPlace(a[1]);
    XorIsSum(Join(a[0]), 0, 0);
    hide Lift, Xor, Join;
  }

  lemma WordIsOneToOne(a: seq<bv8>, b: seq<bv8>)
    requires |a| == |b| <= 2 && Word(CODE, a) == Word(CODE, b)
    ensures a == b
  {
    hide Pack, Word;
    if |a| == 1 {
      WordOfOne(a);
      WordOfOne(b);
      PackIsOneToOne(a[0], 0, b[0], 0);
    } else if |a| == 2 {
      WordOfTwo(a);
      WordOfTwo(b);
      PackIsOneToOne(a[0], a[1], b[0], b[1]);
    }
  }

  /** Two messages of one length that differ only within two consecutive bytes never share a checksum. */
  lemma BurstIsSeen(crc: bv16, before: seq<bv8>, a: seq<bv8>, b: seq<bv8>, after: seq<bv8>)
    requires |a| == |b| <= 2 && a != b
    ensures Update(CODE, crc, before + a + after) != Update(CODE, crc, before + b + after)
  {
    hide Bytewise, Word, Update;
    CodeIsBytewise();
    if Word(CODE, a) == Word(CODE, b) { WordIsOneToOne(a, b); }
    Crc.BurstIsSeen(CODE, crc, before, a, b, after);
  }

  /** The checksum loop. The sign extension of a plain char is masked off before the table is read. */
  method CavanCrc16(crc: bv16, buff: seq<bv8>) returns (r: bv16)
    ensures r == Update(CODE, crc, buff)
    ensures r == Divide(CODE, Backs(CODE, crc, 16), Bits(CODE, buff) + Zeros(16))
  {
    hide Table, Turn, Divide, Backs;
    r := crc;
    for i := 0 to |buff|
      invariant r == Update(CODE, crc, buff[..i])
    {
      var b := buff[i];
      assert buff[..i + 1][..i] == buff[..i];
      r := Turn(r, b);
    }
    assert buff[..|buff|] == buff;
    UpdateIsDivision(crc, buff);
  }
}
