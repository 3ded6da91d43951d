/** Table-driven checksums (lib/crc.c) over any register: the loop over the bytes is division of the whole message by
    the generator polynomial, whichever end of the register the bits enter at. */
module Crc {
  /** A register of width bits, with addition, multiplication by x modulo the generator and its inverse, the bits of a
      byte in the order they are divided, the place where a byte meets the register, and one turn of the loop. */
  datatype Code<!R> = Code(
    width: nat, zero: R, one: R, xor: (R, R) -> R, shift: R -> R, back: R -> R,
    bits: bv8 -> seq<bool>, join: bv8 -> R, turn: (R, bv8) -> R)

  ghost predicate Additive<R(!new)>(g: Code<R>) {
    && (forall a, b, c :: g.xor(g.xor(a, b), c) == g.xor(a, g.xor(b, c)))
    && (forall a, b :: g.xor(a, b) == g.xor(b, a))
    && (forall a :: g.xor(a, g.zero) == a)
    && (forall a :: g.xor(a, a) == g.zero)
  }

  ghost predicate Linear<R(!new)>(g: Code<R>) {
    forall a, b :: g.shift(g.xor(a, b)) == g.xor(g.shift(a), g.shift(b))
  }

  ghost predicate Reversible<R(!new)>(g: Code<R>) {
    forall a :: g.back(g.shift(a)) == a && g.shift(g.back(a)) == a
  }

  /** Addition is that of a vector space, and a shift is linear and can be undone. */
  ghost predicate Algebra<R(!new)>(g: Code<R>) { Additive(g) && Linear(g) && Reversible(g) }

  function Shifts<R>(g: Code<R>, r: R, n: nat): R { if n == 0 then r else g.shift(Shifts(g, r, n - 1)) }

  function Backs<R>(g: Code<R>, r: R, n: nat): R { if n == 0 then r else g.back(Backs(g, r, n - 1)) }

  /** Schoolbook division by the generator: each further coefficient of the dividend joins the remainder at its low end,
      and the generator is subtracted when the remainder has grown to its degree. */
  function Divide<R>(g: Code<R>, r: R, dividend: seq<bool>): R {
    if dividend == [] then r
    else g.xor(g.shift(Divide(g, r, dividend[..|dividend| - 1])), Unit(g, dividend[|dividend| - 1]))
  }

  function Unit<R>(g: Code<R>, coefficient: bool): R { if coefficient then g.one else g.zero }

  function Zeros(n: nat): seq<bool> { seq(n, _ => false) }

  function Update<R>(g: Code<R>, r: R, buff: seq<bv8>): R {
    if buff == [] then r else g.turn(Update(g, r, buff[..|buff| - 1]), buff[|buff| - 1])
  }

  /** The bits of the message in the order they are divided. */
  function Bits<R>(g: Code<R>, buff: seq<bv8>): seq<bool> {
    if buff == [] then [] else Bits(g, buff[..|buff| - 1]) + g.bits(buff[|buff| - 1])
  }

  /** Eight bits that entered an empty register come to meet it where a byte does. */
  ghost predicate Enters<R>(g: Code<R>) {
    && g.width >= 8
    && forall b :: |g.bits(b)| == 8 && Shifts(g, Divide(g, g.zero, g.bits(b)), g.width - 8) == g.join(b)
  }

  /** A turn is the sum of register and byte, shifted eight times. */
  ghost predicate Turns<R(!new)>(g: Code<R>) {
    forall r, b :: g.turn(r, b) == Shifts(g, g.xor(r, g.join(b)), 8)
  }

  ghost predicate Bytewise<R(!new)>(g: Code<R>) { Algebra(g) && Enters(g) && Turns(g) }

  // ---- the laws, one at a time ----

  lemma XorLaws<R(!new)>(g: Code<R>, a: R, b: R, c: R)
    requires Algebra(g)
    ensures g.xor(g.xor(a, b), c) == g.xor(a, g.xor(b, c)) && g.xor(a, b) == g.xor(b, a)
    ensures g.xor(a, g.zero) == a && g.xor(a, a) == g.zero
  {
  }

  lemma ShiftLaws<R(!new)>(g: Code<R>, a: R, b: R)
    requires Algebra(g)
    ensures g.shift(g.xor(a, b)) == g.xor(g.shift(a), g.shift(b))
    ensures g.back(g.shift(a)) == a && g.shift(g.back(a)) == a
  {
  }

  lemma ByteLaws<R(!new)>(g: Code<R>, r: R, b: bv8)
    requires Bytewise(g)
    ensures Algebra(g) && g.width >= 8 && |g.bits(b)| == 8
    ensures Shifts(g, Divide(g, g.zero, g.bits(b)), g.width - 8) == g.join(b)
    ensures g.turn(r, b) == Shifts(g, g.xor(r, g.join(b)), 8)
  {
  }

  lemma XorCancels<R(!new)>(g: Code<R>, a: R, b: R, c: R)
    requires Algebra(g) && g.xor(a, b) == g.xor(a, c)
    ensures b == c
  {
    hide Algebra;
    XorLaws(g, a, a, b);
    XorLaws(g, a, a, c);
    XorLaws(g, b, g.zero, c);
    XorLaws(g, c, g.zero, b);
  }

  // ---- many shifts ----

  lemma {:induction false} ShiftsXor<R(!new)>(g: Code<R>, a: R, b: R, n: nat)
    requires Algebra(g)
    ensures Shifts(g, g.xor(a, b), n) == g.xor(Shifts(g, a, n), Shifts(g, b, n))
  {
    hide Algebra;
    if n > 0 {
      ShiftsXor(g, a, b, n - 1);
      ShiftLaws(g, Shifts(g, a, n - 1), Shifts(g, b, n - 1));
    }
  }

  lemma {:induction false} ShiftsAdd<R>(g: Code<R>, r: R, m: nat, n: nat)
    ensures Shifts(g, r, m + n) == Shifts(g, Shifts(g, r, m), n)
  {
    if n > 0 {
      ShiftsAdd(g, r, m, n - 1);
    }
  }

  lemma {:induction false} ShiftsBacks<R(!new)>(g: Code<R>, r: R, n: nat)
    requires Algebra(g)
    ensures Shifts(g, Backs(g, r, n), n) == r
  {
    hide Algebra;
    if n > 0 {
      var b := Backs(g, r, n - 1);
      ShiftsBacks(g, r, n - 1);
      ShiftLaws(g, b, b);
      ShiftsAdd(g, g.back(b), 1, n - 1);
      assert Shifts(g, g.back(b), 1) == g.shift(Shifts(g, g.back(b), 0));
    }
  }

  lemma {:induction false} ShiftsAreOneToOne<R(!new)>(g: Code<R>, a: R, b: R, n: nat)
    requires Algebra(g) && Shifts(g, a, n) == Shifts(g, b, n)
    ensures a == b
  {
    hide Algebra;
    if n > 0 {
      ShiftLaws(g, Shifts(g, a, n - 1), a);
      ShiftLaws(g, Shifts(g, b, n - 1), b);
      ShiftsAreOneToOne(g, a, b, n - 1);
    }
  }

  // ---- the loop divides ----

  lemma DivideSnoc<R>(g: Code<R>, r: R, t: seq<bool>, x: bool)
    ensures Divide(g, r, t + [x]) == g.xor(g.shift(Divide(g, r, t)), Unit(g, x))
  {
    hide Unit;
    assert (t + [x])[..|t|] == t;
  }

  lemma {:induction false} DivideAppend<R>(g: Code<R>, r: R, m: seq<bool>, t: seq<bool>)
    ensures Divide(g, r, m + t) == Divide(g, Divide(g, r, m), t)
  {
    hide Unit;
    if t == [] {
      assert m + t == m;
    } else {
      var init, x := t[..|t| - 1], t[|t| - 1];
      DivideAppend(g, r, m, init);
      assert m + t == (m + init) + [x];
      DivideSnoc(g, r, m + init, x);
    }
  }

  /** The bits of a byte, divided one after the other, as any function that follows each of them says. */
  lemma {:induction false} DivideBits<R>(g: Code<R>, b: bv8, part: (bv8, nat) -> R, k: nat)
    requires k <= 8 == |g.bits(b)| && part(b, 0) == g.zero
    requires forall i :: 0 <= i < 8 ==> part(b, i + 1) == g.xor(g.shift(part(b, i)), Unit(g, g.bits(b)[i]))
    ensures Divide(g, g.zero, g.bits(b)[..k]) == part(b, k)
  {
    hide Unit;
    if k > 0 {
      DivideBits(g, b, part, k - 1);
      assert g.bits(b)[..k] == g.bits(b)[..k - 1] + [g.bits(b)[k - 1]];
      DivideSnoc(g, g.zero, g.bits(b)[..k - 1], g.bits(b)[k - 1]);
    }
  }

  lemma {:induction false} DivideIsLinear<R(!new)>(g: Code<R>, r: R, t: seq<bool>)
    requires Algebra(g)
    ensures Divide(g, r, t) == g.xor(Shifts(g, r, |t|), Divide(g, g.zero, t))
  {
    hide Algebra, Unit;
    if t == [] {
      XorLaws(g, r, r, r);
    } else {
      var init, unit := t[..|t| - 1], Unit(g, t[|t| - 1]);
      DivideIsLinear(g, r, init);
      ShiftLaws(g, Shifts(g, r, |init|), Divide(g, g.zero, init));
      XorLaws(g, Shifts(g, r, |t|), g.shift(Divide(g, g.zero, init)), unit);
    }
  }

  lemma {:induction false} DivideZeros<R(!new)>(g: Code<R>, r: R, n: nat)
    requires Algebra(g)
    ensures Divide(g, r, Zeros(n)) == Shifts(g, r, n)
  {
    hide Algebra;
    if n > 0 {
      DivideZeros(g, r, n - 1);
      assert Zeros(n) == Zeros(n - 1) + [false];
      DivideSnoc(g, r, Zeros(n - 1), false);
      XorLaws(g, Shifts(g, r, n), r, r);
    }
  }

  lemma DivideNextByte<R(!new)>(g: Code<R>, s: R, m: seq<bool>, b: bv8)
    requires Bytewise(g)
    ensures Shifts(g, Divide(g, s, m + g.bits(b)), g.width) == g.turn(Shifts(g, Divide(g, s, m), g.width), b)
  {
    var d, t, w := Divide(g, s, m), g.bits(b), g.width;
    var entered, j := Divide(g, g.zero, t), g.join(b);
    hide *;
    ByteLaws(g, Shifts(g, d, w), b);
    DivideAppend(g, s, m, t);
    DivideIsLinear(g, d, t);
    ShiftsXor(g, Shifts(g, d, 8), entered, w);
    ShiftsXor(g, Shifts(g, d, w), j, 8);
    ShiftsAdd(g, d, 8, w);
    ShiftsAdd(g, d, w, 8);
    ShiftsAdd(g, entered, w - 8, 8);
  }

  lemma {:induction false} UpdateDivides<R(!new)>(g: Code<R>, s: R, buff: seq<bv8>)
    requires Bytewise(g)
    ensures Update(g, Shifts(g, s, g.width), buff) == Shifts(g, Divide(g, s, Bits(g, buff)), g.width)
  {
    hide Bytewise, Shifts;
    if buff != [] {
      var init, b := buff[..|buff| - 1], buff[|buff| - 1];
      UpdateDivides(g, s, init);
      DivideNextByte(g, s, Bits(g, init), b);
    }
  }

  /** The table-driven loop leaves the remainder of the whole message, width zero bits behind it, on division by the
      generator. The division starts from the register that would come to the loop's start in width shifts. */
  lemma UpdateIsDivision<R(!new)>(g: Code<R>, r: R, buff: seq<bv8>)
    requires Bytewise(g)
    ensures Update(g, r, buff) == Divide(g, Backs(g, r, g.width), Bits(g, buff) + Zeros(g.width))
    ensures Shifts(g, Backs(g, r, g.width), g.width) == r
  {
    ByteLaws(g, r, 0);
    hide Bytewise, Algebra;
    var s := Backs(g, r, g.width);
    ShiftsBacks(g, r, g.width);
    UpdateDivides(g, s, buff);
    DivideAppend(g, s, Bits(g, buff), Zeros(g.width));
    DivideZeros(g, Divide(g, s, Bits(g, buff)), g.width);
  }

  lemma UpdateSnoc<R>(g: Code<R>, r: R, t: seq<bv8>, b: bv8)
    ensures Update(g, r, t + [b]) == g.turn(Update(g, r, t), b)
  {
    assert (t + [b])[..|t|] == t;
  }

  lemma {:induction false} UpdateAppend<R>(g: Code<R>, r: R, a: seq<bv8>, b: seq<bv8>)
    ensures Update(g, r, a + b) == Update(g, Update(g, r, a), b)
  {
    if b == [] {
      assert a + b == a;
    } else {
      var init, x := b[..|b| - 1], b[|b| - 1];
      assert b == init + [x] && a + b == (a + init) + [x];
      hide *;
      UpdateAppend(g, r, a, init);
      UpdateSnoc(g, r, a + init, x);
      UpdateSnoc(g, Update(g, r, a), init, x);
    }
  }

  // ---- short differences are seen ----

  lemma {:induction false} UpdateIsOneToOne<R(!new)>(g: Code<R>, r: R, s: R, buff: seq<bv8>)
    requires Bytewise(g) && Update(g, r, buff) == Update(g, s, buff)
    ensures r == s
  {
    hide Bytewise, Algebra, Shifts;
    if buff != [] {
      var init, b := buff[..|buff| - 1], buff[|buff| - 1];
      var x, y, j := Update(g, r, init), Update(g, s, init), g.join(b);
      ByteLaws(g, x, b);
      ByteLaws(g, y, b);
      ShiftsAreOneToOne(g, g.xor(x, j), g.xor(y, j), 8);
      XorLaws(g, x, j, j);
      XorLaws(g, y, j, j);
      XorCancels(g, j, x, y);
      UpdateIsOneToOne(g, r, s, init);
    }
  }

  /** A byte in the place from which 8 * k shifts bring it to where it meets the register. */
  function Lift<R>(g: Code<R>, b: bv8, k: nat): R { Backs(g, g.join(b), 8 * k) }

  /** The word of a short message: its bytes side by side. */
  function Word<R>(g: Code<R>, a: seq<bv8>): R {
    if a == [] then g.zero else g.xor(Word(g, a[..|a| - 1]), Lift(g, a[|a| - 1], |a| - 1))
  }

  /** A short message acts like one word added to the register. */
  lemma {:induction false} UpdateWord<R(!new)>(g: Code<R>, r: R, a: seq<bv8>)
    requires Bytewise(g)
    ensures Update(g, r, a) == Shifts(g, g.xor(r, Word(g, a)), 8 * |a|)
  {
    hide *;
    ByteLaws(g, r, 0);
    if a == [] {
      NoWord(g, r);
      XorLaws(g, r, r, r);
    } else {
      var init, b, n := a[..|a| - 1], a[|a| - 1], |a| - 1;
      UpdateWord(g, r, init);
      OneByte(g, r, a);
      WordStep(g, r, Word(g, init), b, n);
    }
  }

  lemma WordStep<R(!new)>(g: Code<R>, r: R, w: R, b: bv8, n: nat)
    requires Bytewise(g)
    ensures g.turn(Shifts(g, g.xor(r, w), 8 * n), b) == Shifts(g, g.xor(r, g.xor(w, Lift(g, b, n))), 8 * (n + 1))
  {
    hide *;
    var l, x := Lift(g, b, n), g.xor(r, w);
    ByteLaws(g, r, b);
    AddToWord(g, x, b, n);
    XorLaws(g, r, w, l);
  }

  lemma NoWord<R>(g: Code<R>, r: R)
    ensures Word(g, []) == g.zero && Update(g, r, []) == r && Shifts(g, r, 0) == r
  {
  }

  lemma OneByte<R>(g: Code<R>, r: R, a: seq<bv8>)
    requires a != []
    ensures var init, b, n := a[..|a| - 1], a[|a| - 1], |a| - 1;
            Word(g, a) == g.xor(Word(g, init), Lift(g, b, n)) && Update(g, r, a) == g.turn(Update(g, r, init), b)
  {
  }

  lemma AddToWord<R(!new)>(g: Code<R>, x: R, b: bv8, n: nat)
    requires Bytewise(g)
    ensures g.turn(Shifts(g, x, 8 * n), b) == Shifts(g, g.xor(x, Lift(g, b, n)), 8 * n + 8)
  {
    var j, m := g.join(b), 8 * n;
    var l := Backs(g, j, m);
    ByteLaws(g, Shifts(g, x, m), b);
    hide *;
    ShiftsBacks(g, j, m);
    ShiftsXor(g, x, l, m);
    ShiftsAdd(g, g.xor(x, l), m, 8);
  }

  /** Two messages that differ only within a stretch whose words differ never leave the same register. */
  lemma BurstIsSeen<R(!new)>(g: Code<R>, r: R, before: seq<bv8>, a: seq<bv8>, b: seq<bv8>, after: seq<bv8>)
    requires Bytewise(g) && |a| == |b| && Word(g, a) != Word(g, b)
    ensures Update(g, r, before + a + after) != Update(g, r, before + b + after)
  {
    ByteLaws(g, r, 0);
    hide Bytewise, Algebra, Shifts, Update, Word;
    UpdateAppend(g, r, before + a, after);
    UpdateAppend(g, r, before + b, after);
    UpdateAppend(g, r, before, a);
    UpdateAppend(g, r, before, b);
    var s := Update(g, r, before);
    var x, y := Update(g, s, a), Update(g, s, b);
    if Update(g, x, after) == Update(g, y, after) {
      UpdateIsOneToOne(g, x, y, after);
      UpdateWord(g, s, a);
      UpdateWord(g, s, b);
      ShiftsAreOneToOne(g, g.xor(s, Word(g, a)), g.xor(s, Word(g, b)), 8 * |a|);
      XorCancels(g, s, Word(g, a), Word(g, b));
    }
  }
}
