/** The Blowfish rounds of bcrypt (lib/bcrypt.c): for any P and S boxes, enciphering with the P box reversed undoes
    enciphering, so it is a bijection on 64-bit blocks. */
module Bcrypt {
  type Word = bv32

  const ROUNDS := 16
  const P_COUNT := 18

  /** The four S boxes as one table of 1024 words. */
  type SBox = s: seq<Word> | |s| == 1024 witness seq(1024, _ => 0)

  function At(s: SBox, box: nat, x: bv8): Word
    requires box < 4
  {
    s[256 * box + x as int]
  }

  function ByteOf(x: Word, shift: nat): bv8
    requires shift <= 24
  {
    ((x >> shift) & 0xff) as bv8
  }

  /** Addition modulo 2^32. */
  function Add(a: Word, b: Word): Word { a + b }

  function Xor(a: Word, b: Word): Word { a ^ b }

  /** The Feistel function. */
  function F(s: SBox, x: Word): Word {
    Add(Xor(Add(At(s, 0, ByteOf(x, 24)), At(s, 1, ByteOf(x, 16))), At(s, 2, ByteOf(x, 8))), At(s, 3, ByteOf(x, 0)))
  }

  function Bytes(a: bv8, b: bv8, c: bv8, d: bv8): Word {
    ((a as Word) << 24) | ((b as Word) << 16) | ((c as Word) << 8) | (d as Word)
  }

  lemma BytesOf(a: bv8, b: bv8, c: bv8, d: bv8)
    ensures var x := Bytes(a, b, c, d);
            ByteOf(x, 24) == a && ByteOf(x, 16) == b && ByteOf(x, 8) == c && ByteOf(x, 0) == d
  {
  }

  /** For every word put together of four bytes, the highest first: the entries of the first two boxes are added, that
      of the third is mixed in, and that of the fourth is added. */
  lemma RoundOfBytes(s: SBox, a: bv8, b: bv8, c: bv8, d: bv8, u: Word, v: Word, w: Word, x: Word)
    requires At(s, 0, a) == u && At(s, 1, b) == v && At(s, 2, c) == w && At(s, 3, d) == x
    ensures F(s, Bytes(a, b, c, d)) == Add(Xor(Add(u, v), w), x)
  {
    hide *;
    BytesOf(a, b, c, d);
    RoundOfEntries(s, Bytes(a, b, c, d));
  }

  lemma RoundOfEntries(s: SBox, x: Word)
    ensures F(s, x) ==
            var sum := Add(At(s, 0, ByteOf(x, 24)), At(s, 1, ByteOf(x, 16)));
            Add(Xor(sum, At(s, 2, ByteOf(x, 8))), At(s, 3, ByteOf(x, 0)))
  {
    hide At, ByteOf, Add, Xor;
  }

  /** The entries stand one box behind the other. */
  lemma EntryOf(a: seq<Word>, b: seq<Word>, c: seq<Word>, d: seq<Word>, x: bv8)
    requires |a| == |b| == |c| == |d| == 256
    ensures var s := a + b + c + d;
            && At(s, 0, x) == a[x as int] && At(s, 1, x) == b[x as int]
            && At(s, 2, x) == c[x as int] && At(s, 3, x) == d[x as int]
  {
  }

  /** Both operands of the rounds are mixed in by exclusive or. */
  function Mix(w: Word, n: Word, key: Word): Word { w ^ (n ^ key) }

  lemma MixTwice(w: Word, n: Word, key: Word)
    ensures Mix(Mix(w, n, key), n, key) == w
  {
  }

  lemma XorTwice(a: Word, b: Word)
    ensures Xor(Xor(a, b), b) == a
  {
  }

  /** The word produced by round k; round -1 is the right half as it comes in. */
  function Half(p: seq<Word>, s: SBox, l: Word, r: Word, k: int): Word
    requires |p| == P_COUNT && -1 <= k <= ROUNDS
    decreases k + 1
  {
    if k == -1 then r
    else if k == 0 then Xor(l, p[0])
    else Mix(Half(p, s, l, r, k - 2), F(s, Half(p, s, l, r, k - 1)), p[k])
  }

  function Encipher(p: seq<Word>, s: SBox, block: (Word, Word)): (Word, Word)
    requires |p| == P_COUNT
  {
    (Xor(Half(p, s, block.0, block.1, ROUNDS - 1), p[ROUNDS + 1]), Half(p, s, block.0, block.1, ROUNDS))
  }

  lemma HalfStep(p: seq<Word>, s: SBox, l: Word, r: Word, k: int)
    requires |p| == P_COUNT && -1 <= k <= ROUNDS
    ensures k == -1 ==> Half(p, s, l, r, k) == r
    ensures k == 0 ==> Half(p, s, l, r, k) == Xor(l, p[0])
    ensures k > 0 ==> Half(p, s, l, r, k) == Mix(Half(p, s, l, r, k - 2), F(s, Half(p, s, l, r, k - 1)), p[k])
  {
    hide F, Mix, Xor;
  }

  method Substitute(s: SBox, x: Word) returns (n: Word)
    ensures n == F(s, x)
  {
    hide At, ByteOf, Add, Xor;
    n := At(s, 0, ByteOf(x, 24));
    n := Add(n, At(s, 1, ByteOf(x, 16)));
    n := Xor(n, At(s, 2, ByteOf(x, 8)));
    n := Add(n, At(s, 3, ByteOf(x, 0)));
  }

  method EncipherBlock(p: array<Word>, s: SBox, lr: array<Word>, off: nat)
    requires p.Length == P_COUNT && off + 1 < lr.Length && p != lr
    modifies lr
    ensures var c := Encipher(p[..], s, (old(lr[off]), old(lr[off + 1])));
            lr[..] == old(lr[..])[off := c.0][off + 1 := c.1]
  {
    hide F, Mix, Xor, Half;
    ghost var l0, r0, q := lr[off], lr[off + 1], p[..];
    var l := Xor(lr[off], p[0]);
    var r := lr[off + 1];
    var i := 0;
    HalfStep(q, s, l0, r0, -1);
    HalfStep(q, s, l0, r0, 0);
    while i <= ROUNDS - 2
      invariant 0 <= i <= ROUNDS && i % 2 == 0 && lr[..] == old(lr[..])
      invariant l == Half(q, s, l0, r0, i) && r == Half(q, s, l0, r0, i - 1)
      decreases ROUNDS - i
    {
      HalfStep(q, s, l0, r0, i + 1);
      HalfStep(q, s, l0, r0, i + 2);
      var n := Substitute(s, l);
      i := i + 1;
      r := Mix(r, n, p[i]);
      n := Substitute(s, r);
      i := i + 1;
      l := Mix(l, n, p[i]);
    }
    assert i == ROUNDS;
    lr[off] := Xor(r, p[ROUNDS + 1]);
    lr[off + 1] := l;
    assert p[..] == q;
    ghost var c := Encipher(q, s, (l0, r0));
    assert lr[..] == old(lr[..])[off := c.0][off + 1 := c.1];
  }

  function Reversed(p: seq<Word>): (q: seq<Word>)
    ensures |q| == |p|
  {
    seq(|p|, i requires 0 <= i < |p| => p[|p| - 1 - i])
  }

  /** Running backwards meets the same halves in the opposite order. */
  lemma {:induction false} HalvesRunBack(p: seq<Word>, s: SBox, l: Word, r: Word, k: int)
    requires |p| == P_COUNT && -1 <= k <= ROUNDS
    ensures var c := Encipher(p, s, (l, r));
            Half(Reversed(p), s, c.0, c.1, k) == Half(p, s, l, r, ROUNDS - 1 - k)
    decreases k + 1
  {
    hide F, Mix, Xor, Half;
    var c, q := Encipher(p, s, (l, r)), Reversed(p);
    HalfStep(q, s, c.0, c.1, k);
    if k == 0 {
      assert q[0] == p[ROUNDS + 1];
      XorTwice(Half(p, s, l, r, ROUNDS - 1), p[ROUNDS + 1]);
    } else if k > 0 {
      HalvesRunBack(p, s, l, r, k - 1);
      HalvesRunBack(p, s, l, r, k - 2);
      var m := ROUNDS + 1 - k;
      assert q[k] == p[m];
      HalfStep(p, s, l, r, m);
      MixTwice(Half(p, s, l, r, m - 2), F(s, Half(p, s, l, r, m - 1)), p[m]);
    }
  }

  /** Enciphering with the reversed P box is the inverse, whatever the boxes hold. */
  lemma DecipherEncipher(p: seq<Word>, s: SBox, block: (Word, Word))
    requires |p| == P_COUNT
    ensures Encipher(Reversed(p), s, Encipher(p, s, block)) == block
  {
    hide F, Mix, Xor, Half;
    HalvesRunBack(p, s, block.0, block.1, ROUNDS - 1);
    HalvesRunBack(p, s, block.0, block.1, ROUNDS);
    HalfStep(p, s, block.0, block.1, 0);
    HalfStep(p, s, block.0, block.1, -1);
    assert Reversed(p)[ROUNDS + 1] == p[0];
    XorTwice(block.0, p[0]);
  }

  /** So enciphering is one-to-one. */
  lemma EncipherIsInjective(p: seq<Word>, s: SBox, a: (Word, Word), b: (Word, Word))
    requires |p| == P_COUNT && Encipher(p, s, a) == Encipher(p, s, b)
    ensures a == b
  {
    hide Encipher;
    DecipherEncipher(p, s, a);
    DecipherEncipher(p, s, b);
  }

  /** And onto: every block is the cipher of what the reversed box makes of it. */
  lemma EncipherIsOnto(p: seq<Word>, s: SBox, c: (Word, Word))
    requires |p| == P_COUNT
    ensures Encipher(p, s, Encipher(Reversed(p), s, c)) == c
  {
    DecipherEncipher(Reversed(p), s, c);
    assert Reversed(Reversed(p)) == p;
  }

  // ---- every key is used ----

  lemma XorTells(a: Word, b: Word, c: Word)
    ensures Xor(a, b) == Xor(a, c) ==> b == c
    ensures Xor(a, c) == Xor(b, c) ==> a == b
  {
  }

  lemma MixTells(w: Word, n: Word, a: Word, b: Word)
    ensures Mix(w, n, a) == Mix(w, n, b) ==> a == b
  {
  }

  ghost predicate DifferAt(p: seq<Word>, q: seq<Word>, i: nat) {
    && |p| == |q| == P_COUNT && i < P_COUNT && p[i] != q[i]
    && forall k :: 0 <= k < P_COUNT && k != i ==> p[k] == q[k]
  }

  lemma {:induction false} SameBefore(p: seq<Word>, q: seq<Word>, s: SBox, l: Word, r: Word, i: nat, k: int)
    requires DifferAt(p, q, i) && -1 <= k < i && k <= ROUNDS
    ensures Half(p, s, l, r, k) == Half(q, s, l, r, k)
    decreases k + 1
  {
    hide F, Mix, Xor, Half;
    HalfStep(p, s, l, r, k);
    HalfStep(q, s, l, r, k);
    if k > 0 {
      SameBefore(p, q, s, l, r, i, k - 1);
      SameBefore(p, q, s, l, r, i, k - 2);
    }
  }

  /** From the round of the differing key on, the two halves are never both the same again. */
  lemma {:induction false} PairsDiffer(p: seq<Word>, q: seq<Word>, s: SBox, l: Word, r: Word, i: nat, k: nat)
    requires DifferAt(p, q, i) && i <= k <= ROUNDS
    ensures Half(p, s, l, r, k) != Half(q, s, l, r, k) || Half(p, s, l, r, k - 1) != Half(q, s, l, r, k - 1)
    decreases k
  {
    hide F, Mix, Xor, Half;
    HalfStep(p, s, l, r, k);
    HalfStep(q, s, l, r, k);
    if k == i {
      SameBefore(p, q, s, l, r, i, k - 1);
      if k == 0 {
        XorTells(l, p[0], q[0]);
      } else {
        SameBefore(p, q, s, l, r, i, k - 2);
        MixTells(Half(p, s, l, r, k - 2), F(s, Half(p, s, l, r, k - 1)), p[k], q[k]);
      }
    } else {
      PairsDiffer(p, q, s, l, r, i, k - 1);
      var n, m := F(s, Half(p, s, l, r, k - 1)), F(s, Half(q, s, l, r, k - 1));
      MixTwice(Half(p, s, l, r, k - 2), n, p[k]);
      MixTwice(Half(q, s, l, r, k - 2), m, q[k]);
    }
  }

  /** Changing any one of the eighteen subkeys changes the cipher of every block. */
  lemma EveryKeyCounts(p: seq<Word>, q: seq<Word>, s: SBox, block: (Word, Word), i: nat)
    requires DifferAt(p, q, i)
    ensures Encipher(p, s, block) != Encipher(q, s, block)
  {
    hide F, Mix, Xor, Half;
    var (l, r) := block;
    var a, b := Half(p, s, l, r, ROUNDS - 1), Half(q, s, l, r, ROUNDS - 1);
    if i <= ROUNDS {
      PairsDiffer(p, q, s, l, r, i, ROUNDS);
      XorTells(a, b, p[ROUNDS + 1]);
    } else {
      SameBefore(p, q, s, l, r, i, ROUNDS - 1);
      XorTells(a, p[ROUNDS + 1], q[ROUNDS + 1]);
    }
  }
}
