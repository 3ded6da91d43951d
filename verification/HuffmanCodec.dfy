/** Writing and reading a text with a Huffman tree (lib/codec.c): the saved frequency table, the recursive assignment
    of bit-reversed codes, the packing of codes into bytes from the low bit up, and the tree-walking decoder. */
module HuffmanCodec {
  import opened Bytes
  import opened HuffmanTree
  import opened HuffmanOptimal
  import opened HuffmanShape
  import opened Arithmetic

  // ---- numbers as bits, lowest first ----

  function BitsOf(v: nat, n: nat): (b: Bits)
    ensures |b| == n
  {
    if n == 0 then [] else [v % 2 == 1] + BitsOf(v / 2, n - 1)
  }

  function Value(b: Bits): nat {
    if b == [] then 0 else (if b[0] then 1 else 0) + 2 * Value(b[1..])
  }

  function Zeros(n: nat): Bits { seq(n, _ => false) }

  function Or(a: nat, b: nat): nat
    decreases a + b
  {
    if a == 0 then b
    else if b == 0 then a
    else (if a % 2 == 1 || b % 2 == 1 then 1 else 0) + 2 * Or(a / 2, b / 2)
  }

  lemma {:induction false} OrComm(a: nat, b: nat)
    ensures Or(a, b) == Or(b, a)
    decreases a + b
  {
    if a != 0 && b != 0 {
      OrComm(a / 2, b / 2);
    }
  }

  /** Bits that do not overlap add up. */
  lemma {:induction false} OrDisjoint(a: nat, q: nat, k: nat)
    requires a < Pow2(k)
    ensures Or(a, Pow2(k) * q) == a + Pow2(k) * q
  {
    if k > 0 && a > 0 && q > 0 {
      var b := Pow2(k - 1) * q;
      assert Pow2(k) * q == 2 * b;
      OrDisjoint(a / 2, q, k - 1);
      assert Or(a, 2 * b) == (if a % 2 == 1 then 1 else 0) + 2 * Or(a / 2, b);
    } else {
      assert k == 0 ==> a == 0;
      assert q == 0 ==> Pow2(k) * q == 0;
    }
  }

  lemma {:induction false} BitsOfValue(b: Bits)
    ensures Value(b) < Pow2(|b|) && BitsOf(Value(b), |b|) == b
  {
    if b != [] {
      BitsOfValue(b[1..]);
    }
  }

  lemma {:induction false} BitsOfZero(n: nat)
    ensures BitsOf(0, n) == Zeros(n)
  {
    if n > 0 {
      BitsOfZero(n - 1);
    }
  }

  function Low(c: nat, r: nat): nat { c % Pow2(r) }

  function Quotient(a: nat, m: nat): nat
    requires m > 0
  {
    a / m
  }

  /** c shifted right by r. */
  function High(c: nat, r: nat): nat { Quotient(c, Pow2(r)) }

  lemma LowHigh(c: nat, r: nat)
    ensures c == Low(c, r) + Pow2(r) * High(c, r) && Low(c, r) < Pow2(r)
  {
    DivMod(c, Pow2(r));
  }

  lemma HalfAbove(v: nat, p: nat, c: nat)
    ensures (v + (2 * p) * c) % 2 == v % 2 && (v + (2 * p) * c) / 2 == v / 2 + p * c
  {
    var x := p * c;
    assert (2 * p) * c == 2 * x;
  }

  /** Low bits of v, then all of c above them. */
  lemma {:induction false} BitsAbove(v: nat, o: nat, c: nat, n: nat)
    requires v < Pow2(o)
    ensures BitsOf(v + Pow2(o) * c, o + n) == BitsOf(v, o) + BitsOf(c, n)
  {
    if o == 0 {
      assert v + Pow2(0) * c == c;
    } else {
      HalfAbove(v, Pow2(o - 1), c);
      BitsAbove(v / 2, o - 1, c, n);
      hide BitsOf;
      assert [v % 2 == 1] + (BitsOf(v / 2, o - 1) + BitsOf(c, n)) == [v % 2 == 1] + BitsOf(v / 2, o - 1) + BitsOf(c, n);
    }
  }

  lemma BitsSplit(c: nat, r: nat, n: nat)
    ensures BitsOf(c, r + n) == BitsOf(Low(c, r), r) + BitsOf(High(c, r), n)
  {
    hide Pow2, BitsOf, Low, High;
    LowHigh(c, r);
    BitsAbove(Low(c, r), r, High(c, r), n);
  }

  /** Shifting within a byte: what falls off the top is the part above 8 - o bits. */
  lemma ShiftInByte(c: nat, o: nat)
    requires o <= 8
    ensures (Pow2(o) * c) % 256 == Pow2(o) * Low(c, 8 - o)
  {
    Pow2Of8();
    Pow2Add(o, 8 - o);
    ScaleMod(Pow2(o), Pow2(8 - o), c);
  }

  lemma ScaleMod(p: nat, r: nat, c: nat)
    requires p > 0 && r > 0 && p * r > 0
    ensures (p * c) % (p * r) == p * (c % r)
  {
    DivMod(c, r);
    Scaled(p, c % r, r);
    assert p * c == p * (c % r) + p * (r * (c / r));
    assert p * (r * (c / r)) == (p * r) * (c / r);
    Remainder(p * c, p * r, c / r, p * (c % r));
  }

  lemma Scaled(p: nat, x: nat, y: nat)
    requires p > 0 && x < y
    ensures 0 <= p * x < p * y
  {
  }

  // ---- the frequency table on the wire ----

  /** The saved entries of the symbols below k, zero counts left out. */
  function Table(counts: seq<nat>, k: nat): seq<(u8, nat)>
    requires |counts| == SYMBOLS && k <= SYMBOLS
  {
    if k == 0 then [] else Table(counts, k - 1) + if counts[k - 1] > 0 then [(k - 1, counts[k - 1])] else []
  }

  function Restore(table: seq<(u8, nat)>): (counts: seq<nat>)
    ensures |counts| == SYMBOLS
  {
    if table == [] then seq(SYMBOLS, _ => 0)
    else
      var last := table[|table| - 1];
      Restore(table[..|table| - 1])[last.0 := last.1]
  }

  lemma {:induction false} RestoreTable(counts: seq<nat>, k: nat)
    requires |counts| == SYMBOLS && k <= SYMBOLS
    ensures var r := Restore(Table(counts, k));
            forall s :: 0 <= s < SYMBOLS ==> r[s] == if s < k then counts[s] else 0
  {
    if k > 0 {
      RestoreTable(counts, k - 1);
      var t := Table(counts, k - 1);
      if counts[k - 1] > 0 {
        assert (t + [(k - 1, counts[k - 1])])[..|t|] == t;
      } else {
        assert t + [] == t;
      }
    }
  }

  /** The decoder starts from the encoder's frequency table. */
  lemma TableRoundTrip(counts: seq<nat>)
    requires |counts| == SYMBOLS
    ensures Restore(Table(counts, SYMBOLS)) == counts
  {
    RestoreTable(counts, SYMBOLS);
  }

  method CountSymbols(x: seq<u8>) returns (counts: seq<nat>)
    ensures counts == Counts(x)
  {
    counts := seq(SYMBOLS, _ => 0);
    for i := 0 to |x|
      invariant |counts| == SYMBOLS
      invariant forall s :: 0 <= s < SYMBOLS ==> counts[s] == Occurs(x[..i], s)
    {
      assert x[..i + 1] == x[..i] + [x[i]];
      forall s: u8
        ensures Occurs(x[..i + 1], s) == Occurs(x[..i], s) + if x[i] == s then 1 else 0
      {
        OccursSnoc(x[..i], x[i], s);
      }
      counts := counts[x[i] := counts[x[i]] + 1];
    }
    assert x[..|x|] == x;
  }

  lemma {:induction false} OccursSnoc(x: seq<u8>, last: u8, s: u8)
    ensures Occurs(x + [last], s) == Occurs(x, s) + if last == s then 1 else 0
  {
    if x == [] {
      assert [last][1..] == [];
    } else {
      assert (x + [last])[1..] == x[1..] + [last];
      OccursSnoc(x[1..], last, s);
    }
  }

  method WriteTable(counts: seq<nat>) returns (table: seq<(u8, nat)>)
    requires |counts| == SYMBOLS
    ensures table == Table(counts, SYMBOLS) && |table| <= SYMBOLS
  {
    table := [];
    for i := 0 to SYMBOLS
      invariant table == Table(counts, i) && |table| <= i
    {
      if counts[i] > 0 {
        table := table + [(i, counts[i])];
      }
    }
  }

  method ReadTable(table: seq<(u8, nat)>) returns (counts: seq<nat>)
    ensures counts == Restore(table)
  {
    counts := seq(SYMBOLS, _ => 0);
    for i := 0 to |table|
      invariant counts == Restore(table[..i])
    {
      assert table[..i + 1][..i] == table[..i];
      counts := counts[table[i].0 := table[i].1];
    }
    assert table[..|table|] == table;
  }

  // ---- code assignment ----

  /** The path as the recursion accumulates it: first step in the highest bit. */
  function Msb(p: Bits): nat {
    if p == [] then 0 else 2 * Msb(p[..|p| - 1]) + if p[|p| - 1] then 1 else 0
  }

  lemma {:induction false} MsbBound(p: Bits)
    ensures Msb(p) < Pow2(|p|)
  {
    if p != [] {
      MsbBound(p[..|p| - 1]);
    }
  }

  lemma {:induction false} MsbBit(p: Bits, i: nat)
    requires i < |p|
    ensures High(Msb(p), i) % 2 == if p[|p| - 1 - i] then 1 else 0
  {
    var init := p[..|p| - 1];
    if i > 0 {
      MsbBit(init, i - 1);
      assert Msb(p) / 2 == Msb(init);
      HalfFirst(Msb(p), Pow2(i - 1));
    }
  }

  lemma HalfFirst(x: nat, y: nat)
    requires y > 0
    ensures x / (2 * y) == (x / 2) / y
  {
    var q, r := (x / 2) / y, (x / 2) % y;
    assert x / 2 == y * q + r;
    assert x == (2 * y) * q + (2 * r + x % 2);
    Remainder(x, 2 * y, q, 2 * r + x % 2);
  }

  lemma MsbSnoc(p: Bits, b: bool)
    ensures Msb(p + [b]) == 2 * Msb(p) + if b then 1 else 0
  {
    assert (p + [b])[..|p|] == p;
  }

  /** The loop that turns a path value round, so that the first step is the lowest bit. */
  method Reverse(code: nat, length: nat, ghost path: Bits) returns (codeNew: nat)
    requires |path| == length && code == Msb(path)
    ensures codeNew == Value(path)
  {
    codeNew := 0;
    assert path[length..] == [] && Pow2(length) * 0 == 0;
    for i := 0 to length
      invariant codeNew == Pow2(length - i) * Value(path[length - i..])
    {
      MsbBit(path, i);
      ghost var k := length - i - 1;
      ghost var high := Value(path[k + 1..]);
      assert path[k..][1..] == path[k + 1..];
      assert codeNew == Pow2(k + 1) * high;
      ReverseStep(k, high);
      if High(code, i) % 2 == 1 {
        codeNew := Or(codeNew, Pow2(length - i - 1));
      }
    }
    assert path[0..] == path && Pow2(0) * Value(path) == Value(path);
  }

  lemma ReverseStep(k: nat, high: nat)
    ensures Or(Pow2(k + 1) * high, Pow2(k)) == Pow2(k) * (1 + 2 * high)
    ensures Pow2(k + 1) * high == Pow2(k) * (2 * high)
  {
    OrComm(Pow2(k + 1) * high, Pow2(k));
    OrDisjoint(Pow2(k), high, k + 1);
    assert Pow2(k + 1) * high == Pow2(k) * (2 * high);
    assert Pow2(k) * (1 + 2 * high) == Pow2(k) + Pow2(k) * (2 * high);
  }

  lemma ShiftCode(path: Bits)
    requires |path| < 64
    ensures (Msb(path) * 2) % Pow2(64) == Msb(path + [false])
    ensures (Msb(path) * 2) % Pow2(64) + 1 == Msb(path + [true])
  {
    MsbSnoc(path, false);
    MsbSnoc(path, true);
    MsbBound(path);
    Pow2Monotone(|path| + 1, 64);
    Remainder(Msb(path) * 2, Pow2(64), 0, Msb(path) * 2);
  }

  lemma PathStep(path: Bits, t: Tree, s: u8)
    requires t.Node? && Has(t, s)
    ensures Has(t.left, s) ==> path + [false] + Path(t.left, s) == path + Path(t, s)
    ensures !Has(t.left, s) ==> path + [true] + Path(t.right, s) == path + Path(t, s)
    ensures |Path(t, s)| == 1 + if Has(t.left, s) then |Path(t.left, s)| else |Path(t.right, s)|
  {
    if Has(t.left, s) {
      assert path + ([false] + Path(t.left, s)) == path + [false] + Path(t.left, s);
    } else {
      assert path + ([true] + Path(t.right, s)) == path + [true] + Path(t.right, s);
    }
  }

  /** The 64-bit code field limits the depth; CodesFitU64 says when that holds. */
  method SetCode(root: Tree, code: nat, length: nat, codes: array<nat>, lengths: array<nat>, ghost path: Bits)
    requires codes.Length == SYMBOLS == lengths.Length && codes != lengths
    requires Distinct(root) && |path| == length && code == Msb(path) && length + Height(root) <= 64
    modifies codes, lengths
    ensures forall s: u8 :: Has(root, s) ==>
              codes[s] == Value(path + Path(root, s)) && lengths[s] == length + |Path(root, s)|
    ensures forall s: u8 :: !Has(root, s) ==> codes[s] == old(codes[s]) && lengths[s] == old(lengths[s])
    decreases root
  {
    hide Msb, Pow2, Value;
    if root.Node? {
      ShiftCode(path);
      SetCode(root.left, (code * 2) % Pow2(64), length + 1, codes, lengths, path + [false]);
      SetCode(root.right, (code * 2) % Pow2(64) + 1, length + 1, codes, lengths, path + [true]);
      forall s: u8 | Has(root, s)
        ensures codes[s] == Value(path + Path(root, s)) && lengths[s] == length + |Path(root, s)|
      {
        PathStep(path, root, s);
      }
    } else {
      var codeNew := Reverse(code, length, path);
      codes[root.symbol] := codeNew;
      lengths[root.symbol] := length;
      assert path + [] == path;
    }
  }

  // ---- packing ----

  /** The bits of a byte string, lowest bit of the first byte first. */
  function Unpack(bytes: seq<u8>): (b: Bits)
    ensures |b| == 8 * |bytes|
  {
    if bytes == [] then [] else BitsOf(bytes[0], 8) + Unpack(bytes[1..])
  }

  lemma {:induction false} UnpackConcat(a: seq<u8>, b: seq<u8>)
    ensures Unpack(a + b) == Unpack(a) + Unpack(b)
  {
    if a == [] {
      assert a + b == b;
    } else {
      assert (a + b)[1..] == a[1..] + b;
      UnpackConcat(a[1..], b);
    }
  }

  /** The code word of a symbol; a tree of one leaf gives its symbol one zero bit. */
  function CodeWord(t: Tree, s: u8): Bits
    requires Has(t, s)
  {
    if t.Leaf? then [false] else Path(t, s)
  }

  function Encode(t: Tree, x: seq<u8>): Bits
    requires forall i :: 0 <= i < |x| ==> Has(t, x[i])
  {
    if x == [] then [] else Encode(t, x[..|x| - 1]) + CodeWord(t, x[|x| - 1])
  }

  /** One pass of the inner packing loop: the byte being filled takes as many code bits as fit. */
  lemma FillByte(value: nat, offset: nat, code: nat, length: nat)
    requires offset < 8 && value < Pow2(offset) && code < Pow2(length)
    ensures var v := Or(value, (Pow2(offset) * code) % 256);
            var remain := 8 - offset;
            && v < 256
            && (remain > length ==>
                  && v < Pow2(offset + length)
                  && BitsOf(v, offset + length) == BitsOf(value, offset) + BitsOf(code, length))
            && (remain <= length ==>
                  && High(code, remain) < Pow2(length - remain)
                  && BitsOf(v, 8) + BitsOf(High(code, remain), length - remain)
                     == BitsOf(value, offset) + BitsOf(code, length))
  {
    hide Pow2, BitsOf, Or, Low, High;
    var remain := 8 - offset;
    var low := Low(code, remain);
    ShiftInByte(code, offset);
    OrDisjoint(value, low, offset);
    LowHigh(code, remain);
    BitsAbove(value, offset, low, remain);
    FilledBound(value, offset, low, remain);
    Pow2Of8();
    if remain > length {
      LowOfShort(code, length, remain);
      BitsAbove(value, offset, code, length);
      FilledBound(value, offset, code, length);
    } else {
      BitsSplit(code, remain, length - remain);
      HighBound(code, remain, length);
      assert BitsOf(value, offset) + (BitsOf(low, remain) + BitsOf(High(code, remain), length - remain)) ==
             BitsOf(value, offset) + BitsOf(low, remain) + BitsOf(High(code, remain), length - remain);
    }
  }

  lemma LowOfShort(code: nat, length: nat, remain: nat)
    requires code < Pow2(length) && length <= remain
    ensures Low(code, remain) == code
  {
    Pow2Monotone(length, remain);
    Remainder(code, Pow2(remain), 0, code);
  }

  lemma HighBound(code: nat, remain: nat, length: nat)
    requires code < Pow2(length) && remain <= length
    ensures High(code, remain) < Pow2(length - remain)
  {
    Pow2Add(remain, length - remain);
    QuotientBound(code, Pow2(remain), Pow2(length - remain));
  }

  lemma FilledBound(value: nat, offset: nat, c: nat, n: nat)
    requires value < Pow2(offset) && c < Pow2(n)
    ensures value + Pow2(offset) * c < Pow2(offset + n)
  {
    Pow2Add(offset, n);
    RoomAbove(value, Pow2(offset), c, Pow2(n));
  }

  lemma RoomAbove(v: nat, p: nat, c: nat, q: nat)
    requires v < p && c < q
    ensures v + p * c < p * q
  {
    assert p * (q - c - 1) >= 0;
    assert p * (q - c - 1) == p * q - p * c - p;
  }

  lemma QuotientBound(c: nat, p: nat, q: nat)
    requires p > 0 && c < p * q
    ensures c / p < q
  {
    DivMod(c, p);
    assert p * (c / p - q) == p * (c / p) - p * q < 0;
    Multiple(p, c / p - q);
  }

  /** The packing loop for one symbol: whole bytes go out, the rest stays in value. */
  method PutCode(code0: nat, length0: nat, value0: u8, offset0: nat) returns (out: seq<u8>, value: u8, offset: nat)
    requires offset0 < 8 && value0 < Pow2(offset0) && code0 < Pow2(length0)
    ensures offset < 8 && value < Pow2(offset)
    ensures Unpack(out) + BitsOf(value, offset) == BitsOf(value0, offset0) + BitsOf(code0, length0)
  {
    hide Pow2, BitsOf, Or, Unpack;
    out, value, offset := [], value0, offset0;
    var code: nat, length: nat := code0, length0;
    ghost var goal := BitsOf(value0, offset0) + BitsOf(code0, length0);
    assert Unpack(out) + BitsOf(value, offset) + BitsOf(code, length) == goal;
    while true
      invariant offset < 8 && value < Pow2(offset) && code < Pow2(length)
      invariant Unpack(out) + BitsOf(value, offset) + BitsOf(code, length) == goal
      decreases length, if offset == 0 then 0 else 1
    {
      var remain := 8 - offset;
      FillByte(value, offset, code, length);
      ghost var before := BitsOf(value, offset) + BitsOf(code, length);
      assert Unpack(out) + BitsOf(value, offset) + BitsOf(code, length) == Unpack(out) + before;
      value := Or(value, (Pow2(offset) * code) % 256);
      if remain > length {
        offset := offset + length;
        return;
      }
      ghost var rest := BitsOf(High(code, remain), length - remain);
      UnpackConcat(out, [value]);
      UnpackOne(value);
      assert Unpack(out) + (BitsOf(value, 8) + rest) == Unpack(out + [value]) + rest;
      out := out + [value];
      value := 0;
      offset := 0;
      assert Unpack(out) + [] + rest == Unpack(out) + rest;
      if length == remain {
        break;
      }
      length := length - remain;
      code := High(code, remain);
    }
  }

  lemma UnpackOne(v: u8)
    ensures Unpack([v]) == BitsOf(v, 8)
  {
    assert [v][1..] == [];
  }

  method PackText(x: seq<u8>, codes: array<nat>, lengths: array<nat>, ghost t: Tree) returns (out: seq<u8>)
    requires codes.Length == SYMBOLS == lengths.Length
    requires forall i :: 0 <= i < |x| ==> Has(t, x[i])
    requires forall s: u8 :: Has(t, s) ==> codes[s] == Value(CodeWord(t, s)) && lengths[s] == |CodeWord(t, s)|
    ensures |Encode(t, x)| <= 8 * |out| < |Encode(t, x)| + 8
    ensures Unpack(out) == Encode(t, x) + Zeros(8 * |out| - |Encode(t, x)|)
  {
    hide Pow2, BitsOf, Unpack, Value, Has, Encode, CodeWord;
    assert x[..0] == [] && Encode(t, []) == [] by { EncodeNothing(t); }
    out := [];
    var value: u8, offset: nat := 0, 0;
    for i := 0 to |x|
      invariant offset < 8 && value < Pow2(offset)
      invariant Unpack(out) + BitsOf(value, offset) == Encode(t, x[..i])
    {
      CodeWordBits(t, x[i]);
      ghost var low := BitsOf(value, offset);
      var more;
      more, value, offset := PutCode(codes[x[i]], lengths[x[i]], value, offset);
      Appended(out, more, low, CodeWord(t, x[i]), BitsOf(value, offset));
      EncodeSnoc(t, x, i);
      out := out + more;
    }
    assert x[..|x|] == x;
    ghost var bits := Encode(t, x);
    if offset > 0 {
      LastByte(value, offset);
      UnpackConcat(out, [value]);
      UnpackOne(value);
      assert Unpack(out) + (BitsOf(value, offset) + Zeros(8 - offset)) == bits + Zeros(8 - offset);
      out := out + [value];
    } else {
      assert bits == Unpack(out) + [] && bits + Zeros(0) == bits;
    }
  }

  lemma CodeWordBits(t: Tree, s: u8)
    requires Has(t, s)
    ensures var w := CodeWord(t, s); Value(w) < Pow2(|w|) && BitsOf(Value(w), |w|) == w
  {
    BitsOfValue(CodeWord(t, s));
  }

  lemma Appended(out: seq<u8>, more: seq<u8>, low: Bits, w: Bits, left: Bits)
    requires Unpack(more) + left == low + w
    ensures Unpack(out + more) + left == Unpack(out) + low + w
  {
    hide Unpack;
    UnpackConcat(out, more);
    assert Unpack(out) + Unpack(more) + left == Unpack(out) + (Unpack(more) + left);
    assert Unpack(out) + (low + w) == Unpack(out) + low + w;
  }

  lemma EncodeNothing(t: Tree)
    ensures Encode(t, []) == []
  {
  }

  lemma EncodeSnoc(t: Tree, x: seq<u8>, i: nat)
    requires i < |x| && forall k :: 0 <= k < |x| ==> Has(t, x[k])
    ensures Encode(t, x[..i + 1]) == Encode(t, x[..i]) + CodeWord(t, x[i])
  {
    assert x[..i + 1][..i] == x[..i];
  }

  lemma LastByte(value: nat, offset: nat)
    requires offset < 8 && value < Pow2(offset)
    ensures BitsOf(value, 8) == BitsOf(value, offset) + Zeros(8 - offset)
  {
    hide Pow2, BitsOf;
    assert value + Pow2(offset) * 0 == value;
    BitsAbove(value, offset, 0, 8 - offset);
    BitsOfZero(8 - offset);
  }

  // ---- the decoder ----

  /** Walk from cur; at a leaf its symbol comes out and the walk starts again at the root. */
  function Walk(root: Tree, cur: Tree, bits: Bits): seq<u8>
    requires root.Node? && cur.Node?
    decreases |bits|
  {
    if bits == [] then []
    else
      var node := if bits[0] then cur.right else cur.left;
      if node.Node? then Walk(root, node, bits[1..]) else [node.symbol] + Walk(root, root, bits[1..])
  }

  method DecodeBytes(root: Tree, bytes: seq<u8>) returns (out: seq<u8>)
    requires root.Node?
    ensures out == Walk(root, root, Unpack(bytes))
  {
    hide Unpack, BitsOf;
    out := [];
    var cur := root;
    assert bytes[0..] == bytes;
    for i := 0 to |bytes|
      invariant cur.Node?
      invariant Walk(root, root, Unpack(bytes)) == out + Walk(root, cur, Unpack(bytes[i..]))
    {
      UnpackHead(bytes, i);
      var value := bytes[i];
      ghost var bits := Unpack(bytes[i..]);
      assert bits[0..] == bits;
      for offset := 0 to 8
        invariant cur.Node?
        invariant Walk(root, root, Unpack(bytes)) == out + Walk(root, cur, bits[offset..])
      {
        BitAt(value, offset);
        assert bits[offset] == BitsOf(value, 8)[offset] && bits[offset..][1..] == bits[offset + 1..];
        var node := if High(value, offset) % 2 == 1 then cur.right else cur.left;
        if node.Node? {
          cur := node;
        } else {
          out := out + [node.symbol];
          cur := root;
        }
      }
      assert bits[8..] == Unpack(bytes[i + 1..]);
    }
    assert bytes[|bytes|..] == [];
  }

  lemma UnpackHead(bytes: seq<u8>, i: nat)
    requires i < |bytes|
    ensures Unpack(bytes[i..]) == BitsOf(bytes[i], 8) + Unpack(bytes[i + 1..])
  {
    assert bytes[i..][1..] == bytes[i + 1..];
  }

  lemma BitAt(v: nat, k: nat)
    requires k < 8
    ensures BitsOf(v, 8)[k] <==> High(v, k) % 2 == 1
  {
    BitsSplit(v, k, 8 - k);
  }

  // ---- decoding what was encoded ----

  lemma {:induction false} WalkPath(root: Tree, cur: Tree, s: u8, rest: Bits)
    requires root.Node? && cur.Node? && Has(cur, s)
    ensures Walk(root, cur, Path(cur, s) + rest) == [s] + Walk(root, root, rest)
    decreases cur
  {
    var next := if Has(cur.left, s) then cur.left else cur.right;
    var bits := Path(cur, s) + rest;
    assert bits[1..] == Path(next, s) + rest;
    if next.Node? {
      WalkPath(root, next, s, rest);
    } else {
      assert bits[1..] == rest;
    }
  }

  lemma EncodeLast(root: Tree, x: seq<u8>, rest: Bits)
    requires root.Node? && x != [] && forall i :: 0 <= i < |x| ==> Has(root, x[i])
    ensures var init, s := x[..|x| - 1], x[|x| - 1];
            Encode(root, x) + rest == Encode(root, init) + (Path(root, s) + rest)
  {
    hide Path, Has;
  }

  lemma {:induction false} WalkEncoded(root: Tree, x: seq<u8>, rest: Bits)
    requires root.Node? && forall i :: 0 <= i < |x| ==> Has(root, x[i])
    ensures Walk(root, root, Encode(root, x) + rest) == x + Walk(root, root, rest)
    decreases |x|
  {
    hide Walk, Path, Has;
    var out := Walk(root, root, rest);
    if x == [] {
      assert Encode(root, x) + rest == rest && x + out == out;
    } else {
      var init, s := x[..|x| - 1], x[|x| - 1];
      EncodeLast(root, x, rest);
      hide Encode;
      WalkEncoded(root, init, Path(root, s) + rest);
      WalkPath(root, root, s, rest);
    }
  }

  function LeftDepth(t: Tree): (d: nat)
    ensures d > 0 <==> t.Node?
  {
    if t.Leaf? then 0 else 1 + LeftDepth(t.left)
  }

  /** How often the all-zero code fits into n bits. */
  function Fitting(t: Tree, n: nat): nat
    requires t.Node?
  {
    n / LeftDepth(t)
  }

  function LeftSymbol(t: Tree): u8 { if t.Leaf? then t.symbol else LeftSymbol(t.left) }

  function Copies(s: u8, n: nat): seq<u8> { seq(n, _ => s) }

  lemma {:induction false} WalkZeros(root: Tree, cur: Tree, n: nat)
    requires root.Node? && cur.Node?
    ensures Walk(root, cur, Zeros(n)) ==
            if n < LeftDepth(cur) then [] else [LeftSymbol(cur)] + Walk(root, root, Zeros(n - LeftDepth(cur)))
    decreases cur
  {
    if n > 0 {
      assert Zeros(n)[1..] == Zeros(n - 1);
      if cur.left.Node? {
        WalkZeros(root, cur.left, n - 1);
      }
    }
  }

  lemma {:induction false} WalkPadding(root: Tree, n: nat)
    requires root.Node?
    ensures Walk(root, root, Zeros(n)) == Copies(LeftSymbol(root), n / LeftDepth(root))
    decreases n
  {
    var d := LeftDepth(root);
    WalkZeros(root, root, n);
    if n >= d {
      hide Walk, LeftDepth;
      WalkPadding(root, n - d);
      DivStep(n, d);
    } else {
      Remainder(n, d, 0, n);
    }
  }

  lemma DivStep(n: nat, d: nat)
    requires 0 < d <= n
    ensures n / d == (n - d) / d + 1
  {
    DivMod(n - d, d);
    Remainder(n, d, (n - d) / d + 1, (n - d) % d);
  }

  ghost predicate Covers(t: Tree, x: seq<u8>) { forall i :: 0 <= i < |x| ==> Has(t, x[i]) }

  /** The file of a text: its code, and zeros to the end of the last byte that the code needs. */
  ghost predicate IsFile(t: Tree, x: seq<u8>, bytes: seq<u8>)
    requires Covers(t, x)
  {
    var n := |Encode(t, x)|;
    n <= 8 * |bytes| < n + 8 && Unpack(bytes) == Encode(t, x) + Zeros(8 * |bytes| - n)
  }

  /** Decoding the whole file gives the text followed by one copy of the all-zero symbol for every time its code fits
      into what the last byte has left. */
  lemma DecodeOfEncode(t: Tree, x: seq<u8>, bytes: seq<u8>)
    requires t.Node? && Covers(t, x) && IsFile(t, x, bytes)
    ensures Walk(t, t, Unpack(bytes)) ==
            x + Copies(LeftSymbol(t), Fitting(t, 8 * |bytes| - |Encode(t, x)|))
  {
    var left := 8 * |bytes| - |Encode(t, x)|;
    WalkEncoded(t, x, Zeros(left));
    WalkPadding(t, left);
  }

  lemma NoCopiesIff(x: seq<u8>, s: u8, left: nat, d: nat)
    requires d > 0
    ensures x + Copies(s, left / d) == x <==> left < d
  {
    if left >= d {
      DivStep(left, d);
      assert |x + Copies(s, left / d)| > |x|;
    } else {
      Remainder(left, d, 0, left);
      assert x + Copies(s, 0) == x;
    }
  }

  /** So the file decodes to exactly the text if and only if fewer bits are left than the leftmost path has steps. */
  lemma RoundTripIff(t: Tree, x: seq<u8>, bytes: seq<u8>)
    requires t.Node? && Covers(t, x) && IsFile(t, x, bytes)
    ensures Walk(t, t, Unpack(bytes)) == x <==> 8 * |bytes| - |Encode(t, x)| < LeftDepth(t)
  {
    var left, d := 8 * |bytes| - |Encode(t, x)|, LeftDepth(t);
    hide Walk, Encode, Unpack, LeftDepth, LeftSymbol, Has;
    DecodeOfEncode(t, x, bytes);
    NoCopiesIff(x, LeftSymbol(t), left, d);
  }

  /** A code of whole bytes always comes back. */
  lemma WholeBytesRoundTrip(t: Tree, x: seq<u8>, bytes: seq<u8>)
    requires t.Node? && Covers(t, x) && IsFile(t, x, bytes) && |Encode(t, x)| % 8 == 0
    ensures Walk(t, t, Unpack(bytes)) == x
  {
    hide Walk, Encode;
    assert 8 * |bytes| == |Encode(t, x)|;
    RoundTripIff(t, x, bytes);
  }

  /** The code of a text of one symbol is one zero bit for each byte. */
  lemma {:induction false} OneSymbolIsZeros(t: Tree, x: seq<u8>)
    requires t.Leaf? && Covers(t, x)
    ensures Encode(t, x) == Zeros(|x|)
  {
    if x != [] {
      OneSymbolIsZeros(t, x[..|x| - 1]);
    }
  }

  ghost predicate TwoSymbols(x: seq<u8>) { exists i, j :: 0 <= i < j < |x| && x[i] != x[j] }

  /** The tree a text is written and read with. */
  function TextTree(x: seq<u8>): Tree
    requires Live(Counts(x)) != []
  {
    TreeOf(Counts(x))
  }

  lemma TwoSymbolsMakeANode(x: seq<u8>)
    requires TwoSymbols(x)
    ensures Live(Counts(x)) != [] && TextTree(x).Node? && Covers(TextTree(x), x) && TextTree(x).count == |x|
  {
    hide QuickSort, Live, Merge;
    TreeOfText(x);
    var i, j :| 0 <= i < j < |x| && x[i] != x[j];
    assert x[i] in x && x[j] in x;
  }

  /** Two different bytes make a tree of two leaves, and take two bits. */
  lemma TwoBytesTree(a: u8, b: u8)
    requires a != b
    ensures Live(Counts([a, b])) != []
    ensures var x, t := [a, b], TextTree([a, b]);
            t.Node? && Covers(t, x) && |Encode(t, x)| == 2 && LeftDepth(t) == 1
  {
    hide QuickSort, Live, Merge;
    var x := [a, b];
    assert x[0] != x[1];
    TwoSymbolsMakeANode(x);
    TreeOfText(x);
    var t := TextTree(x);
    TextTreeIsBalanced(x);
    HasWeight(t.left);
    HasWeight(t.right);
    CountOneIsLeaf(t.left);
    CountOneIsLeaf(t.right);
    assert Has(t, x[0]) && Has(t, x[1]);
    hide TreeOf, Counts, Encode, LeftDepth;
    TwoLeavesCode(t, a, b);
  }

  lemma TwoLeavesCode(t: Tree, a: u8, b: u8)
    requires t.Node? && t.left.Leaf? && t.right.Leaf? && Has(t, a) && Has(t, b)
    ensures |Encode(t, [a, b])| == 2 && LeftDepth(t) == 1
  {
    assert [a, b][..1] == [a] && [a][..0] == [];
    OneStep(t, a);
    OneStep(t, b);
    hide Path, Has;
    assert Encode(t, [a]) == Encode(t, []) + CodeWord(t, a);
  }

  lemma OneStep(t: Tree, s: u8)
    requires t.Node? && t.left.Leaf? && t.right.Leaf? && Has(t, s)
    ensures |Path(t, s)| == 1
  {
    var next := if Has(t.left, s) then t.left else t.right;
    assert Path(next, s) == [];
  }

  /** The smallest text that does not survive: the file is one byte long, and the six bits left in it are read as six
      more symbols. */
  lemma TwoBytesDoNotRoundTrip(a: u8, b: u8, bytes: seq<u8>)
    requires a != b
    ensures Live(Counts([a, b])) != []
    ensures var x, t := [a, b], TextTree([a, b]);
            && t.Node? && Covers(t, x) && |Encode(t, x)| == 2
            && Walk(t, t, Encode(t, x) + Zeros(6)) == x + Copies(LeftSymbol(t), 6)
            && (IsFile(t, x, bytes) ==> |bytes| == 1 && Unpack(bytes) == Encode(t, x) + Zeros(6))
  {
    TwoBytesTree(a, b);
    hide Live, Walk, Unpack, Encode, LeftDepth, LeftSymbol, TextTree, Counts, Copies, Has;
    var x, t := [a, b], TextTree([a, b]);
    WalkEncoded(t, x, Zeros(6));
    WalkPadding(t, 6);
  }

  lemma TextTreeIsBalanced(x: seq<u8>)
    requires Live(Counts(x)) != []
    ensures Balanced(TextTree(x))
  {
    hide QuickSort, Live, Merge;
    LiveIsSorted(Counts(x));
    LeavesAreBalanced(Live(Counts(x)));
    MergeIsBalanced(Live(Counts(x)));
  }

  lemma CountOneIsLeaf(t: Tree)
    requires Balanced(t) && t.count == 1
    ensures t.Leaf?
  {
    if t.Node? {
      HasWeight(t.left);
      HasWeight(t.right);
      assert false;
    }
  }

  /** Cutting the decoded text at the total of the saved counts always restores the input. */
  lemma RoundTripWithLength(x: seq<u8>, bytes: seq<u8>)
    requires TwoSymbols(x)
    ensures Live(Counts(x)) != []
    ensures var t := TextTree(x);
            && t.Node? && Covers(t, x) && t.count == |x|
            && (IsFile(t, x, bytes) ==> |x| <= |Walk(t, t, Unpack(bytes))| && Walk(t, t, Unpack(bytes))[..t.count] == x)
  {
    hide QuickSort, Live, Merge, Walk, IsFile;
    TwoSymbolsMakeANode(x);
    if IsFile(TextTree(x), x, bytes) {
      DecodeOfEncode(TextTree(x), x, bytes);
    }
  }

  /** The number of bits written is the number PathTotal of HuffmanIsOptimal. */
  lemma {:induction false} EncodedLength(t: Tree, x: seq<u8>)
    requires t.Node? && forall i :: 0 <= i < |x| ==> Has(t, x[i])
    ensures |Encode(t, x)| == PathTotal(t, x)
    decreases |x|
  {
    if x != [] {
      var init, s := x[..|x| - 1], x[|x| - 1];
      EncodedLength(t, init);
      PathTotalSnoc(t, init, s);
      assert x == init + [s];
    }
  }

  lemma {:induction false} PathTotalSnoc(t: Tree, x: seq<u8>, s: u8)
    requires Has(t, s)
    ensures PathTotal(t, x + [s]) == PathTotal(t, x) + |Path(t, s)|
  {
    if x == [] {
      assert [s][1..] == [];
    } else {
      assert (x + [s])[1..] == x[1..] + [s];
      PathTotalSnoc(t, x[1..], s);
    }
  }

  // ---- the two programs ----

  /** Of a text too long for a 64-bit code only the depth bound is needed, so the length is limited by Fib(67). */
  method HuffmanEncode(x: seq<u8>) returns (table: seq<(u8, nat)>, out: seq<u8>)
    requires 0 < |x| < Fib(67)
    ensures Live(Counts(x)) != [] && Covers(TextTree(x), x)
    ensures table == Table(Counts(x), SYMBOLS)
    ensures var n := |Encode(TextTree(x), x)|;
            n <= 8 * |out| < n + 8 && Unpack(out) == Encode(TextTree(x), x) + Zeros(8 * |out| - n)
  {
    hide QuickSort, Live, Merge, Fib, Height, Unpack, Encode, Value, BitsOf, Pow2;
    var counts := CountSymbols(x);
    TreeOfText(x);
    var root := BuildTree(counts);
    forall i | 0 <= i < |x|
      ensures Has(root, x[i])
    {
      assert x[i] in x;
    }
    CodesFitU64(counts, x[0]);
    var codes, lengths := new nat[SYMBOLS], new nat[SYMBOLS];
    if root.Leaf? {
      codes, lengths := SetLeafCode(root, codes, lengths);
    } else {
      SetCode(root, 0, 0, codes, lengths, []);
      forall s: u8 | Has(root, s)
        ensures codes[s] == Value(CodeWord(root, s)) && lengths[s] == |CodeWord(root, s)|
      {
        assert [] + Path(root, s) == Path(root, s);
      }
    }
    table := WriteTable(counts);
    out := PackText(x, codes, lengths, root);
  }

  /** A tree of one leaf is given the one-bit code 0. */
  method SetLeafCode(root: Tree, codes0: array<nat>, lengths0: array<nat>)
    returns (codes: array<nat>, lengths: array<nat>)
    requires root.Leaf? && codes0.Length == SYMBOLS == lengths0.Length && codes0 != lengths0
    modifies codes0, lengths0
    ensures codes == codes0 && lengths == lengths0
    ensures forall s: u8 :: Has(root, s) ==> codes[s] == Value(CodeWord(root, s)) && lengths[s] == |CodeWord(root, s)|
  {
    codes, lengths := codes0, lengths0;
    assert [false][..0] == [];
    SetCode(root, 0, 1, codes, lengths, [false]);
    assert [false] + [] == [false];
  }

  method HuffmanDecode(table: seq<(u8, nat)>, bytes: seq<u8>) returns (out: seq<u8>)
    requires Live(Restore(table)) != [] && TreeOf(Restore(table)).Node?
    ensures var t := TreeOf(Restore(table)); out == Walk(t, t, Unpack(bytes))
  {
    var counts := ReadTable(table);
    var root := BuildTree(counts);
    out := DecodeBytes(root, bytes);
  }

  /** Encode, then decode: the text comes back with the surplus of DecodeOfEncode, that is, exactly if the last byte has
      fewer bits left than the leftmost path has steps; and so whenever the code fills its last byte. */
  method EncodeThenDecode(x: seq<u8>) returns (bytes: seq<u8>, out: seq<u8>)
    requires TwoSymbols(x) && |x| < Fib(67)
    ensures |out| >= |x| && out[..|x|] == x
    ensures Live(Counts(x)) != [] && Covers(TextTree(x), x)
    ensures var n := |Encode(TextTree(x), x)|;
            && n <= 8 * |bytes| < n + 8
            && (out == x <==> 8 * |bytes| - n < LeftDepth(TextTree(x)))
            && (n % 8 == 0 ==> out == x)
  {
    hide QuickSort, Live, Merge, Fib, Walk, Encode, Unpack;
    TwoSymbolsMakeANode(x);
    var table;
    table, bytes := HuffmanEncode(x);
    TableRoundTrip(Counts(x));
    out := HuffmanDecode(table, bytes);
    var t := TextTree(x);
    assert IsFile(t, x, bytes);
    RoundTripIff(t, x, bytes);
    RoundTripWithLength(x, bytes);
    if |Encode(t, x)| % 8 == 0 { WholeBytesRoundTrip(t, x, bytes); }
  }
}
