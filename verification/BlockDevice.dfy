/** Byte access to a block device by whole blocks (lib/device.c): the geometry set up by the init function, and the
    read and write loops that go through one block at a time. The driver behind the two function pointers is a disk
    image whose blocks may be unreadable or unwritable. */
module BlockDevice {
  import opened Arithmetic
  import opened Bytes
  import opened Wrappers

  // ---- geometry ----

  datatype Geometry = Geometry(size: nat, shift: nat, mask: nat)

  /** The number of the lowest bit set. */
  function LowestBit(n: nat): (r: nat)
    requires n > 0
    ensures Pow2(r) <= n && n % Pow2(r) == 0 && n / Pow2(r) % 2 == 1
  {
    if n % 2 == 1 then 0
    else
      var r := LowestBit(n / 2);
      Halving(n, r);
      r + 1
  }

  lemma Halving(n: nat, r: nat)
    requires n % 2 == 0 && n / 2 % Pow2(r) == 0
    ensures n % Pow2(r + 1) == 0 && n / Pow2(r + 1) == n / 2 / Pow2(r)
  {
    var q := n / 2 / Pow2(r);
    DivMod(n / 2, Pow2(r));
    assert n == Pow2(r + 1) * q;
    Remainder(n, Pow2(r + 1), q, 0);
  }

  /** A block size of zero is computed from the shift and cut to the 16 bits of its field. */
  function Init(size: u16, shift: nat): Option<Geometry>
    requires shift < 31
  {
    if size > 0 then
      if shift > 0 && shift != LowestBit(size) then None else Some(Geometry(size, LowestBit(size), size - 1))
    else if shift > 0 then
      var cut := Pow2(shift) % 0x1_0000;
      Some(Geometry(cut, shift, if cut == 0 then 0xFFFF_FFFF else cut - 1))
    else None
  }

  /** 2^k is the lowest bit of n. */
  ghost predicate EndsIn(n: nat, k: nat) { n % Pow2(k) == 0 && n / Pow2(k) % 2 == 1 }

  lemma {:induction false} LowestBitIff(n: nat, k: nat)
    requires n > 0
    ensures k == LowestBit(n) <==> EndsIn(n, k)
    decreases n
  {
    if k == 0 {
      Remainder(n, 1, n, 0);
    } else if n % 2 == 0 {
      LowestBitIff(n / 2, k - 1);
      hide LowestBit;
      HalvingBack(n, k - 1);
    } else {
      OddEndsInOne(n, k);
    }
  }

  lemma OddEndsInOne(n: nat, k: nat)
    requires n % 2 == 1 && k > 0
    ensures !EndsIn(n, k)
  {
    var p := Pow2(k);
    var q, r := n / p, n % p;
    DivMod(n, p);
    MultipleIsEven(q, k);
    hide Pow2;
    assert n == p * q + r;
    assert r != 0;
  }

  lemma MultipleIsEven(q: nat, k: nat)
    requires k > 0
    ensures Pow2(k) * q % 2 == 0
  {
    assert Pow2(k) * q == 2 * (Pow2(k - 1) * q);
  }

  lemma HalvingBack(n: nat, r: nat)
    requires n % 2 == 0
    ensures EndsIn(n / 2, r) <==> EndsIn(n, r + 1)
  {
    var p, h := Pow2(r), n / 2;
    DivMod(h, p);
    assert n == Pow2(r + 1) * (h / p) + 2 * (h % p);
    Remainder(n, Pow2(r + 1), h / p, 2 * (h % p));
  }

  /** A geometry is refused exactly when nothing is given, or when both are and the shift is not the lowest bit of the
      size. */
  lemma InitRefusesIff(size: u16, shift: nat)
    requires shift < 31
    ensures Init(size, shift).None? <==> if size == 0 then shift == 0 else shift > 0 && !EndsIn(size, shift)
    ensures Init(size, shift).Some? && size > 0 ==> EndsIn(size, Init(size, shift).value.shift)
  {
    hide LowestBit, EndsIn;
    if size > 0 {
      LowestBitIff(size, shift);
      LowestBitIff(size, LowestBit(size));
    }
  }

  function And(a: nat, b: nat): nat
  {
    if a == 0 || b == 0 then 0 else And(a / 2, b / 2) * 2 + (a % 2) * (b % 2)
  }

  function ShiftRight(a: nat, k: nat): nat { if k == 0 then a else ShiftRight(a / 2, k - 1) }

  /** The block and the place in it that the two byte functions work on. */
  function Locate(g: Geometry, index: nat, offset: nat): (nat, nat) {
    (index + ShiftRight(offset, g.shift), And(offset, g.mask))
  }

  ghost predicate LocatesRight(g: Geometry, index: nat, offset: nat) {
    var (i, o) := Locate(g, index, offset);
    o < g.size && i * g.size + o == index * g.size + offset
  }

  ghost predicate Sound(g: Geometry) { g.size == Pow2(g.shift) && g.mask == g.size - 1 }

  lemma {:induction false} AndMask(a: nat, k: nat)
    ensures And(a, Pow2(k) - 1) == a % Pow2(k)
    decreases k
  {
    if k == 0 || a == 0 {
      Remainder(a, 1, a, 0);
      Remainder(0, Pow2(k), 0, 0);
    } else {
      AndMask(a / 2, k - 1);
      AndOfDoubled(a, Pow2(k - 1));
    }
  }

  lemma AndOfDoubled(a: nat, half: nat)
    requires a > 0 && half > 0 && And(a / 2, half - 1) == a / 2 % half
    ensures And(a, 2 * half - 1) == a % (2 * half)
  {
    hide And;
    assert 2 * half - 1 == 2 * (half - 1) + 1;
    AndOdd(a, half - 1);
    var d := 2 * half;
    Doubled(a, half, d);
  }

  lemma AndOdd(a: nat, b: nat)
    ensures And(a, 2 * b + 1) == And(a / 2, b) * 2 + a % 2
  {
    assert (2 * b + 1) / 2 == b && (2 * b + 1) % 2 == 1;
  }

  lemma Doubled(a: nat, half: nat, d: nat)
    requires half > 0 && d == 2 * half
    ensures a % d == a / 2 % half * 2 + a % 2 && a / d == a / 2 / half
  {
    var q, r := a / 2 / half, a / 2 % half;
    DivMod(a / 2, half);
    assert a == 2 * (half * q) + (r * 2 + a % 2);
    assert 2 * (half * q) == d * q;
    Remainder(a, d, q, r * 2 + a % 2);
  }

  lemma {:induction false} ShiftDivides(a: nat, k: nat)
    ensures ShiftRight(a, k) == a / Pow2(k)
  {
    if k == 0 {
      Remainder(a, 1, a, 0);
    } else {
      var half := Pow2(k - 1);
      ShiftDivides(a / 2, k - 1);
      assert Pow2(k) == 2 * half;
      hide ShiftRight, Pow2;
      Doubled(a, half, Pow2(k));
    }
  }

  lemma SoundLocates(g: Geometry, index: nat, offset: nat)
    requires Sound(g)
    ensures Locate(g, index, offset) == (index + offset / g.size, offset % g.size) && LocatesRight(g, index, offset)
  {
    AndMask(offset, g.shift);
    ShiftDivides(offset, g.shift);
    hide And, ShiftRight, Pow2;
    DivMod(offset, g.size);
    Distribute(index, offset / g.size, g.size);
  }

  lemma Distribute(a: nat, b: nat, m: nat)
    ensures (a + b) * m == a * m + m * b
  {
  }

  /** An accepted geometry finds every byte exactly when it came from a power of two that fits the size field: a block
      size of 12 is accepted, but its second block is looked for in the fourth. */
  lemma GeometryIsRightIff(size: u16, shift: nat)
    requires shift < 31 && Init(size, shift).Some?
    ensures (forall index: nat, offset: nat :: LocatesRight(Init(size, shift).value, index, offset))
            <==> if size > 0 then size == Pow2(LowestBit(size)) else shift < 16
  {
    var g := Init(size, shift).value;
    SizeFromShift(shift);
    hide And, ShiftRight, Pow2, LowestBit;
    if Sound(g) {
      forall index: nat, offset: nat
        ensures LocatesRight(g, index, offset)
      {
        SoundLocates(g, index, offset);
      }
    } else if size == 0 {
      assert !LocatesRight(g, 0, 0);
    } else {
      Misplaced(g);
    }
  }

  /** The first byte of the second block is looked for in a later one. */
  lemma Misplaced(g: Geometry)
    requires g.size > 0 && g.size % Pow2(g.shift) == 0 && g.size != Pow2(g.shift)
    ensures !LocatesRight(g, 0, g.size)
  {
    ShiftDivides(g.size, g.shift);
    hide And, ShiftRight, Pow2;
    var m := g.size / Pow2(g.shift);
    DivMod(g.size, Pow2(g.shift));
    assert m >= 2;
    Multiple(g.size, m - 1);
    assert m * g.size == g.size * (m - 1) + g.size;
  }

  lemma SizeFromShift(shift: nat)
    ensures Pow2(shift) % 0x1_0000 == if shift < 16 then Pow2(shift) else 0
  {
    Pow2Of8();
    Pow2Add(8, 8);
    if shift < 16 {
      Pow2Monotone(shift, 15);
      assert 2 * Pow2(15) == Pow2(16);
      Remainder(Pow2(shift), 0x1_0000, 0, Pow2(shift));
    } else {
      Pow2Add(16, shift - 16);
      Remainder(Pow2(shift), 0x1_0000, Pow2(shift - 16), 0);
    }
  }

  // ---- the two loops ----

  /** The disk with d written over it from byte p on. */
  function Written(disk: seq<bv8>, p: nat, d: seq<bv8>): seq<bv8>
    requires p + |d| <= |disk|
  {
    disk[..p] + d + disk[p + |d|..]
  }

  /** It differs from the disk in [p, p + |d|) and nowhere else. */
  lemma WritesExactly(disk: seq<bv8>, p: nat, d: seq<bv8>)
    requires p + |d| <= |disk|
    ensures var now := Written(disk, p, d);
            |now| == |disk| && now[p..p + |d|] == d
            && forall i :: 0 <= i < |disk| && !(p <= i < p + |d|) ==> now[i] == disk[i]
  {
  }

  class Device {
    const disk: array<bv8>
    const unreadable: set<nat>
    const unwritable: set<nat>
    const g: Geometry

    constructor (disk: array<bv8>, g: Geometry, unreadable: set<nat>, unwritable: set<nat>)
      ensures this.disk == disk && this.g == g && this.unreadable == unreadable && this.unwritable == unwritable
    {
      this.disk := disk;
      this.g := g;
      this.unreadable := unreadable;
      this.unwritable := unwritable;
    }

    /** Where a block begins on the disk. */
    function Base(b: nat): nat { b * g.size }

    /** The block that holds byte p. */
    function First(p: nat): nat
      requires g.size > 0
    {
      p / g.size
    }

    predicate CanRead(b: nat) { Base(b) + g.size <= disk.Length && b !in unreadable }

    predicate CanWrite(b: nat) { Base(b) + g.size <= disk.Length && b !in unwritable }

    /** What writing [p, p + size) needs of a block it touches: a block covered in part is read first. */
    predicate CanUpdate(p: nat, size: nat, b: nat) {
      CanWrite(b) && (Base(b) < p || p + size < Base(b) + g.size ==> CanRead(b))
    }

    /** How much of [p, p + size) lies before block b. */
    function Before(p: nat, size: nat, b: nat): (r: nat)
      ensures r <= size
    {
      if Base(b) <= p then 0 else if Base(b) - p < size then Base(b) - p else size
    }

    /** The driver's functions. */
    method ReadBlock(b: nat) returns (ok: bool, block: seq<bv8>)
      ensures ok == CanRead(b)
      ensures ok ==> Base(b) + g.size <= disk.Length && |block| == g.size && block == disk[Base(b)..Base(b) + g.size]
    {
      hide Base;
      ok, block := CanRead(b), [];
      if ok {
        block := disk[Base(b)..Base(b) + g.size];
      }
    }

    method WriteBlock(b: nat, block: seq<bv8>) returns (ok: bool)
      requires |block| == g.size
      modifies disk
      ensures ok == CanWrite(b) && (ok ==> Base(b) + g.size <= disk.Length)
      ensures disk[..] == if ok then Written(old(disk[..]), Base(b), block) else old(disk[..])
    {
      hide Base;
      ok := CanWrite(b);
      if ok {
        var at := Base(b);
        forall i | 0 <= i < g.size {
          disk[at + i] := block[i];
        }
      }
    }


    /** How much one turn of either loop moves: the rest of the block or the rest of the data. */
    function Length(offset: nat, remain: nat): (r: nat)
      requires offset < g.size
      ensures offset + r <= g.size && r <= remain && (remain > 0 ==> r > 0)
    {
      if g.size - offset > remain then remain else g.size - offset
    }

    /** One turn of the read loop. */
    method ReadPiece(index: nat, offset: nat, buff: array<bv8>, n: nat) returns (ok: bool)
      requires buff != disk && offset < g.size && n <= buff.Length
      modifies buff
      ensures ok == CanRead(index)
      ensures var to := Length(offset, buff.Length - n);
              if ok then
                var at := Base(index) + offset;
                at + to <= disk.Length && buff[..] == Written(old(buff[..]), n, disk[at..at + to])
              else buff[..] == old(buff[..])
    {
      hide *;
      var block;
      ok, block := ReadBlock(index);
      if ok {
        var to := Length(offset, buff.Length - n);
        forall i | 0 <= i < to {
          buff[n + i] := block[offset + i];
        }
        Filled(buff[..], old(buff[..]), n, block[offset..offset + to]);
        var image, at := disk[..], Base(index) + offset;
        SubSlice(image, Base(index), g.size, offset, to);
        assert block == image[Base(index)..Base(index) + g.size] && disk[at..at + to] == image[at..at + to];
      }
    }

    /** One turn of the write loop. */
    method WritePiece(index: nat, offset: nat, buff: seq<bv8>, n: nat) returns (ok: bool)
      requires offset < g.size && n <= |buff|
      modifies disk
      ensures ok == (CanWrite(index) && (offset > 0 || |buff| - n < g.size ==> CanRead(index)))
      ensures var to := Length(offset, |buff| - n);
              if ok then
                var at := Base(index) + offset;
                at + to <= disk.Length && disk[..] == Written(old(disk[..]), at, buff[n..n + to])
              else disk[..] == old(disk[..])
    {
      var to := Length(offset, |buff| - n);
      if offset > 0 || |buff| - n < g.size {
        ok := PatchBlock(index, offset, buff[n..n + to]);
      } else {
        hide *;
        ok := WriteBlock(index, buff[n..n + to]);
      }
    }

    method PatchBlock(index: nat, offset: nat, d: seq<bv8>) returns (ok: bool)
      requires offset + |d| <= g.size
      modifies disk
      ensures ok == (CanWrite(index) && CanRead(index))
      ensures if ok then
                Base(index) + g.size <= disk.Length && disk[..] == Written(old(disk[..]), Base(index) + offset, d)
              else disk[..] == old(disk[..])
    {
      hide *;
      var block;
      ok, block := ReadBlock(index);
      if ok {
        Patch(disk[..], Base(index), g.size, offset, d);
        ok := WriteBlock(index, block[..offset] + d + block[offset + |d|..]);
      }
    }

    /** Where both loops are after some whole turns: at the start of a block, with all before it moved. */
    ghost predicate Walked(at: nat, size: nat, index: nat, offset: nat, n: nat)
      requires g.size > 0
    {
      && index >= First(at) && offset < g.size && n <= size && n == Before(at, size, index)
      && (n < size ==> Base(index) + offset == at + n)
      && (offset > 0 ==> n == 0)
      && (index > First(at) ==> Base(index - 1) < at + size && offset == 0)
    }

    /** The blocks gone through, all of them without an error. */
    ghost predicate Through(at: nat, size: nat, index: nat, write: bool)
      requires g.size > 0
    {
      First(at) <= index && forall b :: First(at) <= b < index ==> if write then CanUpdate(at, size, b) else CanRead(b)
    }

    /** Either loop between two turns: `now`, from place p on, has the first n bytes of src. */
    ghost predicate Going(write: bool, at: nat, size: nat, index: nat, offset: nat, n: nat,
            now: seq<bv8>, was: seq<bv8>, p: nat, src: seq<bv8>)
      requires g.size > 0
    {
      Walked(at, size, index, offset, n) && Through(at, size, index, write) && Copied(now, was, p, src, n)
    }

    lemma GoingStarts(write: bool, at: nat, size: nat, index0: nat, offset0: nat, was: seq<bv8>, p: nat, src: seq<bv8>)
      requires Sound(g) && Base(index0) + offset0 == at
      ensures g.size > 0
      ensures Going(write, at, size, index0 + ShiftRight(offset0, g.shift), And(offset0, g.mask), 0, was, was, p, src)
    {
      SoundLocates(g, index0, offset0);
      var (index, offset) := Locate(g, index0, offset0);
      Remainder(at, g.size, index, offset);
    }

    lemma GoingTells(write: bool, at: nat, size: nat, index: nat, offset: nat, n: nat,
            now: seq<bv8>, was: seq<bv8>, p: nat, src: seq<bv8>)
      requires g.size > 0 && Going(write, at, size, index, offset, n, now, was, p, src)
      ensures offset < g.size && n <= size && |now| == |was|
      ensures n < size ==> Base(index) + offset == at + n
      ensures n < size ==>
                CanUpdate(at, size, index) == (CanWrite(index) && (offset > 0 || size - n < g.size ==> CanRead(index)))
    {
      hide Base, First;
    }

    lemma GoOn(write: bool, at: nat, size: nat, index: nat, offset: nat, n: nat,
            before: seq<bv8>, now: seq<bv8>, was: seq<bv8>, p: nat, src: seq<bv8>)
      requires g.size > 0 && Going(write, at, size, index, offset, n, before, was, p, src) && n < size
      requires if write then CanUpdate(at, size, index) else CanRead(index)
      requires var to := Length(offset, size - n);
               n + to <= |src| && p + n + to <= |before| && now == Written(before, p + n, src[n..n + to])
      ensures Going(write, at, size, index + 1, 0, n + Length(offset, size - n), now, was, p, src)
    {
      var to := Length(offset, size - n);
      CopyOn(before, now, was, p, src, n, to);
      hide Written, Copied, CanUpdate, CanRead;
      hide Base, First;
    }

    lemma GoingEnds(write: bool, at: nat, size: nat, index: nat, offset: nat, n: nat,
            now: seq<bv8>, was: seq<bv8>, p: nat, src: seq<bv8>)
      requires g.size > 0 && Going(write, at, size, index, offset, n, now, was, p, src)
      ensures Through(at, size, index, write) && Copied(now, was, p, src, n) && n == Before(at, size, index)
      ensures index == First(at) || Base(index - 1) < at + size
    {
    }

    method ReadTurn(index: nat, offset: nat, buff: array<bv8>, n: nat, ghost at: nat, ghost was: seq<bv8>)
      returns (ok: bool)
      requires buff != disk && offset < g.size && n < buff.Length
      requires Going(false, at, buff.Length, index, offset, n, buff[..], was, 0, From(disk[..], at))
      modifies buff
      ensures ok == CanRead(index)
      ensures if ok then
                var next := n + Length(offset, buff.Length - n);
                Going(false, at, buff.Length, index + 1, 0, next, buff[..], was, 0, From(disk[..], at))
              else buff[..] == old(buff[..])
    {
      hide *;
      ghost var before, src := buff[..], From(disk[..], at);
      GoingTells(false, at, buff.Length, index, offset, n, before, was, 0, src);
      ok := ReadPiece(index, offset, buff, n);
      if ok {
        FromSlice(disk[..], at, n, Length(offset, buff.Length - n));
        GoOn(false, at, buff.Length, index, offset, n, before, buff[..], was, 0, src);
      }
    }

    method WriteTurn(index: nat, offset: nat, buff: seq<bv8>, n: nat, ghost at: nat, ghost was: seq<bv8>)
      returns (ok: bool)
      requires offset < g.size && n < |buff|
      requires Going(true, at, |buff|, index, offset, n, disk[..], was, at, buff)
      modifies disk
      ensures ok == CanUpdate(at, |buff|, index)
      ensures if ok then Going(true, at, |buff|, index + 1, 0, n + Length(offset, |buff| - n), disk[..], was, at, buff)
              else disk[..] == old(disk[..])
    {
      hide *;
      ghost var before := disk[..];
      GoingTells(true, at, |buff|, index, offset, n, before, was, at, buff);
      ok := WritePiece(index, offset, buff, n);
      if ok {
        GoOn(true, at, |buff|, index, offset, n, before, disk[..], was, at, buff);
      }
    }

    /** Every block that holds a byte of [at, at + size) is read in turn until one fails. */
    method ReadByte(index0: nat, offset0: nat, buff: array<bv8>, ghost at: nat) returns (ok: bool, ghost stop: nat)
      requires Sound(g) && buff != disk && at == Base(index0) + offset0
      modifies buff
      ensures Through(at, buff.Length, stop, false)
      ensures var done := Before(at, buff.Length, stop);
              Copied(buff[..], old(buff[..]), 0, From(disk[..], at), done) && (ok <==> done == buff.Length)
      ensures if ok then stop == First(at) || Base(stop - 1) < at + buff.Length else !CanRead(stop)
    {
      hide *;
      var size := buff.Length;
      ghost var was, src := buff[..], From(disk[..], at);
      GoingStarts(false, at, size, index0, offset0, was, 0, src);
      var index: nat, offset: nat := index0 + ShiftRight(offset0, g.shift), And(offset0, g.mask);
      var n := 0;
      ok := true;
      while n < size && ok
        invariant n <= size && Going(false, at, size, index, offset, n, buff[..], was, 0, src)
        invariant !ok ==> n < size && !CanRead(index)
        decreases size - n, ok
      {
        GoingTells(false, at, size, index, offset, n, buff[..], was, 0, src);
        ok := ReadTurn(index, offset, buff, n, at, was);
        if ok {
          n, index, offset := n + Length(offset, size - n), index + 1, 0;
        }
      }
      GoingEnds(false, at, size, index, offset, n, buff[..], was, 0, src);
      stop := index;
    }

    /** The bytes of buff replace those of the disk from place `at` on, up to the first block that cannot be updated,
        and nothing else changes. */
    method WriteByte(index0: nat, offset0: nat, buff: seq<bv8>, ghost at: nat) returns (ok: bool, ghost stop: nat)
      requires Sound(g) && at == Base(index0) + offset0
      modifies disk
      ensures Through(at, |buff|, stop, true)
      ensures var done := Before(at, |buff|, stop);
              Copied(disk[..], old(disk[..]), at, buff, done) && (ok <==> done == |buff|)
      ensures if ok then stop == First(at) || Base(stop - 1) < at + |buff| else !CanUpdate(at, |buff|, stop)
    {
      hide *;
      var size := |buff|;
      ghost var was := disk[..];
      GoingStarts(true, at, size, index0, offset0, was, at, buff);
      var index: nat, offset: nat := index0 + ShiftRight(offset0, g.shift), And(offset0, g.mask);
      var n := 0;
      ok := true;
      while n < size && ok
        invariant n <= size && Going(true, at, size, index, offset, n, disk[..], was, at, buff)
        invariant !ok ==> n < size && !CanUpdate(at, size, index)
        decreases size - n, ok
      {
        GoingTells(true, at, size, index, offset, n, disk[..], was, at, buff);
        ok := WriteTurn(index, offset, buff, n, at, was);
        if ok {
          n, index, offset := n + Length(offset, size - n), index + 1, 0;
        }
      }
      GoingEnds(true, at, size, index, offset, n, disk[..], was, at, buff);
      stop := index;
    }
  }

  // ---- what is copied ----

  function From(s: seq<bv8>, p: nat): seq<bv8> { if p <= |s| then s[p..] else [] }

  /** `now` is `was` with the first n bytes of src written over it from place p on. */
  ghost predicate Copied(now: seq<bv8>, was: seq<bv8>, p: nat, src: seq<bv8>, n: nat) {
    if n == 0 then now == was
    else n <= |src| && p + n <= |was| && now == Written(was, p, src[..n])
  }

  lemma Filled(now: seq<bv8>, was: seq<bv8>, p: nat, d: seq<bv8>)
    requires |now| == |was| && p + |d| <= |was|
    requires forall i :: 0 <= i < |d| ==> now[p + i] == d[i]
    requires forall i :: 0 <= i < |was| && !(p <= i < p + |d|) ==> now[i] == was[i]
    ensures now == Written(was, p, d)
  {
    forall i | 0 <= i < |was|
      ensures now[i] == Written(was, p, d)[i]
    {
      if p <= i < p + |d| {
        assert now[p + (i - p)] == d[i - p];
      }
    }
  }

  lemma SubSlice(s: seq<bv8>, b: nat, size: nat, o: nat, to: nat)
    requires b + size <= |s| && o + to <= size
    ensures s[b..b + size][o..o + to] == s[b + o..b + o + to]
  {
    var x, y := s[b..b + size][o..o + to], s[b + o..b + o + to];
    forall i | 0 <= i < to
      ensures x[i] == y[i]
    {
      assert x[i] == s[b..b + size][o + i];
    }
  }

  /** Writing back a block with some bytes replaced writes those bytes. */
  lemma Patch(s: seq<bv8>, b: nat, size: nat, offset: nat, d: seq<bv8>)
    requires b + size <= |s| && offset + |d| <= size
    ensures var block := s[b..b + size];
            Written(s, b, block[..offset] + d + block[offset + |d|..]) == Written(s, b + offset, d)
  {
  }

  lemma CopyOn(before: seq<bv8>, now: seq<bv8>, was: seq<bv8>, p: nat, src: seq<bv8>, n: nat, to: nat)
    requires Copied(before, was, p, src, n) && n + to <= |src| && p + n + to <= |before|
    requires now == Written(before, p + n, src[n..n + to])
    ensures Copied(now, was, p, src, n + to)
  {
    assert src[..n] + src[n..n + to] == src[..n + to];
  }

  lemma FromSlice(s: seq<bv8>, p: nat, n: nat, to: nat)
    requires p + n + to <= |s|
    ensures n + to <= |From(s, p)| && From(s, p)[n..n + to] == s[p + n..p + n + to]
  {
  }
}
