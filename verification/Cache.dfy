/** The byte ring between a writer and a reader thread (lib/cache.c), one slot always free, as a bounded queue. A call
    below is one critical section; a full write is WriteSome until nothing remains, with readers in between. */
module CavanCache {
  import opened Bytes

  /** The ring read from head to tail. */
  function RingContents(mem: seq<u8>, head: nat, tail: nat): seq<u8>
    requires head < |mem| && tail < |mem|
  {
    if head <= tail then mem[head..tail] else mem[head..] + mem[..tail]
  }

  class Cache {
    const mem: array<u8>
    var head: nat
    var tail: nat
    ghost var written: seq<u8>  // everything ever accepted from writers
    ghost var consumed: seq<u8>  // everything ever handed to readers

    ghost function Contents(): seq<u8>
      requires head < mem.Length && tail < mem.Length
      reads this, mem
    {
      RingContents(mem[..], head, tail)
    }

    ghost predicate Valid()
      reads this, mem
    {
      head < mem.Length && tail < mem.Length && written == consumed + Contents()
    }

    constructor (size: nat)
      requires size > 0
      ensures Valid() && Contents() == [] && written == [] && mem.Length == size && fresh(mem)
    {
      mem := new u8[size];
      head, tail := 0, 0;
      written, consumed := [], [];
    }

    method FreeSpace() returns (n: nat)
      requires Valid()
      ensures n + |Contents()| == mem.Length - 1
    {
      n := if tail < head then head - tail - 1 else mem.Length - tail + head - 1;
    }

    method UsedSpace() returns (n: nat)
      requires Valid()
      ensures n == |Contents()|
    {
      n := if head > tail then mem.Length - head + tail else tail - head;
    }

    /** Takes as much of buff as there is room for; none means the writer waits, or gives up if the cache is closed. */
    method WriteSome(buff: seq<u8>) returns (count: nat)
      requires Valid()
      modifies this, mem
      ensures Valid() && consumed == old(consumed)
      ensures var free := mem.Length - 1 - |old(Contents())|;
              count == if |buff| <= free then |buff| else free
      ensures Contents() == old(Contents()) + buff[..count] && written == old(written) + buff[..count]
    {
      var rcount, length;
      if tail < head {
        length := head - tail - 1;
        rcount := length;
      } else {
        rcount := mem.Length - tail;
        length := rcount + head - 1;
      }
      if length > |buff| {
        length := |buff|;
      }
      count := length;
      Store(buff[..count], rcount);
      written := written + buff[..count];
      assert written == consumed + Contents();
    }

    method Store(piece: seq<u8>, rcount: nat)
      requires Valid() && |piece| <= mem.Length - 1 - |Contents()|
      requires rcount == if tail < head then head - tail - 1 else mem.Length - tail
      modifies this`tail, mem
      ensures head < mem.Length && tail < mem.Length && Contents() == old(Contents()) + piece
    {
      hide RingContents;
      RingSize(mem[..], head, tail);
      ghost var was, t := mem[..], tail;
      if |piece| > rcount {
        StoreAround(piece, rcount);
        tail := |piece| - rcount;
      } else {
        Copy(mem, tail, piece);
        tail := tail + |piece|;
        if tail >= mem.Length {
          tail := 0;
        }
      }
      WroteRing(was, mem[..], head, t, tail, piece);
    }

    method StoreAround(piece: seq<u8>, rcount: nat)
      requires tail < mem.Length && rcount == mem.Length - tail && rcount < |piece| && |piece| - rcount <= tail
      modifies mem
      ensures mem[..] == piece[rcount..] + old(mem[..])[|piece| - rcount..tail] + piece[..rcount]
    {
      ghost var was, over := mem[..], |piece| - rcount;
      Copy(mem, tail, piece[..rcount]);
      assert mem[..] == was[..tail] + piece[..rcount];
      Copy(mem, 0, piece[rcount..]);
      assert (was[..tail] + piece[..rcount])[over..] == was[over..tail] + piece[..rcount];
    }

    /** Hands over what is there beyond the reserved bytes, at most size; none means the reader waits, times out, or
        finds the cache closed. */
    method ReadSome(size: nat, reserved: nat) returns (out: seq<u8>)
      requires Valid()
      modifies this
      ensures Valid() && written == old(written)
      ensures old(Contents()) == out + Contents() && consumed == old(consumed) + out
      ensures |old(Contents())| <= reserved ==> out == []
      ensures |old(Contents())| > reserved ==>
                |out| == if |old(Contents())| - reserved > size then size else |old(Contents())| - reserved
    {
      hide RingContents;
      RingSize(mem[..], head, tail);
      var rcount, length;
      if head > tail {
        rcount := mem.Length - head;
        length := rcount + tail;
      } else {
        length := tail - head;
        rcount := length;
      }
      if length <= reserved {
        return [];
      }
      length := length - reserved;
      if length > size {
        length := size;
      }
      out := Fetch(length, rcount);
      consumed := consumed + out;
      assert written == consumed + Contents();
    }

    method Fetch(length: nat, rcount: nat) returns (out: seq<u8>)
      requires Valid() && length <= |Contents()|
      requires rcount == if head > tail then mem.Length - head else tail - head
      modifies this`head
      ensures head < mem.Length && old(Contents()) == out + Contents() && |out| == length
    {
      hide RingContents;
      RingSize(mem[..], head, tail);
      ghost var h := head;
      if length > rcount {
        out := mem[head..head + rcount] + mem[..length - rcount];
        head := length - rcount;
      } else {
        out := mem[head..head + length];
        head := head + length;
        if head >= mem.Length {
          head := 0;
        }
      }
      ReadRing(mem[..], h, tail, head, out, length, rcount);
    }
  }

  lemma RingSize(mem: seq<u8>, head: nat, tail: nat)
    requires head < |mem| && tail < |mem|
    ensures |RingContents(mem, head, tail)| == if head <= tail then tail - head else |mem| - head + tail
  {
  }

  lemma WroteRing(was: seq<u8>, now: seq<u8>, head: nat, tail: nat, tail': nat, piece: seq<u8>)
    requires head < |was| == |now| && tail < |was| && tail' < |was|
    requires |piece| <= |was| - 1 - |RingContents(was, head, tail)|
    requires var room := if tail < head then head - tail - 1 else |was| - tail;
             if |piece| > room then
               && tail >= head && |piece| - room < head && tail' == |piece| - room
               && now == piece[room..] + was[|piece| - room..tail] + piece[..room]
             else
               && tail' == (if tail + |piece| >= |was| then 0 else tail + |piece|)
               && now == was[..tail] + piece + was[tail + |piece|..]
    ensures RingContents(now, head, tail') == RingContents(was, head, tail) + piece
  {
    var room := if tail < head then head - tail - 1 else |was| - tail;
    if |piece| > room {
      WroteAround(was, now, head, tail, piece, room);
    } else {
      WroteStraight(was, now, tail, piece);
      assert tail < head ==> now[head..] == was[head..];
      assert tail >= head ==> now[head..tail + |piece|] == was[head..tail] + piece;
    }
  }

  lemma WroteAround(was: seq<u8>, now: seq<u8>, head: nat, tail: nat, piece: seq<u8>, room: nat)
    requires head <= tail < |was| == |now| && room == |was| - tail && room < |piece| && |piece| - room < head
    requires now == piece[room..] + was[|piece| - room..tail] + piece[..room]
    ensures now[head..] + now[..|piece| - room] == was[head..tail] + piece
  {
    assert now[head..] == was[head..tail] + piece[..room];
    assert now[..|piece| - room] == piece[room..];
  }

  lemma WroteStraight(was: seq<u8>, now: seq<u8>, tail: nat, piece: seq<u8>)
    requires tail + |piece| <= |was| == |now| && now == was[..tail] + piece + was[tail + |piece|..]
    ensures now[..tail] == was[..tail] && now[tail..tail + |piece|] == piece
    ensures now[tail + |piece|..] == was[tail + |piece|..] && now[..tail + |piece|] == was[..tail] + piece
  {
  }

  lemma ReadRing(mem: seq<u8>, head: nat, tail: nat, head': nat, out: seq<u8>, length: nat, rcount: nat)
    requires head < |mem| && tail < |mem| && head' < |mem|
    requires length <= |RingContents(mem, head, tail)|
    requires rcount == if head > tail then |mem| - head else tail - head
    requires if length > rcount then
               out == mem[head..head + rcount] + mem[..length - rcount] && head' == length - rcount
             else
               out == mem[head..head + length] && head' == if head + length >= |mem| then 0 else head + length
    ensures RingContents(mem, head, tail) == out + RingContents(mem, head', tail) && |out| == length
  {
    if head > tail && length > rcount {
      ReadAround(mem, head, tail, length);
    } else {
      ReadStraight(mem, head, tail, length);
    }
  }

  lemma ReadAround(mem: seq<u8>, head: nat, tail: nat, length: nat)
    requires tail < head < |mem| && |mem| - head < length <= |mem| - head + tail
    ensures var k := length - (|mem| - head);
            mem[head..] + mem[..tail] == mem[head..head + (|mem| - head)] + mem[..k] + mem[k..tail]
  {
    var k := length - (|mem| - head);
    assert mem[..tail] == mem[..k] + mem[k..tail];
    assert mem[head..head + (|mem| - head)] == mem[head..];
  }

  lemma ReadStraight(mem: seq<u8>, head: nat, tail: nat, length: nat)
    requires head < |mem| && tail < |mem| && head + length <= (if head <= tail then tail else |mem|)
    ensures var head' := if head + length >= |mem| then 0 else head + length;
            RingContents(mem, head, tail) == mem[head..head + length] + RingContents(mem, head', tail)
  {
    if head > tail {
      assert mem[head..] == mem[head..head + length] + mem[head + length..];
    }
  }
}
