/** Length-prefixed packets over a byte stream (cpp/EpollClient.cpp, include/cavan++/EpollClient.h), with the two-byte
    little-endian header of EpollBufferU16. The receiver is fed arbitrary pieces of the stream; the sender may be cut
    short by the socket at any byte. */
module EpollFraming {
  import opened Bytes

  type Packet = seq<u8>

  const HEADER_SIZE := 2

  // ---- the stream as a whole ----

  function LittleEndian(low: nat, high: nat): nat { low + 256 * high }

  function LengthAt(s: seq<u8>): u16
    requires |s| >= HEADER_SIZE
  {
    LittleEndian(s[0], s[1])
  }

  predicate Complete(s: seq<u8>) { |s| >= HEADER_SIZE && |s| >= HEADER_SIZE + LengthAt(s) }

  /** The packets completely contained in a stream. */
  function Packets(s: seq<u8>): seq<Packet>
    decreases |s|
  {
    if Complete(s) then
      var n := HEADER_SIZE + LengthAt(s);
      [s[HEADER_SIZE..n]] + Packets(s[n..])
    else []
  }

  /** What is left of a stream behind its complete packets. */
  function Rest(s: seq<u8>): seq<u8>
    decreases |s|
  {
    if Complete(s) then Rest(s[HEADER_SIZE + LengthAt(s)..]) else s
  }

  /** Bytes that arrive later are read behind the rest: how the stream was cut does not matter. */
  lemma {:induction false} AppendToStream(s: seq<u8>, t: seq<u8>)
    ensures Packets(s + t) == Packets(s) + Packets(Rest(s) + t) && Rest(s + t) == Rest(Rest(s) + t)
    decreases |s|
  {
    if Complete(s) {
      var n := HEADER_SIZE + LengthAt(s);
      var p, tail := s[HEADER_SIZE..n], s[n..];
      PacketWithin(s, t);
      StreamStep(s, p, tail);
      StreamStep(s + t, p, tail + t);
      hide Packets, Rest, LengthAt, Complete;
      AppendToStream(tail, t);
      assert [p] + (Packets(tail) + Packets(Rest(tail) + t)) == [p] + Packets(tail) + Packets(Rest(tail) + t);
    } else {
    }
  }

  lemma StreamStep(s: seq<u8>, p: Packet, tail: seq<u8>)
    requires Complete(s) && p == s[HEADER_SIZE..HEADER_SIZE + LengthAt(s)] && tail == s[HEADER_SIZE + LengthAt(s)..]
    ensures Packets(s) == [p] + Packets(tail) && Rest(s) == Rest(tail)
  {
  }

  lemma OnePacket(s: seq<u8>)
    requires Complete(s) && |s| == HEADER_SIZE + LengthAt(s)
    ensures Packets(s) == [s[HEADER_SIZE..]] && Rest(s) == []
  {
    var none := s[|s|..];
    assert none == [] && Packets(none) == [] && Rest(none) == [];
    assert Packets(s) == [s[HEADER_SIZE..|s|]] + Packets(none) && Rest(s) == Rest(none);
    assert s[HEADER_SIZE..|s|] == s[HEADER_SIZE..];
  }

  function Frame(p: Packet): seq<u8>
    requires |p| < 65536
  {
    [|p| % 256, |p| / 256] + p
  }

  function Frames(ps: seq<Packet>): seq<u8>
    requires forall i :: 0 <= i < |ps| ==> |ps[i]| < 65536
  {
    if ps == [] then [] else Frame(ps[0]) + Frames(ps[1..])
  }

  /** Framing is undone by the receiver's reading of the stream. */
  lemma {:induction false} PacketsOfFrames(ps: seq<Packet>)
    requires forall i :: 0 <= i < |ps| ==> |ps[i]| < 65536
    ensures Packets(Frames(ps)) == ps && Rest(Frames(ps)) == []
  {
    if ps != [] {
      var f, more := Frame(ps[0]), Frames(ps[1..]);
      PacketsOfFrames(ps[1..]);
      FrameIsOnePacket(ps[0]);
      AppendToStream(f, more);
      hide Packets, Rest, Frame;
      assert Rest(f) + more == more;
    }
  }

  lemma FrameIsOnePacket(p: Packet)
    requires |p| < 65536
    ensures Packets(Frame(p)) == [p] && Rest(Frame(p)) == []
  {
    var f := Frame(p);
    assert LengthAt(f) == |p| && f[HEADER_SIZE..] == p;
    OnePacket(f);
  }

  /** And a stream that broke off anywhere yields a prefix of the packets sent. */
  lemma PrefixOfFrames(ps: seq<Packet>, wire: seq<u8>)
    requires (forall i :: 0 <= i < |ps| ==> |ps[i]| < 65536) && wire <= Frames(ps)
    ensures Packets(wire) <= ps
  {
    var more := Frames(ps)[|wire|..];
    assert wire + more == Frames(ps);
    AppendToStream(wire, more);
    PacketsOfFrames(ps);
  }

  // ---- what a receiver makes of the stream ----

  const LENGTH_MAX := 32768

  /** How the reading of a stream stands: open for more, stopped by a packet the handler refused, or caught in the loop
      that doubles the buffer size. */
  datatype Ending = Open | Refusal | Endless

  datatype Outcome = Outcome(packets: seq<Packet>, ending: Ending)

  /** What onEpollPackReceived answers to the last of all packets handed over so far: it may depend on every one. */
  type Handler = seq<Packet> -> int

  /** Packets are handed over in turn, after those of the past, up to the first that is refused or too long to be
      buffered. */
  function Reading(handler: Handler, past: seq<Packet>, s: seq<u8>): Outcome
    decreases |s|
  {
    if |s| >= HEADER_SIZE && LengthAt(s) > LENGTH_MAX then Outcome(past, Endless)
    else if !Complete(s) then Outcome(past, Open)
    else
      var n := HEADER_SIZE + LengthAt(s);
      var now := past + [s[HEADER_SIZE..n]];
      if handler(now) < 0 then Outcome(now, Refusal) else Reading(handler, now, s[n..])
  }

  lemma ReadStep(handler: Handler, past: seq<Packet>, s: seq<u8>, p: Packet, tail: seq<u8>)
    requires Complete(s) && LengthAt(s) <= LENGTH_MAX
    requires p == s[HEADER_SIZE..HEADER_SIZE + LengthAt(s)] && tail == s[HEADER_SIZE + LengthAt(s)..]
    ensures Rest(s) == Rest(tail)
    ensures Reading(handler, past, s) ==
            if handler(past + [p]) < 0 then Outcome(past + [p], Refusal) else Reading(handler, past + [p], tail)
  {
  }

  /** While the reading is open it goes on with the rest. */
  lemma {:induction false} ReadOn(handler: Handler, past: seq<Packet>, s: seq<u8>, t: seq<u8>)
    requires Reading(handler, past, s).ending == Open
    ensures Reading(handler, past, s + t) == Reading(handler, Reading(handler, past, s).packets, Rest(s) + t)
    ensures Rest(s + t) == Rest(Rest(s) + t)
    decreases |s|
  {
    hide Reading, Rest, LengthAt;
    OpenTells(handler, past, s);
    if Complete(s) {
      var n := HEADER_SIZE + LengthAt(s);
      var p, tail := s[HEADER_SIZE..n], s[n..];
      PacketWithin(s, t);
      hide Complete;
      ReadStep(handler, past, s, p, tail);
      ReadStep(handler, past, s + t, p, tail + t);
      ReadOn(handler, past + [p], tail, t);
    } else {
      ReadNothing(handler, past, s);
    }
  }

  lemma OpenTells(handler: Handler, past: seq<Packet>, s: seq<u8>)
    requires Reading(handler, past, s).ending == Open
    ensures |s| >= HEADER_SIZE ==> LengthAt(s) <= LENGTH_MAX
    ensures Complete(s) ==>
              var n := HEADER_SIZE + LengthAt(s);
              var now := past + [s[HEADER_SIZE..n]];
              handler(now) >= 0 && Reading(handler, now, s[n..]).ending == Open
  {
  }

  lemma PacketWithin(s: seq<u8>, t: seq<u8>)
    requires Complete(s)
    ensures Complete(s + t) && LengthAt(s + t) == LengthAt(s)
    ensures var n := HEADER_SIZE + LengthAt(s);
            (s + t)[HEADER_SIZE..n] == s[HEADER_SIZE..n] && (s + t)[n..] == s[n..] + t
  {
  }

  /** Once it is not, later bytes change nothing. */
  lemma {:induction false} ReadNoFurther(handler: Handler, past: seq<Packet>, s: seq<u8>, t: seq<u8>)
    requires Reading(handler, past, s).ending != Open
    ensures Reading(handler, past, s + t) == Reading(handler, past, s)
    decreases |s|
  {
    if Complete(s) && LengthAt(s) <= LENGTH_MAX {
      var n := HEADER_SIZE + LengthAt(s);
      var now := past + [s[HEADER_SIZE..n]];
      PacketWithin(s, t);
      if handler(now) >= 0 {
        ReadNoFurther(handler, now, s[n..], t);
      }
    }
  }

  /** Every packet was accepted when it came. */
  ghost predicate Accepted(handler: Handler, ps: seq<Packet>) {
    forall i :: 0 < i <= |ps| ==> handler(ps[..i]) >= 0
  }

  /** All packets but the last were accepted, and the last was refused. */
  ghost predicate RefusedLast(handler: Handler, ps: seq<Packet>) {
    ps != [] && handler(ps) < 0 && Accepted(handler, ps[..|ps| - 1])
  }

  /** What was handed over is a prefix of the packets of the stream: all of them, accepted, when the reading is open;
      with exactly the last one refused after a refusal. */
  lemma {:induction false} ReadingIsPrefix(handler: Handler, past: seq<Packet>, s: seq<u8>)
    requires Accepted(handler, past)
    ensures var o := Reading(handler, past, s);
            && past <= o.packets <= past + Packets(s)
            && (o.ending == Open ==> o.packets == past + Packets(s))
            && (if o.ending == Refusal then RefusedLast(handler, o.packets) else Accepted(handler, o.packets))
    decreases |s|
  {
    if Complete(s) && LengthAt(s) <= LENGTH_MAX {
      var n := HEADER_SIZE + LengthAt(s);
      var p, tail := s[HEADER_SIZE..n], s[n..];
      ReadStep(handler, past, s, p, tail);
      StreamStep(s, p, tail);
      hide Reading, Packets, LengthAt, Complete;
      assert past + ([p] + Packets(tail)) == past + [p] + Packets(tail);
      OneMore(handler, past, p);
      if handler(past + [p]) >= 0 {
        ReadingIsPrefix(handler, past + [p], tail);
      }
    } else {
      assert past + [] == past;
    }
  }

  lemma OneMore(handler: Handler, past: seq<Packet>, p: Packet)
    requires Accepted(handler, past)
    ensures if handler(past + [p]) < 0 then RefusedLast(handler, past + [p]) else Accepted(handler, past + [p])
  {
    var now := past + [p];
    assert now[..|past|] == past && now[..|now|] == now;
    assert forall i :: 0 < i <= |past| ==> now[..i] == past[..i];
  }

  /** The stream stops right behind a header whose buffer size would never be reached. */
  ghost predicate EndlessHeader(s: seq<u8>) { |Rest(s)| == HEADER_SIZE && LengthAt(Rest(s)) > LENGTH_MAX }

  ghost predicate Endlessly(s: seq<u8>) { exists n :: 0 <= n <= |s| && EndlessHeader(s[..n]) }

  ghost predicate Refused(handler: Handler, s: seq<u8>) { !Accepted(handler, Packets(s)) }

  lemma {:induction false} OpenHasRoom(handler: Handler, past: seq<Packet>, s: seq<u8>)
    requires Reading(handler, past, s).ending == Open
    ensures !EndlessHeader(s)
    decreases |s|
  {
    if Complete(s) {
      var n := HEADER_SIZE + LengthAt(s);
      OpenHasRoom(handler, past + [s[HEADER_SIZE..n]], s[n..]);
    }
  }

  lemma {:induction false} EndlessHasHeader(handler: Handler, past: seq<Packet>, s: seq<u8>) returns (n: nat)
    requires Reading(handler, past, s).ending == Endless
    ensures n <= |s| && EndlessHeader(s[..n])
    decreases |s|
  {
    if LengthAt(s) > LENGTH_MAX {
      n := HEADER_SIZE;
    } else {
      var k := HEADER_SIZE + LengthAt(s);
      var m := EndlessHasHeader(handler, past + [s[HEADER_SIZE..k]], s[k..]);
      n := k + m;
      assert s[..n][k..] == s[k..][..m] && LengthAt(s[..n]) == LengthAt(s);
    }
  }

  /** A packet refused when it came is refused in every longer list that begins the same. */
  lemma RefusalStays(handler: Handler, ps: seq<Packet>, all: seq<Packet>)
    requires RefusedLast(handler, ps) && ps <= all
    ensures !Accepted(handler, all)
  {
    assert all[..|ps|] == ps;
  }

  /** The reading stays open exactly when no packet is refused and no length is too long to be buffered. */
  lemma OpenIff(handler: Handler, s: seq<u8>)
    ensures Reading(handler, [], s).ending == Open <==> !Refused(handler, s) && !Endlessly(s)
  {
    var o := Reading(handler, [], s);
    ReadingIsPrefix(handler, [], s);
    assert [] + Packets(s) == Packets(s);
    hide Reading, Packets, Rest, EndlessHeader, Accepted, RefusedLast;
    match o.ending
    case Open =>
      forall n | 0 <= n <= |s|
        ensures !EndlessHeader(s[..n])
      {
        assert s[..n] + s[n..] == s;
        if Reading(handler, [], s[..n]).ending != Open {
          ReadNoFurther(handler, [], s[..n], s[n..]);
        }
        OpenHasRoom(handler, [], s[..n]);
      }
    case Refusal => RefusalStays(handler, o.packets, Packets(s));
    case Endless =>
      var n := EndlessHasHeader(handler, [], s);
  }

  /** The reading of a whole stream, from its first packet. */
  lemma WholeReading(handler: Handler, s: seq<u8>)
    ensures var o := Reading(handler, [], s);
            && (o.ending == Open <==> !Refused(handler, s) && !Endlessly(s))
            && o.packets <= Packets(s) && (o.ending == Open ==> o.packets == Packets(s))
            && (if o.ending == Refusal then RefusedLast(handler, o.packets) else Accepted(handler, o.packets))
  {
    assert Accepted(handler, []);
    hide Reading, Packets, Refused, Endlessly, RefusedLast, Accepted;
    OpenIff(handler, s);
    ReadingIsPrefix(handler, [], s);
    assert [] + Packets(s) == Packets(s);
  }

  // ---- the buffer size ----

  /** The buffer size after k doublings in 16 bits. */
  function SizeAfter(k: nat): u16 { if k == 0 then 32 else (2 * SizeAfter(k - 1)) % 65536 }

  lemma {:induction false} SizeSteps(k: nat)
    ensures SizeAfter(k) in {0, 32, 64, 128, 256, 512, 1024, 2048, 4096, 8192, 16384, 32768}
    ensures k >= 11 ==> SizeAfter(k) == 0
  {
    if k > 0 {
      SizeSteps(k - 1);
      if k >= 12 {
      } else if k == 11 {
        SizeOf10();
      }
    }
  }

  lemma SizeOf10()
    ensures SizeAfter(10) == 32768
  {
    assert SizeAfter(2) == 128;
    assert SizeAfter(4) == 512;
    assert SizeAfter(6) == 2048;
    assert SizeAfter(8) == 8192;
  }

  /** The doubling loop reaches a length if and only if it is at most LENGTH_MAX; for a longer one it never ends. */
  lemma DoublingEndsIff(length: u16)
    ensures (exists k :: SizeAfter(k) >= length) <==> length <= LENGTH_MAX
  {
    SizeOf10();
    if length > LENGTH_MAX {
      forall k: nat
        ensures SizeAfter(k) < length
      {
        SizeSteps(k);
      }
    }
  }

  method GrownSize(length: u16) returns (size: u16)
    requires length <= LENGTH_MAX
    ensures size <= LENGTH_MAX
    ensures size >= length && exists k: nat :: size == SizeAfter(k) && forall j: nat :: j < k ==> SizeAfter(j) < length
  {
    size := 32;
    var k := 0;
    SizeOf10();
    while size < length
      invariant 0 <= k <= 10 && size == SizeAfter(k)
      invariant forall j: nat :: j < k ==> SizeAfter(j) < length
      decreases 10 - k
    {
      size := (2 * size) % 65536;
      k := k + 1;
    }
    SizeBounded(k);
  }

  lemma SizeBounded(k: nat)
    ensures SizeAfter(k) <= LENGTH_MAX
  {
    SizeSteps(k);
  }

  // ---- the receiver ----

  datatype Status = Taken(count: nat) | Rejected | Looping
  {
    function Ending(): Ending { if Taken? then Open else if Rejected? then Refusal else Endless }
  }

  class EpollClientPacked {
    var mSize: u16
    var mLength: u16
    var mOffset: u16
    var mData: array<u8>
    const header: array<u8>
    var headerOffset: u16
    const handler: Handler
    ghost var stream: seq<u8>  // every byte consumed
    var received: seq<Packet>  // every packet handed over

    ghost predicate Buffers()
      reads this
    {
      header.Length == HEADER_SIZE && mData.Length == mSize <= LENGTH_MAX && mData != header
    }

    /** What has been read of the packet in progress. */
    ghost function Partial(): seq<u8>
      requires Buffers() && headerOffset <= HEADER_SIZE && mOffset <= mSize
      reads this, header, mData
    {
      if mLength > 0 then [mLength % 256, mLength / 256] + mData[..mOffset] else header[..headerOffset]
    }

    ghost predicate Valid()
      reads this, header, mData
    {
      && Buffers()
      && headerOffset < HEADER_SIZE
      && (mLength > 0 ==> mOffset < mLength <= mSize && headerOffset == 0)
      && (mLength == 0 ==> mOffset <= mSize)
      && Partial() == Rest(stream)
      && Reading(handler, [], stream) == Outcome(received, Open)
    }

    /** The state a call leaves: reading its bytes gives what was handed over and how it ended. */
    ghost predicate Stands(ending: Ending)
      reads this, header, mData
    {
      Reading(handler, [], stream) == Outcome(received, ending) && (ending == Open ==> Valid())
    }

    constructor (handler: Handler)
      ensures Valid() && stream == [] && this.handler == handler && fresh(header) && fresh(mData)
    {
      this.handler := handler;
      header := new u8[HEADER_SIZE];
      mData := new u8[0];
      mSize, mLength, mOffset, headerOffset := 0, 0, 0, 0;
      stream, received := [], [];
    }

    /** One call takes at least one byte of a non-empty piece, and never more than completes a header or a packet; it
        fails exactly when the reading of the bytes taken does. */
    method OnEpollDataReceived(buff: seq<u8>) returns (r: Status, ghost n: nat)
      requires Valid() && 0 < |buff| < 65536
      modifies this, header, mData
      ensures mData == old(mData) || fresh(mData)
      ensures 0 < n <= |buff| && stream == old(stream) + buff[..n] && Stands(r.Ending())
      ensures r.Taken? ==> r.count == n
    {
      if mLength > 0 {
        r, n := TakeBody(buff);
      } else {
        r, n := TakeHeader(buff);
      }
    }

    method TakeBody(buff: seq<u8>) returns (r: Status, ghost taken: nat)
      requires Valid() && 0 < |buff| < 65536 && mLength > 0
      modifies this, mData
      ensures mData == old(mData)
      ensures 0 < taken <= |buff| && stream == old(stream) + buff[..taken] && Stands(r.Ending())
      ensures r.Taken? ==> r.count == taken
    {
      hide Packets, Reading, Rest;
      var remain := mLength - mOffset;
      var n := if |buff| < remain then |buff| else remain;
      taken := n;
      FillBody(buff[..n]);
      ghost var after := [mLength % 256, mLength / 256] + mData[..mOffset + n];
      if |buff| < remain {
        mOffset := mOffset + n;
        assert buff[..n] == buff;
        ReadNothing(handler, received, after);
        return Taken(|buff|), n;
      }
      ReadPacket(handler, received, after);
      received := received + [mData[..mLength]];
      if handler(received) < 0 {
        return Rejected, n;
      }
      mLength := 0;
      return Taken(remain), n;
    }

    /** Bytes of the packet go behind those already there. */
    method FillBody(bytes: seq<u8>)
      requires Valid() && mLength > 0 && mOffset + |bytes| <= mLength
      modifies this`stream, mData
      ensures stream == old(stream) + bytes
      ensures var after := [mLength % 256, mLength / 256] + mData[..mOffset + |bytes|];
              && LengthAt(after) == mLength && after[HEADER_SIZE..] == mData[..mOffset + |bytes|]
              && Rest(stream) == Rest(after)
              && Reading(handler, [], stream) == Reading(handler, received, after)
    {
      hide Packets, Reading, Rest;
      ghost var before := Partial();
      Copy(mData, mOffset, bytes);
      stream := stream + bytes;
      ReadOn(handler, [], old(stream), bytes);
      assert before + bytes == [mLength % 256, mLength / 256] + mData[..mOffset + |bytes|];
    }

    method TakeHeader(buff: seq<u8>) returns (r: Status, ghost taken: nat)
      requires Valid() && 0 < |buff| < 65536 && mLength == 0
      modifies this, header
      ensures mData == old(mData) || fresh(mData)
      ensures 0 < taken <= |buff| && stream == old(stream) + buff[..taken] && Stands(r.Ending())
      ensures r.Taken? ==> r.count == taken
    {
      hide Packets, Reading, Rest, LengthAt, LittleEndian;
      var remain := HEADER_SIZE - headerOffset;
      var completed := |buff| >= remain;
      var n := if completed then remain else |buff|;
      taken := n;
      FillHeader(buff[..n]);
      ghost var h := header[..headerOffset];
      if !completed {
        ReadNothing(handler, received, h);
        assert buff[..n] == buff;
        return Taken(n), n;
      }
      assert h == header[..];
      r := StartPacket(h, n);
    }

    /** Header bytes go behind those already there. */
    method FillHeader(bytes: seq<u8>)
      requires Valid() && mLength == 0 && headerOffset + |bytes| <= HEADER_SIZE
      modifies this`headerOffset, this`stream, header
      ensures Buffers() && headerOffset == old(headerOffset) + |bytes| && stream == old(stream) + bytes
      ensures mData[..] == old(mData[..])
      ensures Rest(stream) == Rest(header[..headerOffset])
      ensures Reading(handler, [], stream) == Reading(handler, received, header[..headerOffset])
    {
      hide Packets, Reading, Rest;
      ghost var before := Partial();
      Copy(header, headerOffset, bytes);
      headerOffset := headerOffset + |bytes|;
      stream := stream + bytes;
      ReadOn(handler, [], old(stream), bytes);
      assert before + bytes == header[..headerOffset];
    }

    /** A buffer that is too small is replaced by a larger one. */
    method MakeRoom()
      requires Buffers() && mLength <= LENGTH_MAX
      modifies this`mSize, this`mData
      ensures Buffers() && mLength <= mSize && (mData == old(mData) || fresh(mData))
    {
      if mLength > mSize {
        mSize := GrownSize(mLength);
        mData := new u8[mSize];
      }
    }

    /** The header is complete: make room for its packet, or hand an empty one over at once. */
    method StartPacket(ghost h: seq<u8>, n: nat) returns (r: Status)
      requires Buffers() && h == header[..] && headerOffset == HEADER_SIZE && mLength == 0 && mOffset <= mSize
      requires Rest(stream) == Rest(h) && Reading(handler, [], stream) == Reading(handler, received, h)
      modifies this
      ensures mData == old(mData) || fresh(mData)
      ensures stream == old(stream) && Stands(r.Ending())
      ensures r.Taken? ==> r.count == n
    {
      hide Packets, Reading, Rest;
      mLength := LittleEndian(header[0], header[1]);
      assert mLength == LengthAt(h) && h == [mLength % 256, mLength / 256];
      hide LengthAt, LittleEndian;
      if mLength > LENGTH_MAX {  // no buffer is as large, and the loop that doubles the size never ends
        ReadEndless(handler, received, h);
        return Looping;
      }
      if mLength > 0 {
        MakeRoom();
        ReadNothing(handler, received, h);
        mOffset := 0;
        assert h == h + mData[..0];
      } else {
        ReadPacket(handler, received, h);
        assert h[HEADER_SIZE..] == [];
        received := received + [[]];
        if handler(received) < 0 {
          return Rejected;
        }
        assert header[..0] == [];
      }
      headerOffset := 0;
      return Taken(n);
    }

    /** One read from the socket, taken apart until nothing is left of it or a call fails; the outcome is that of
        reading all bytes up to the end of this read. */
    method OnEpollIn(data: seq<u8>) returns (r: Status)
      requires Valid() && 0 < |data| <= 4096
      modifies this, header, mData
      ensures mData == old(mData) || fresh(mData)
      ensures Reading(handler, [], old(stream) + data) == Outcome(received, r.Ending())
      ensures r.Taken? ==> Valid() && stream == old(stream) + data
    {
      hide Packets, Reading, Rest, LengthAt;
      var p := 0;
      assert data[..0] == [];
      while p < |data|
        invariant Valid() && 0 <= p <= |data| && stream == old(stream) + data[..p]
        invariant mData == old(mData) || fresh(mData)
        decreases |data| - p
      {
        ghost var n;
        r, n := OnEpollDataReceived(data[p..]);
        Consumed(old(stream), data, p, n);
        if !r.Taken? {
          ReadNoFurther(handler, [], stream, data[p + n..]);
          assert old(stream) + data[..p + n] + data[p + n..] == old(stream) + data;
          return;
        }
        p := p + r.count;
      }
      assert data[..p] == data;
      r := Taken(|data|);
    }

    lemma Consumed(s: seq<u8>, data: seq<u8>, p: nat, n: nat)
      requires p + n <= |data|
      ensures s + data[..p] + data[p..][..n] == s + data[..p + n]
    {
      assert data[..p] + data[p..][..n] == data[..p + n];
    }
  }

  lemma ReadNothing(handler: Handler, past: seq<Packet>, s: seq<u8>)
    requires !Complete(s) && (|s| >= HEADER_SIZE ==> LengthAt(s) <= LENGTH_MAX)
    ensures Reading(handler, past, s) == Outcome(past, Open) && Rest(s) == s
  {
  }

  lemma ReadEndless(handler: Handler, past: seq<Packet>, s: seq<u8>)
    requires |s| >= HEADER_SIZE && LengthAt(s) > LENGTH_MAX
    ensures Reading(handler, past, s) == Outcome(past, Endless)
  {
  }

  lemma ReadPacket(handler: Handler, past: seq<Packet>, s: seq<u8>)
    requires Complete(s) && |s| == HEADER_SIZE + LengthAt(s) && LengthAt(s) <= LENGTH_MAX
    ensures var now := past + [s[HEADER_SIZE..]];
            Reading(handler, past, s) == Outcome(now, if handler(now) < 0 then Refusal else Open) && Rest(s) == []
  {
    OnePacket(s);
    assert s[HEADER_SIZE..|s|] == s[HEADER_SIZE..] && s[|s|..] == [];
  }

  function Flatten(pieces: seq<seq<u8>>): seq<u8> {
    if pieces == [] then [] else Flatten(pieces[..|pieces| - 1]) + pieces[|pieces| - 1]
  }

  lemma {:induction false} FlattenPrefix(pieces: seq<seq<u8>>, i: nat)
    requires i <= |pieces|
    ensures Flatten(pieces[..i]) <= Flatten(pieces)
  {
    if i < |pieces| {
      assert pieces[..|pieces| - 1][..i] == pieces[..i];
      FlattenPrefix(pieces[..|pieces| - 1], i);
    } else {
      assert pieces[..i] == pieces;
    }
  }

  lemma FlattenSnoc(pieces: seq<seq<u8>>, i: nat)
    requires i < |pieces|
    ensures Flatten(pieces[..i + 1]) == Flatten(pieces[..i]) + pieces[i]
    ensures Flatten(pieces[..i + 1]) <= Flatten(pieces)
  {
    assert pieces[..i + 1][..i] == pieces[..i];
    FlattenPrefix(pieces, i + 1);
  }

  /** A client is given the pieces one after the other, as long as it takes them. */
  method Feed(client: EpollClientPacked, pieces: seq<seq<u8>>) returns (ending: Ending)
    requires client.Valid() && client.stream == []
    requires forall i :: 0 <= i < |pieces| ==> 0 < |pieces[i]| <= 4096
    modifies client, client.header, client.mData
    ensures Outcome(client.received, ending) == Reading(client.handler, [], Flatten(pieces))
  {
    hide Packets, Reading, Rest;
    ghost var all, handler := Flatten(pieces), client.handler;
    assert pieces[..0] == [];
    for i := 0 to |pieces|
      invariant client.Valid() && (client.mData == old(client.mData) || fresh(client.mData))
      invariant client.stream == Flatten(pieces[..i])
    {
      FlattenSnoc(pieces, i);
      ghost var sofar := Flatten(pieces[..i + 1]);
      var r := client.OnEpollIn(pieces[i]);
      if !r.Taken? {
        ReadNoFurther(handler, [], sofar, all[|sofar|..]);
        assert sofar + all[|sofar|..] == all;
        return r.Ending();
      }
    }
    assert pieces[..|pieces|] == pieces;
    ending := Open;
  }

  /** However a stream is cut into reads, the packets handed over and the way it ends are those of reading the stream as
      a whole. */
  method ReceiveAll(pieces: seq<seq<u8>>, handler: Handler) returns (ending: Ending, received: seq<Packet>)
    requires forall i :: 0 <= i < |pieces| ==> 0 < |pieces[i]| <= 4096
    ensures Outcome(received, ending) == Reading(handler, [], Flatten(pieces))
    ensures ending == Open <==> !Refused(handler, Flatten(pieces)) && !Endlessly(Flatten(pieces))
    ensures received <= Packets(Flatten(pieces)) && (ending == Open ==> received == Packets(Flatten(pieces)))
    ensures if ending == Refusal then RefusedLast(handler, received) else Accepted(handler, received)
  {
    hide Packets, Reading, Rest, Endlessly, Refused, RefusedLast, Accepted, Flatten;
    var client := new EpollClientPacked(handler);
    ending := Feed(client, pieces);
    received := client.received;
    WholeReading(handler, Flatten(pieces));
  }

  // ---- the sender ----

  function Concat(ps: seq<Packet>): seq<u8> { if ps == [] then [] else ps[0] + Concat(ps[1..]) }

  lemma {:induction false} ConcatSnoc(ps: seq<Packet>, p: Packet)
    ensures Concat(ps + [p]) == Concat(ps) + p
  {
    if ps == [] {
      assert [p][1..] == [];
    } else {
      assert (ps + [p])[1..] == ps[1..] + [p];
      ConcatSnoc(ps[1..], p);
    }
  }

  /** What one write to the socket answers. */
  datatype Answer = Wrote(n: nat) | TryAgain | Broken

  /** How many of n bytes offered to the socket it takes with an answer. */
  function Takes(answer: Answer, n: nat): nat {
    if !answer.Wrote? then 0 else if answer.n < n then answer.n else n
  }

  class Socket {
    ghost var wire: seq<u8>  // every byte taken

    constructor ()
      ensures wire == []
    {
      wire := [];
    }

    method Write(bytes: seq<u8>, answer: Answer) returns (n: nat)
      modifies this
      ensures n == Takes(answer, |bytes|) && wire == old(wire) + bytes[..n]
    {
      n := Takes(answer, |bytes|);
      wire := wire + bytes[..n];
    }
  }

  datatype WriteResult = Drained | Short | Blocked | Failed

  /** The bytes that go out when the packets are offered one after the other, the first from an offset on, until one is
      not taken as a whole. */
  function Sent(packets: seq<Packet>, offset: nat, answers: seq<Answer>): seq<u8>
    requires packets != [] ==> offset <= |packets[0]|
    decreases |packets|
  {
    if packets == [] || answers == [] then []
    else
      var rest := packets[0][offset..];
      var n := Takes(answers[0], |rest|);
      if answers[0].Wrote? && n == |rest| then rest + Sent(packets[1..], 0, answers[1..]) else rest[..n]
  }

  class EpollClient {
    const socket: Socket
    var packets: seq<Packet>
    var mOffset: u16  // of the first packet
    var writable: bool  // EPOLLOUT among the events
    ghost var queued: seq<u8>  // every byte ever queued

    /** What the socket took and what is still to be sent are, in this order, what was queued. */
    ghost predicate Valid()
      reads this, socket
    {
      && (packets == [] ==> mOffset == 0)
      && (packets != [] ==> mOffset <= |packets[0]|)
      && (forall i :: 0 <= i < |packets| ==> |packets[i]| < 65536)
      && socket.wire + Concat(packets)[mOffset..] == queued
    }

    constructor ()
      ensures Valid() && queued == [] && socket.wire == [] && packets == [] && writable && fresh(socket)
    {
      socket := new Socket();
      packets, mOffset, writable, queued := [], 0, true, [];
    }

    /** The client is posted to the scheduler exactly when nothing was queued and the socket takes bytes. */
    method SendEpollPacket(p: Packet) returns (posted: bool)
      requires Valid() && |p| < 65536
      modifies this
      ensures Valid() && queued == old(queued) + p
      ensures packets == old(packets) + [p] && writable == old(writable)
      ensures posted == (old(packets) == [] && writable)
    {
      ConcatSnoc(packets, p);
      posted := packets == [] && writable;
      packets := packets + [p];
      queued := queued + p;
      assert old(Concat(packets))[mOffset..] + p == Concat(packets)[mOffset..];
    }

    /** The rest of the first packet is offered to the socket, which takes all of it or a part. */
    method WriteHead(answer: Answer) returns (whole: bool)
      requires Valid() && packets != []
      modifies this`packets, this`mOffset, socket
      ensures Valid()
      ensures var rest := old(packets)[0][old(mOffset)..];
              var n := Takes(answer, |rest|);
              && socket.wire == old(socket.wire) + rest[..n]
              && whole == (answer.Wrote? && n == |rest|)
              && packets == (if whole then old(packets)[1..] else old(packets))
              && mOffset == if whole then 0 else old(mOffset) + n
    {
      var head := packets[0];
      ghost var tail, was := Concat(packets[1..]), socket.wire;
      assert Concat(packets) == head + tail;
      hide Concat;
      var remain := |head| - mOffset;
      var n := socket.Write(head[mOffset..], answer);
      HeadAndTail(was, head, mOffset, mOffset + n, tail);
      whole := answer.Wrote? && n == remain;
      if whole {
        mOffset := 0;
        packets := packets[1..];
        assert tail[0..] == tail;
      } else {
        mOffset := mOffset + n;
      }
    }

    lemma HeadAndTail(w: seq<u8>, head: seq<u8>, i: nat, j: nat, tail: seq<u8>)
      requires i <= j <= |head|
      ensures w + (head + tail)[i..] == w + head[i..][..j - i] + (head + tail)[j..]
      ensures (head + tail)[|head|..] == tail && head[i..][..|head| - i] == head[i..]
    {
      assert (head + tail)[i..] == head[i..][..j - i] + (head + tail)[j..];
      assert w + (head[i..][..j - i] + (head + tail)[j..]) == w + head[i..][..j - i] + (head + tail)[j..];
    }

    /** answers are those of the successive writes: one for each packet that goes out as a whole, and one more for the
        first that does not. */
    method OnEpollOut(answers: seq<Answer>) returns (r: WriteResult, used: nat)
      requires Valid() && |answers| >= |packets|
      modifies this`packets, this`mOffset, this`writable, socket
      ensures Valid()
      ensures socket.wire == old(socket.wire) + Sent(old(packets), old(mOffset), answers)
      ensures r == Drained <==> packets == []
      ensures packets == [] ==> socket.wire == queued
      ensures writable == (old(writable) && r != Blocked)
      ensures used <= |answers| && (r != Drained ==> used > 0)
      ensures |old(packets)| == |packets| + if r == Drained then used else used - 1
      ensures packets == old(packets)[|old(packets)| - |packets|..]
      ensures r != Drained ==>
                match answers[used - 1]
                case Wrote(_) => r == Short
                case TryAgain => r == Blocked
                case Broken => r == Failed
    {
      used := 0;
      hide Concat;
      ghost var was, all, offset := socket.wire, packets, mOffset;
      assert answers[0..] == answers;
      while packets != []
        invariant Valid() && writable == old(writable)
        invariant used + |packets| == |all| && packets == all[used..]
        invariant socket.wire + Sent(packets, mOffset, answers[used..]) == was + Sent(all, offset, answers)
        decreases |packets|
      {
        var answer := answers[used];
        ghost var before, rest := socket.wire, packets[0][mOffset..];
        SentStep(packets, mOffset, answers[used..], before);
        assert answers[used..][1..] == answers[used + 1..];
        used := used + 1;
        var whole := WriteHead(answer);
        if !whole {
          match answer
          case Broken => return Failed, used;
          case TryAgain =>
            writable := false;
            return Blocked, used;
          case Wrote(_) => return Short, used;
        }
        assert rest[..|rest|] == rest;
      }
      NothingSent(answers[used..]);
      r := Drained;
    }
  }

  /** One answer, and those that are still to come if the packet went out as a whole. */
  lemma SentStep(packets: seq<Packet>, offset: nat, answers: seq<Answer>, w: seq<u8>)
    requires packets != [] && offset <= |packets[0]| && answers != []
    ensures var rest := packets[0][offset..];
            var n := Takes(answers[0], |rest|);
            w + Sent(packets, offset, answers) ==
            if answers[0].Wrote? && n == |rest| then w + rest + Sent(packets[1..], 0, answers[1..]) else w + rest[..n]
  {
    var rest, more := packets[0][offset..], Sent(packets[1..], 0, answers[1..]);
    assert w + (rest + more) == w + rest + more;
  }

  lemma NothingSent(answers: seq<Answer>)
    ensures Sent([], 0, answers) == []
  {
  }

  // ---- from end to end ----

  lemma {:induction false} FramesSnoc(ps: seq<Packet>, p: Packet)
    requires (forall i :: 0 <= i < |ps| ==> |ps[i]| < 65536) && |p| < 65536
    ensures Frames(ps + [p]) == Frames(ps) + Frame(p)
  {
    if ps == [] {
      assert [p][1..] == [];
    } else {
      assert (ps + [p])[1..] == ps[1..] + [p];
      FramesSnoc(ps[1..], p);
    }
  }

  ghost predicate Bufferable(ps: seq<Packet>) { forall i :: 0 <= i < |ps| ==> |ps[i]| <= LENGTH_MAX }

  /** Frames of packets that can be buffered never catch a receiver in the doubling loop, wherever they break off. */
  lemma {:induction false} FramesNeverLoop(handler: Handler, past: seq<Packet>, ps: seq<Packet>)
    requires Bufferable(ps)
    ensures Reading(handler, past, Frames(ps)).ending != Endless
    decreases ps
  {
    if ps != [] {
      var f, more := Frame(ps[0]), Frames(ps[1..]);
      FramesNeverLoop(handler, past + [ps[0]], ps[1..]);
      assert LengthAt(f) == |ps[0]| && f[HEADER_SIZE..] == ps[0];
      ReadPacket(handler, past, f);
      if Reading(handler, past, f).ending == Open {
        ReadOn(handler, past, f, more);
        assert [] + more == more;
      } else {
        ReadNoFurther(handler, past, f, more);
      }
    }
  }

  /** Bytes of framed packets, written in any portions and read in any other, hand over a prefix of the packets sent,
      and all of them when everything was written and nothing refused. */
  method Transport(sender: EpollClient, ghost ps: seq<Packet>, pieces: seq<seq<u8>>, handler: Handler)
    returns (ending: Ending, received: seq<Packet>)
    requires sender.Valid() && Bufferable(ps) && sender.queued == Frames(ps) && Flatten(pieces) == sender.socket.wire
    requires forall i :: 0 <= i < |pieces| ==> 0 < |pieces[i]| <= 4096
    ensures received <= ps && ending != Endless
    ensures ending == Open && sender.packets == [] ==> received == ps
    ensures ending == Open <==> Accepted(handler, received)
  {
    hide Packets, Reading, Frames, Flatten;
    ending, received := ReceiveAll(pieces, handler);
    ghost var wire := sender.socket.wire;
    ghost var more := Frames(ps)[|wire|..];
    assert wire + more == Frames(ps);
    PrefixOfFrames(ps, wire);
    FramesNeverLoop(handler, [], ps);
    if ending == Endless {
      ReadNoFurther(handler, [], wire, more);
    } else if ending == Refusal {
      RefusalStays(handler, received, received);
    }
    if sender.packets == [] {
      PacketsOfFrames(ps);
      assert wire == Frames(ps);
    }
  }
}
