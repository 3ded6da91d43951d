/** The LZ77 coder and decoder (lib/codec.c): longest-match search in a fixed window, and a circular window of the last
    255 bytes on the decoding side. */
module Lz77 {
  import opened Bytes

  const WIN_SIZE := 255

  datatype Token = Token(offset: u8, length: u8, value: u8)

  /** How many bytes from data[pos..] equal the bytes from data[w..], both within their bounds. */
  function MatchLength(data: seq<u8>, w: nat, winEnd: nat, pos: nat): (n: nat)
    requires w <= winEnd <= |data| && pos <= |data|
    ensures w + n <= winEnd && pos + n <= |data|
    decreases winEnd - w
  {
    if pos < |data| && w < winEnd && data[pos] == data[w] then 1 + MatchLength(data, w + 1, winEnd, pos + 1) else 0
  }

  /** The match is a common stretch and cannot be extended. */
  lemma {:induction false} MatchIsMaximal(data: seq<u8>, w: nat, winEnd: nat, pos: nat)
    requires w <= winEnd <= |data| && pos <= |data|
    ensures var n := MatchLength(data, w, winEnd, pos);
            && data[pos..pos + n] == data[w..w + n]
            && (pos + n == |data| || w + n == winEnd || data[pos + n] != data[w + n])
    decreases winEnd - w
  {
    if pos < |data| && w < winEnd && data[pos] == data[w] {
      MatchIsMaximal(data, w + 1, winEnd, pos + 1);
      var n := MatchLength(data, w + 1, winEnd, pos + 1);
      assert MatchLength(data, w, winEnd, pos) == n + 1;
      hide MatchLength;
      assert data[pos..pos + 1 + n] == [data[pos]] + data[pos + 1..pos + 1 + n];
      assert data[w..w + 1 + n] == [data[w]] + data[w + 1..w + 1 + n];
    }
  }

  /** The match of the window's k-th byte with the text behind the window. */
  function MatchAt(data: seq<u8>, win: nat, k: nat): (n: nat)
    requires k <= WIN_SIZE && win + WIN_SIZE <= |data|
    ensures k + n <= WIN_SIZE && win + WIN_SIZE + n <= |data|
  {
    MatchLength(data, win + k, win + WIN_SIZE, win + WIN_SIZE)
  }

  /** The byte at a position, or whatever lies behind the buffer: the search reads it when a match ends there. */
  function ByteAt(data: seq<u8>, pos: nat, past: u8): u8 { if pos < |data| then data[pos] else past }

  /** The n bytes from the window's k-th on are those that follow the window. */
  ghost predicate Same(data: seq<u8>, win: nat, k: nat, n: nat) {
    && k + n <= WIN_SIZE && win + WIN_SIZE + n <= |data|
    && data[win + k..win + k + n] == data[win + WIN_SIZE..win + WIN_SIZE + n]
  }

  /** No place in the window goes on longer with the text behind it, and none further left as long. */
  ghost predicate Longest(data: seq<u8>, win: nat, offset: nat, m: nat) {
    && Same(data, win, offset, m)
    && forall k: nat, n: nat :: Same(data, win, k, n) ==> n < m || (n == m && offset <= k)
  }

  lemma MatchIsSame(data: seq<u8>, win: nat, k: nat, n: nat)
    requires k <= WIN_SIZE && win + WIN_SIZE <= |data|
    ensures Same(data, win, k, MatchAt(data, win, k))
    ensures Same(data, win, k, n) ==> n <= MatchAt(data, win, k)
  {
    var m, w, pos := MatchAt(data, win, k), win + k, win + WIN_SIZE;
    MatchIsMaximal(data, w, pos, pos);
    assert Same(data, win, k, m);
    hide MatchLength, Same;
    if Same(data, win, k, n) && n > m {
      SameAt(data, win, k, n, m);
    }
  }

  lemma SameAt(data: seq<u8>, win: nat, k: nat, n: nat, i: nat)
    requires Same(data, win, k, n) && i < n
    ensures win + k + i < win + WIN_SIZE && win + WIN_SIZE + i < |data|
    ensures data[win + k + i] == data[win + WIN_SIZE + i]
  {
    var w, pos := win + k, win + WIN_SIZE;
    assert data[w..w + n][i] == data[w + i] && data[pos..pos + n][i] == data[pos + i];
  }

  /** The comparison of all places, from the left, that keeps only a longer match, finds the longest. */
  lemma BestIsLongest(data: seq<u8>, win: nat, offset: nat, best: nat)
    requires win + WIN_SIZE < |data| && offset < WIN_SIZE && MatchAt(data, win, offset) >= best
    requires forall k :: 0 <= k < WIN_SIZE ==> MatchAt(data, win, k) <= best
    requires forall k :: 0 <= k < offset ==> MatchAt(data, win, k) < best
    ensures Longest(data, win, offset, best)
  {
    hide MatchAt, Same;
    MatchIsSame(data, win, offset, best);
    forall k: nat, n: nat | Same(data, win, k, n)
      ensures n < best || (n == best && offset <= k)
    {
      SameBounds(data, win, k, n);
      MatchIsSame(data, win, k, n);
    }
  }

  lemma SameBounds(data: seq<u8>, win: nat, k: nat, n: nat)
    requires Same(data, win, k, n)
    ensures k + n <= WIN_SIZE
  {
  }

  /** The search: the window is data[win..win + 255], the text to match starts right behind it. The result is the
      longest match, the leftmost of that length, and the byte that follows. */
  method GetNode(data: seq<u8>, win: nat, past: u8) returns (node: Token)
    requires win + WIN_SIZE < |data|
    ensures Longest(data, win, node.offset, node.length)
    ensures node.value == ByteAt(data, win + WIN_SIZE + node.length, past)
  {
    var pos := win + WIN_SIZE;
    var offset, best, value := 0, 0, data[pos];
    for k := 0 to WIN_SIZE
      invariant best <= WIN_SIZE && offset <= k && pos + best <= |data| && value == ByteAt(data, pos + best, past)
      invariant forall j :: 0 <= j < k ==> MatchAt(data, win, j) <= best
      invariant if best > 0 then offset < k && MatchAt(data, win, offset) == best else offset == 0
      invariant forall j :: 0 <= j < offset ==> MatchAt(data, win, j) < best
    {
      var p, pw := pos, win + k;
      while p < |data| && pw < pos && data[p] == data[pw]
        invariant pos <= p <= |data| && win + k <= pw <= pos && p - pos == pw - (win + k)
        invariant MatchLength(data, win + k, pos, pos) == p - pos + MatchLength(data, pw, pos, p)
      {
        p, pw := p + 1, pw + 1;
      }
      var length := p - pos;
      if length > best {
        offset, best, value := k, length, ByteAt(data, p, past);
      }
    }
    node := Token(offset, best, value);
    BestIsLongest(data, win, offset, best);
  }

  // ---- the format ----

  /** What a token stands for in front of a window of the last 255 bytes. */
  function Expand(window: seq<u8>, t: Token): seq<u8>
    requires |window| == WIN_SIZE && t.offset + t.length <= WIN_SIZE
  {
    window[t.offset..t.offset + t.length] + [t.value]
  }

  function LastWindow(text: seq<u8>): seq<u8>
    requires |text| >= WIN_SIZE
  {
    text[|text| - WIN_SIZE..]
  }

  /** Tokens make sense against any window. */
  ghost predicate InWindow(tokens: seq<Token>) {
    forall i :: 0 <= i < |tokens| ==> tokens[i].offset + tokens[i].length <= WIN_SIZE
  }

  function Decoded(text: seq<u8>, tokens: seq<Token>): (r: seq<u8>)
    requires |text| >= WIN_SIZE && InWindow(tokens)
    ensures |r| >= |text|
    decreases |tokens|
  {
    if tokens == [] then text
    else Decoded(text + Expand(LastWindow(text), tokens[0]), tokens[1..])
  }

  lemma DecodedNothing(text: seq<u8>)
    requires |text| >= WIN_SIZE
    ensures Decoded(text, []) == text
  {
  }

  lemma {:induction false} DecodedSnoc(text: seq<u8>, tokens: seq<Token>, t: Token)
    requires |text| >= WIN_SIZE && InWindow(tokens) && t.offset + t.length <= WIN_SIZE
    ensures InWindow(tokens + [t])
    ensures Decoded(text, tokens + [t]) == Decoded(text, tokens) + Expand(LastWindow(Decoded(text, tokens)), t)
    decreases |tokens|
  {
    if tokens == [] {
      assert [t][1..] == [];
    } else {
      assert (tokens + [t])[1..] == tokens[1..] + [t];
      DecodedSnoc(text + Expand(LastWindow(text), tokens[0]), tokens[1..], t);
    }
  }

  // ---- the encoder ----

  /** A part of what was found in the window, and the byte behind it, put exactly the following text on the end. */
  lemma TokenCopies(data: seq<u8>, win: nat, t: Token, m: nat)
    requires win + WIN_SIZE + t.length < |data| && t.length <= m && Same(data, win, t.offset, m)
    requires t.value == data[win + WIN_SIZE + t.length]
    ensures t.offset + t.length <= WIN_SIZE
    ensures data[..win + WIN_SIZE] + Expand(LastWindow(data[..win + WIN_SIZE]), t) ==
            data[..win + WIN_SIZE + t.length + 1]
  {
    var pos, w, n := win + WIN_SIZE, win + t.offset, t.length;
    assert LastWindow(data[..pos]) == data[win..pos];
    hide LastWindow;
    SliceOfSlice(data, win, pos, t.offset, t.offset + n);
    SliceOfSlice(data, pos, pos + m, 0, n);
    SliceOfSlice(data, w, w + m, 0, n);
  }

  lemma SliceOfSlice<T>(s: seq<T>, a: nat, b: nat, i: nat, j: nat)
    requires i <= j && a + j <= b <= |s|
    ensures s[a..b][i..j] == s[a + i..a + j]
  {
    var u, v := s[a..b][i..j], s[a + i..a + j];
    assert |u| == |v|;
    forall k | 0 <= k < |u|
      ensures u[k] == v[k]
    {
      assert u[k] == s[a..b][i + k] == s[a + (i + k)];
    }
  }

  /** The decoder's view of one more token. */
  lemma AddToken(head: seq<u8>, tokens: seq<Token>, data: seq<u8>, win: nat, t: Token, m: nat)
    requires |head| >= WIN_SIZE && InWindow(tokens) && win + WIN_SIZE + t.length < |data|
    requires Decoded(head, tokens) == data[..win + WIN_SIZE]
    requires t.length <= m && Same(data, win, t.offset, m) && t.value == data[win + WIN_SIZE + t.length]
    ensures InWindow(tokens + [t]) && Decoded(head, tokens + [t]) == data[..win + WIN_SIZE + t.length + 1]
  {
    hide Expand, Decoded, LastWindow, Same;
    TokenCopies(data, win, t, m);
    DecodedSnoc(head, tokens, t);
  }

  /** Where the window of the i-th token starts: every token before it took its length and one byte more. */
  function Start(tokens: seq<Token>, i: nat): nat
    requires i <= |tokens|
  {
    if i == 0 then 0 else Start(tokens, i - 1) + tokens[i - 1].length + 1
  }

  /** The longest match there is, the leftmost of its length, and the byte behind it; shorter by one byte exactly when
      the match ends with the data, which leaves that byte for the value. */
  ghost predicate Greedy(data: seq<u8>, win: nat, t: Token) {
    && win + WIN_SIZE + t.length < |data| && t.value == data[win + WIN_SIZE + t.length]
    && exists m: nat :: Longest(data, win, t.offset, m) && t.length == if win + WIN_SIZE + m == |data| then m - 1 else m
  }

  ghost predicate GreedyParse(data: seq<u8>, tokens: seq<Token>) {
    forall i: nat :: i < |tokens| ==> Greedy(data, Start(tokens, i), tokens[i])
  }

  lemma {:induction false} StartOfPrefix(tokens: seq<Token>, t: Token, i: nat)
    requires i <= |tokens|
    ensures Start(tokens + [t], i) == Start(tokens, i)
  {
    if i > 0 {
      StartOfPrefix(tokens, t, i - 1);
    }
  }

  lemma GreedySnoc(data: seq<u8>, tokens: seq<Token>, t: Token)
    requires GreedyParse(data, tokens) && Greedy(data, Start(tokens, |tokens|), t)
    ensures GreedyParse(data, tokens + [t])
    ensures Start(tokens + [t], |tokens| + 1) == Start(tokens, |tokens|) + t.length + 1
  {
    StartOfPrefix(tokens, t, |tokens|);
    forall i: nat | i < |tokens + [t]|
      ensures Greedy(data, Start(tokens + [t], i), (tokens + [t])[i])
    {
      StillGreedy(data, tokens, t, i);
    }
    hide Greedy;
  }

  lemma StillGreedy(data: seq<u8>, tokens: seq<Token>, t: Token, i: nat)
    requires GreedyParse(data, tokens) && Greedy(data, Start(tokens, |tokens|), t) && i <= |tokens|
    ensures Greedy(data, Start(tokens + [t], i), (tokens + [t])[i])
  {
    hide Greedy, Start;
    StartOfPrefix(tokens, t, i);
    if i < |tokens| {
      assert (tokens + [t])[i] == tokens[i];
    }
  }

  /** A raw head of one window, then tokens; a text of at most one window is all head. The tokens are the greedy parse
      of what follows the head: each is the longest match at its place, and a match that ends with the text is cut by
      one byte, which becomes the token's value. */
  method Encode(data: seq<u8>, past: u8) returns (head: seq<u8>, tokens: seq<Token>)
    ensures |data| <= WIN_SIZE ==> head == data && tokens == []
    ensures |data| > WIN_SIZE ==> head == data[..WIN_SIZE] && InWindow(tokens) && Decoded(head, tokens) == data
    ensures |data| > WIN_SIZE ==> GreedyParse(data, tokens) && Start(tokens, |tokens|) + WIN_SIZE == |data|
  {
    hide Expand, LastWindow, Decoded, GreedyParse, Same, Longest;
    if |data| <= WIN_SIZE {
      return data, [];
    }
    head, tokens := data[..WIN_SIZE], [];
    var win, winEnd := 0, |data| - WIN_SIZE;
    DecodedNothing(head);
    assert GreedyParse(data, []) by { NothingIsGreedy(data); }
    while true
      invariant win < winEnd && InWindow(tokens)
      invariant Decoded(head, tokens) == data[..win + WIN_SIZE]
      invariant GreedyParse(data, tokens) && Start(tokens, |tokens|) == win
      decreases winEnd - win
    {
      var node := GetNode(data, win, past);
      ghost var before, m := win, node.length;
      LongestIsSame(data, win, node.offset, m);
      win := win + node.length + 1;
      if win < winEnd {
        AddToken(head, tokens, data, before, node, m);
        GreedySnoc(data, tokens, node);
        tokens := tokens + [node];
      } else {
        if win > winEnd {
          node := Token(node.offset, node.length - 1, data[|data| - 1]);
        }
        AddToken(head, tokens, data, before, node, m);
        GreedySnoc(data, tokens, node);
        tokens := tokens + [node];
        assert data[..|data|] == data;
        break;
      }
    }
  }

  lemma NothingIsGreedy(data: seq<u8>)
    ensures GreedyParse(data, [])
  {
  }

  lemma LongestIsSame(data: seq<u8>, win: nat, offset: nat, m: nat)
    requires Longest(data, win, offset, m)
    ensures Same(data, win, offset, m) && win + WIN_SIZE + m <= |data|
  {
  }

  // ---- the decoder ----

  class Window {
    const data: array<u8>
    var head: nat
    ghost var last: seq<u8>  // the window read from head on

    ghost predicate Valid()
      reads this, data
    {
      && data.Length == WIN_SIZE == |last| && head < WIN_SIZE
      && last == data[head..] + data[..head]
    }

    constructor (bytes: seq<u8>)
      requires |bytes| == WIN_SIZE
      ensures Valid() && last == bytes && fresh(data)
    {
      data := new u8[WIN_SIZE](i requires 0 <= i < WIN_SIZE => bytes[i]);
      head := 0;
      last := bytes;
      new;
      assert data[..] == bytes;
    }

    /** Overwrite the oldest bytes; a whole window and one more byte is the longest a token can give. */
    method Append(bytes: seq<u8>)
      requires Valid() && |bytes| <= WIN_SIZE + 1
      modifies this, data
      ensures Valid() && last == (old(last) + bytes)[|bytes|..]
    {
      var length := |bytes|;
      var rlen := WIN_SIZE - head;
      ghost var was := data[..];
      ghost var h := head;
      if length > rlen {
        CopyAround(bytes, rlen);
      } else {
        Copy(data, head, bytes);
      }
      head := (head + length) % WIN_SIZE;
      last := (last + bytes)[length..];
      WrappedAppend(was, h, bytes, data[..], head);
    }

    /** The piece that does not fit behind the head continues at the front. */
    method CopyAround(bytes: seq<u8>, rlen: nat)
      requires data.Length == WIN_SIZE && head < WIN_SIZE && rlen == WIN_SIZE - head
      requires rlen < |bytes| <= WIN_SIZE + 1
      modifies data
      ensures data[..] == bytes[rlen..] + (old(data[..head]) + bytes[..rlen])[|bytes| - rlen..]
    {
      Copy(data, head, bytes[..rlen]);
      assert data[..] == old(data[..head]) + bytes[..rlen];
      Copy(data, 0, bytes[rlen..]);
    }

    /** Read a token against the window and append it to the window. The source's buffer must hold length + 1 bytes. */
    method AppendNode(node: Token) returns (bytes: seq<u8>)
      requires Valid() && node.offset + node.length <= WIN_SIZE
      modifies this, data
      ensures Valid() && bytes == Expand(old(last), node)
      ensures last == (old(last) + bytes)[|bytes|..]
    {
      var offset := (head + node.offset) % WIN_SIZE;
      var rlen := WIN_SIZE - offset;
      if node.length > rlen {
        bytes := data[offset..] + data[..node.length - rlen];
      } else if node.length > 0 {
        bytes := data[offset..offset + node.length];
      } else {
        bytes := [];
      }
      WrappedRead(data[..], head, node.offset, node.length, bytes);
      bytes := bytes + [node.value];
      Append(bytes);
    }
  }

  lemma WrappedRead(d: seq<u8>, head: nat, o: nat, n: nat, bytes: seq<u8>)
    requires |d| == WIN_SIZE && head < WIN_SIZE && o + n <= WIN_SIZE
    requires var offset := (head + o) % WIN_SIZE;
             var rlen := WIN_SIZE - offset;
             bytes == if n > rlen then d[offset..] + d[..n - rlen]
                      else if n > 0 then d[offset..offset + n] else []
    ensures bytes == (d[head..] + d[..head])[o..o + n]
  {
    var offset := (head + o) % WIN_SIZE;
    if head + o < WIN_SIZE {
      assert offset == head + o;
    } else {
      assert offset == head + o - WIN_SIZE;
    }
  }

  /** The circular window after an append is the last 255 bytes, also when the appended bytes wrap onto themselves. */
  lemma WrappedAppend(d: seq<u8>, head: nat, bytes: seq<u8>, e: seq<u8>, head': nat)
    requires |d| == WIN_SIZE == |e| && head < WIN_SIZE && |bytes| <= WIN_SIZE + 1
    requires head' == (head + |bytes|) % WIN_SIZE
    requires var rlen := WIN_SIZE - head;
             if |bytes| > rlen then
               var k := |bytes| - rlen;
               k <= WIN_SIZE && e == bytes[rlen..] + (d[..head] + bytes[..rlen])[k..]
             else e == d[..head] + bytes + d[head + |bytes|..]
    ensures e[head'..] + e[..head'] == (d[head..] + d[..head] + bytes)[|bytes|..]
  {
    var rlen, n := WIN_SIZE - head, |bytes|;
    if n > rlen {
      if n - rlen < WIN_SIZE {
        assert head' == n - rlen;
      } else {
        assert head' == 0;
      }
    } else if n == rlen {
      assert head' == 0;
    } else {
      assert head' == head + n;
    }
  }

  lemma WindowSlides(out: seq<u8>, bytes: seq<u8>)
    requires |out| >= WIN_SIZE
    ensures LastWindow(out + bytes) == (LastWindow(out) + bytes)[|bytes|..]
  {
  }

  method Decode(head: seq<u8>, tokens: seq<Token>) returns (out: seq<u8>)
    requires InWindow(tokens) && |head| <= WIN_SIZE && (|head| < WIN_SIZE ==> tokens == [])
    ensures out == if |head| < WIN_SIZE then head else Decoded(head, tokens)
  {
    out := head;
    if |head| < WIN_SIZE {
      return;
    }
    var win := new Window(head);
    assert tokens[..0] == [];
    assert LastWindow(head) == head;
    hide Expand, LastWindow;
    for i := 0 to |tokens|
      invariant win.Valid() && fresh(win) && fresh(win.data)
      invariant out == Decoded(head, tokens[..i]) && win.last == LastWindow(out)
    {
      DecodedSnoc(head, tokens[..i], tokens[i]);
      assert tokens[..i + 1] == tokens[..i] + [tokens[i]];
      var bytes := win.AppendNode(tokens[i]);
      WindowSlides(out, bytes);
      out := out + bytes;
    }
    assert tokens[..|tokens|] == tokens;
  }

  /** Decoding what was encoded is the identity, for every length and whatever lies behind the input buffer. */
  method RoundTrip(data: seq<u8>, past: u8) returns (out: seq<u8>)
    ensures out == data
  {
    var head, tokens := Encode(data, past);
    out := Decode(head, tokens);
  }
}
