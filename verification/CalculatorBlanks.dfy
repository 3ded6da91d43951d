/** Blanks in a formula (lib/calculator.c): the scan skips them, but the test for a leading sign looks at the first
    character alone. */
module CalculatorBlanks {
  import opened Calculator
  import opened Wrappers

  function Strip<V>(f: seq<Token<V>>): seq<Token<V>> {
    if f == [] then [] else if f[0].Blank? then Strip(f[1..]) else [f[0]] + Strip(f[1..])
  }

  predicate SignFirst<V>(f: seq<Token<V>>) { f != [] && f[0].Op? && Priority(f[0].o) == 0 }

  /** Blanks, and then a sign: the test at the start of the scan misses it. */
  predicate HiddenSign<V>(f: seq<Token<V>>) { !SignFirst(f) && SignFirst(Strip(f)) }

  /** Behind no opening bracket. */
  predicate Inside<V>(f: seq<Token<V>>) {
    f == [] || ((f[0].Open? ==> !HiddenSign(f[1..])) && Inside(f[1..]))
  }

  /** No blank stands between the start of the formula, or an opening bracket, and a leading sign. */
  predicate Plain<V>(f: seq<Token<V>>) { !HiddenSign(f) && Inside(f) }

  lemma StripOne<V>(f: seq<Token<V>>)
    ensures Strip(f) == if f == [] then [] else if f[0].Blank? then Strip(f[1..]) else [f[0]] + Strip(f[1..])
  {
  }

  lemma StripNext<V>(f: seq<Token<V>>)
    requires f != [] && !f[0].Blank?
    ensures var s := Strip(f); s != [] && s[0] == f[0] && s[1..] == Strip(f[1..])
  {
  }

  lemma {:induction false} StripConcat<V>(x: seq<Token<V>>, y: seq<Token<V>>)
    ensures Strip(x + y) == Strip(x) + Strip(y)
  {
    hide Strip;
    StripOne(x);
    if x == [] {
      assert x + y == y;
    } else {
      assert (x + y)[0] == x[0] && (x + y)[1..] == x[1..] + y;
      StripOne(x + y);
      StripConcat(x[1..], y);
    }
  }

  lemma StripTake<V>(f: seq<Token<V>>, j: nat)
    requires j < |f|
    ensures |Strip(f[..j + 1])| == |Strip(f[1..][..j])| + if f[0].Blank? then 0 else 1
  {
    assert f[..j + 1][1..] == f[1..][..j] && f[..j + 1][0] == f[0];
  }

  lemma ScanEnds<V>(f: seq<Token<V>>, k: Kind)
    requires f != [] && f[0] == Close(k)
    ensures Scan(f, 1, k) == Some(0) == Scan(Strip(f), 1, k) && Strip(f[..0]) == []
  {
  }

  lemma ScanNext<V>(f: seq<Token<V>>, counter: nat, k: Kind)
    requires f != [] && counter >= 1 && !(f[0] == Close(k) && counter == 1)
    ensures var n := if f[0] == Open(k) then counter + 1 else if f[0] == Close(k) then counter - 1 else counter;
            Scan(f, counter, k) == Shift(Scan(f[1..], n, k), 1)
  {
  }

  /** Where the partner stands without the blanks. */
  function Closer<V>(f: seq<Token<V>>, j: Option<nat>): Option<nat>
    requires j.Some? ==> j.value <= |f|
  {
    if j.None? then None else Some(|Strip(f[..j.value])|)
  }

  lemma {:induction false} ScanOfStrip<V>(f: seq<Token<V>>, counter: nat, k: Kind)
    requires counter >= 1
    ensures Scan(Strip(f), counter, k) == Closer(f, Scan(f, counter, k))
  {
    hide Strip, Scan;
    StripOne(f);
    if f == [] {
      assert Scan(f, counter, k).None?;
    } else if f[0] == Close(k) && counter == 1 {
      ScanEnds(f, k);
    } else {
      var n := if f[0] == Open(k) then counter + 1 else if f[0] == Close(k) then counter - 1 else counter;
      ScanOfStrip(f[1..], n, k);
      ScanNext(f, counter, k);
      if !f[0].Blank? { StripNext(f); ScanNext(Strip(f), counter, k); }
      var j := Scan(f[1..], n, k);
      if j.Some? { StripTake(f, j.value); }
    }
  }

  /** A bracket without its blanks: its inside and what follows it, each without blanks. */
  lemma StripBracket<V>(f: seq<Token<V>>, j: nat)
    requires j + 1 < |f| && f[0].Open? && f[j + 1].Close?
    ensures var n := |Strip(f[1..1 + j])|; var s := Strip(f);
            && |s| >= n + 2 && s[0] == f[0]
            && s[1..] == Strip(f[1..]) && s[1..1 + n] == Strip(f[1..1 + j]) && s[n + 2..] == Strip(f[j + 2..])
  {
    assert f[1..] == f[1..1 + j] + f[j + 1..];
    StripConcat(f[1..1 + j], f[j + 1..]);
    assert f[j + 1..][1..] == f[j + 2..];
  }

  lemma HiddenBefore<V>(x: seq<Token<V>>, y: seq<Token<V>>)
    requires y != [] && y[0].Close?
    ensures HiddenSign(x + y) == HiddenSign(x)
  {
    StripConcat(x, y);
    assert Strip(y)[0] == y[0];
  }

  lemma {:induction false} InsideConcat<V>(x: seq<Token<V>>, y: seq<Token<V>>)
    requires y != [] && y[0].Close?
    ensures Inside(x + y) <==> Inside(x) && Inside(y)
  {
    if x == [] {
      assert x + y == y;
    } else {
      hide HiddenSign;
      assert (x + y)[0] == x[0] && (x + y)[1..] == x[1..] + y;
      HiddenBefore(x[1..], y);
      InsideConcat(x[1..], y);
    }
  }

  lemma InsideBracket<V>(f: seq<Token<V>>, j: nat)
    requires j + 1 < |f| && f[0].Open? && f[j + 1].Close?
    ensures Inside(f) <==> Plain(f[1..1 + j]) && Inside(f[j + 2..])
  {
    hide HiddenSign;
    var inner, after := f[1..1 + j], f[j + 1..];
    assert f[1..] == inner + after && after[1..] == f[j + 2..];
    HiddenBefore(inner, after);
    InsideConcat(inner, after);
  }

  lemma SplitOfStrip<V>(f: seq<Token<V>>)
    requires f != [] && f[0].Open?
    ensures var s := Strip(f); s != [] && s[0] == f[0] && (Split(f).None? ==> Split(s).None?)
    ensures var p := Split(f);
            p.Some? ==>
              && Split(Strip(f)) == Some((Strip(p.value.0), Strip(p.value.1)))
              && (Inside(f) <==> Plain(p.value.0) && Inside(p.value.1))
  {
    hide Inside, Plain, Scan, Strip;
    var j := Scan(f[1..], 1, f[0].k);
    ScanOfStrip(f[1..], 1, f[0].k);
    StripNext(f);
    if j.Some? {
      ScanFindsClose(f[1..], 1, f[0].k);
      assert f[1..][..j.value] == f[1..1 + j.value];
      StripBracket(f, j.value);
      InsideBracket(f, j.value);
    }
  }

  /** Elsewhere blanks make no difference, whatever the formula. */
  lemma {:induction false} RunOfStrip<V>(a: Arith<V>, c: Room, f: seq<Token<V>>, data: seq<V>, ops: seq<Oper>)
    requires Inside(f)
    ensures Run(a, c, Strip(f), data, ops) == Run(a, c, f, data, ops)
    decreases |f|, 0
  {
    if f == [] {
    } else if f[0].Blank? {
      RunOfStrip(a, c, f[1..], data, ops);
    } else {
      hide Inside, Plain, Run, Base, Strip, MoveAt, Split;
      if f[0].Open? {
        SplitOfStrip(f);
        RunSplit(a, c, f, data, ops);
        RunSplit(a, c, Strip(f), data, ops);
        var p := Split(f);
        if p.Some? {
          BaseOfStrip(a, c, p.value.0);
          var v := Base(a, c, p.value.0);
          if v.Ok? { RunOfStrip(a, c, p.value.1, data + [v.value], ops); }
        }
      } else {
          StripNext(f);
        RunNext(a, c, f, data, ops);
        RunNext(a, c, Strip(f), data, ops);
        var m := MoveAt(a, c, [f[0]], 0, data, ops);
        if m.Go? { RunOfStrip(a, c, f[1..], m.data, m.ops); }
      }
    }
  }

  lemma {:induction false} BaseOfStrip<V>(a: Arith<V>, c: Room, f: seq<Token<V>>)
    requires Plain(f)
    ensures Base(a, c, Strip(f)) == Base(a, c, f)
    decreases |f|, 1
  {
    assert Initial(a, Strip(f)) == Initial(a, f) by {
      assert f != [] && SignFirst(f) ==> Strip(f)[0] == f[0];
    }
    RunOfStrip(a, c, f, Initial(a, f), []);
  }

  lemma {:induction false} PopCounts<V>(a: Arith<V>, p: nat, data: seq<V>, ops: seq<Oper>)
    requires PopWhile(a, p, data, ops).Ok?
    ensures var s := PopWhile(a, p, data, ops).value; |s.data| - |s.ops| == |data| - |ops| && (p == 0 ==> s.ops == [])
    decreases |ops|
  {
    if ops != [] && Priority(ops[|ops| - 1]) >= p {
      PopCounts(a, p, Reduced(a, ops[|ops| - 1], data).value, ops[..|ops| - 1]);
    }
  }

  /** What a token other than a bracket does to the number of operands too many. */
  function Weight<V>(t: Token<V>): int { if t.Num? then 1 else if t.Op? then -1 else 0 }

  lemma MoveCounts<V>(a: Arith<V>, c: Room, t: Token<V>, data: seq<V>, ops: seq<Oper>)
    requires !t.Open?
    ensures var m := MoveAt(a, c, [t], 0, data, ops); m.Go? ==> |m.data| - |m.ops| == |data| - |ops| + Weight(t)
  {
    if t.Op? && PopWhile(a, Priority(t.o), data, ops).Ok? {
      PopCounts(a, Priority(t.o), data, ops);
    }
  }

  /** Every operator takes two operands and leaves one: so two scans of the same formula that both succeed, one of them
      without the blanks, began with as many operands to the operator. */
  lemma {:induction false} BothCount<V>(a: Arith<V>, c: Room, f: seq<Token<V>>,
                                        data: seq<V>, ops: seq<Oper>, data': seq<V>, ops': seq<Oper>)
    requires Nul !in f && Run(a, c, f, data, ops).Ok? && Run(a, c, Strip(f), data', ops').Ok?
    ensures |data| - |ops| == |data'| - |ops'| && Inside(f)
    decreases |f|, 0
  {
    if f == [] {
      PopCounts(a, 0, data, ops);
      PopCounts(a, 0, data', ops');
    } else if f[0].Blank? {
      BothCount(a, c, f[1..], data, ops, data', ops');
    } else if f[0].Open? {
      SplitOfStrip(f);
      RunSplit(a, c, f, data, ops);
      RunSplit(a, c, Strip(f), data', ops');
      var (inner, rest) := Split(f).value;
      hide Inside, Plain, Run, Base, Strip, Split;
      PlainIfBoth(a, c, inner);
      var v, v' := Base(a, c, inner).value, Base(a, c, Strip(inner)).value;
      BothCount(a, c, rest, data + [v], ops, data' + [v'], ops');
    } else {
      StripNext(f);
      RunNext(a, c, f, data, ops);
      RunNext(a, c, Strip(f), data', ops');
      MoveCounts(a, c, f[0], data, ops);
      MoveCounts(a, c, f[0], data', ops');
      var m, m' := MoveAt(a, c, [f[0]], 0, data, ops), MoveAt(a, c, [f[0]], 0, data', ops');
      assert m.Go? && m'.Go?;
      hide Inside, Run, Strip, MoveAt;
      BothCount(a, c, f[1..], m.data, m.ops, m'.data, m'.ops);
    }
  }

  lemma {:induction false} PlainIfBoth<V>(a: Arith<V>, c: Room, f: seq<Token<V>>)
    requires Nul !in f && Base(a, c, f).Ok? && Base(a, c, Strip(f)).Ok?
    ensures Plain(f)
    decreases |f|, 1
  {
    BothCount(a, c, f, Initial(a, f), [], Initial(a, Strip(f)), []);
  }

  predicate NoMemOr<V>(r: Result<V>) { r.Ok? || r == Err(NoMem) }

  /** With fewer operands the only new failure is a missing one. */
  lemma {:induction false} PopLacks<V>(a: Arith<V>, p: nat, data: seq<V>, data': seq<V>, ops: seq<Oper>)
    requires |data| <= |data'| && PopWhile(a, p, data', ops).Ok?
    ensures var (s, s') := (PopWhile(a, p, data, ops), PopWhile(a, p, data', ops));
            s == Err(NoMem) || (s.Ok? && s.value.ops == s'.value.ops && |s.value.data| <= |s'.value.data|)
    decreases |ops|
  {
    if ops != [] && Priority(ops[|ops| - 1]) >= p && |data| >= 2 {
      var op := ops[|ops| - 1];
      PopLacks(a, p, Reduced(a, op, data).value, Reduced(a, op, data').value, ops[..|ops| - 1]);
    }
  }

  lemma MoveLacks<V>(a: Arith<V>, c: Room, t: Token<V>, data: seq<V>, data': seq<V>, ops: seq<Oper>)
    requires !t.Open? && |data| <= |data'|
    ensures var (m, m') := (MoveAt(a, c, [t], 0, data, ops), MoveAt(a, c, [t], 0, data', ops));
            && (m'.Go? ==> m == Stop(Err(NoMem)) || (m.Go? && m.ops == m'.ops && |m.data| <= |m'.data|))
            && (m'.Stop? && m'.r.Ok? ==> m.Stop? && NoMemOr(m.r))
  {
    match t
    case Op(o) => if PopWhile(a, Priority(o), data', ops).Ok? { PopLacks(a, Priority(o), data, data', ops); }
    case Nul => FinishLacks(a, data, data', ops);
    case _ =>
  }

  lemma FinishLacks<V>(a: Arith<V>, data: seq<V>, data': seq<V>, ops: seq<Oper>)
    requires |data| <= |data'|
    ensures Finish(a, data', ops).Ok? ==> NoMemOr(Finish(a, data, ops))
  {
    if PopWhile(a, 0, data', ops).Ok? { PopLacks(a, 0, data, data', ops); }
  }

  /** So a formula accepted without its blanks is accepted with them, or an operand is missing. */
  lemma {:induction false} RunLacks<V>(
      a: Arith<V>, c: Room, f: seq<Token<V>>, data: seq<V>, data': seq<V>, ops: seq<Oper>)
    requires |data| <= |data'| && Run(a, c, Strip(f), data', ops).Ok?
    ensures NoMemOr(Run(a, c, f, data, ops))
    decreases |f|, 0
  {
    if f == [] {
      FinishLacks(a, data, data', ops);
    } else if f[0].Blank? {
      RunLacks(a, c, f[1..], data, data', ops);
    } else if f[0].Open? {
      hide Inside, Plain, Run, Base, Strip, Split;
      SplitOfStrip(f);
      RunSplit(a, c, f, data, ops);
      RunSplit(a, c, Strip(f), data', ops);
      var (inner, rest) := Split(f).value;
      BaseLacks(a, c, inner);
      var v, v' := Base(a, c, inner), Base(a, c, Strip(inner)).value;
      if v.Ok? { RunLacks(a, c, rest, data + [v.value], data' + [v'], ops); }
    } else {
      hide Inside, Run, Strip, MoveAt;
      StripNext(f);
      RunNext(a, c, f, data, ops);
      RunNext(a, c, Strip(f), data', ops);
      MoveLacks(a, c, f[0], data, data', ops);
      var m, m' := MoveAt(a, c, [f[0]], 0, data, ops), MoveAt(a, c, [f[0]], 0, data', ops);
      if m'.Go? && m.Go? { RunLacks(a, c, f[1..], m.data, m'.data, m.ops); }
    }
  }

  lemma {:induction false} BaseLacks<V>(a: Arith<V>, c: Room, f: seq<Token<V>>)
    requires Base(a, c, Strip(f)).Ok?
    ensures NoMemOr(Base(a, c, f))
    decreases |f|, 1
  {
    if SignFirst(f) { StripNext(f); }
    RunLacks(a, c, f, Initial(a, f), Initial(a, Strip(f)), []);
  }

  /** A formula that is accepted without its blanks is accepted with them, with the same value, if and only if they
      hide no leading sign; otherwise an operand is missing. */
  lemma BlanksDoNoHarmIff<V>(a: Arith<V>, c: Room, f: seq<Token<V>>)
    requires Nul !in f && Base(a, c, Strip(f)).Ok?
    ensures Base(a, c, f) == if Plain(f) then Base(a, c, Strip(f)) else Err(NoMem)
  {
    if Plain(f) {
      BaseOfStrip(a, c, f);
    } else {
      BaseLacks(a, c, f);
      if Base(a, c, f).Ok? { PlainIfBoth(a, c, f); }
    }
  }

  lemma NoNul<V>(e: Expr<V>, f: seq<Token<V>>)
    requires Strip(f) == Text(e)
    ensures Nul !in f
  {
    TextHasNoNul(e);
    StripKeeps(f, Nul);
  }

  lemma {:induction false} TextHasNoNul<V>(e: Expr<V>)
    ensures Nul !in Text(e)
  {
    match e
    case Const(_) =>
    case Absent =>
    case Paren(_, x) => TextHasNoNul(x);
    case Bin(_, l, r) => TextHasNoNul(l); TextHasNoNul(r);
  }

  lemma {:induction false} StripKeeps<V>(f: seq<Token<V>>, t: Token<V>)
    requires !t.Blank?
    ensures t in Strip(f) <==> t in f
  {
    if f != [] {
      StripKeeps(f[1..], t);
      assert f == [f[0]] + f[1..];
    }
  }

  lemma {:induction false} CheckOfStrip<V>(f: seq<Token<V>>, stack: seq<Kind>)
    ensures Check(Strip(f), stack) == Check(f, stack)
  {
    if f != [] {
      var s := Strip(f);
      assert !f[0].Blank? ==> s[0] == f[0] && s[1..] == Strip(f[1..]);
      if f[0].Open? {
        CheckOfStrip(f[1..], stack + [f[0].k]);
      } else if f[0].Close? {
        if stack != [] { CheckOfStrip(f[1..], stack[..|stack| - 1]); }
      } else {
        CheckOfStrip(f[1..], stack);
      }
    }
  }

  /** Any spacing of an expression's text is given the expression's value if and only if no blank hides a leading
      sign. */
  lemma BaseOfSpaced<V>(a: Arith<V>, c: Room, e: Expr<V>, f: seq<Token<V>>)
    requires WellFormed(e) && Enough(c) && Strip(f) == Text(e)
    ensures Base(a, c, f) == if Plain(f) then Ok(Eval(a, e)) else Err(NoMem)
  {
    NoNul(e, f);
    BaseOfText(a, c, e);
    BlanksDoNoHarmIff(a, c, f);
  }

  /** The whole calculation of any spacing of any expression. */
  lemma CalculateSpaced<V>(a: Arith<V>, e: Expr<V>, f: seq<Token<V>>)
    requires WellFormed(e) && Strip(f) == Text(e)
    ensures Calculate(a, f) ==
            if Nesting(e) <= BRACKET_STACK_SIZE && Plain(f) then Ok(Eval(a, e)) else Err(NoMem)
  {
    CheckOfStrip(f, []);
    CheckOfText(e, [], []);
    assert Text(e) + [] == Text(e);
    BaseOfSpaced(a, ROOM, e, f);
  }

  /** " -3" is refused and "-3" is not. */
  lemma BlankHidesSign<V>(a: Arith<V>, v: V)
    ensures Calculate(a, [Op(Sub), Num(v)]) == Ok(a.apply(Sub, a.zero, v))
    ensures Calculate(a, [Blank, Op(Sub), Num(v)]) == Err(NoMem)
  {
    var e := Bin(Sub, Absent, Const(v));
    var text := [Op(Sub), Num(v)];
    assert Text(e) == text;
    CalculateIsEval(a, e);
    var f := [Blank] + text;
    assert f == [Blank, Op(Sub), Num(v)] && f[1..] == text && text[1..] == [Num(v)];
    assert [Num(v)][1..] == [] && Strip([Num(v)]) == [Num(v)];
    assert Strip(text) == text && Strip(f) == text;
    CalculateSpaced(a, e, f);
  }
}
