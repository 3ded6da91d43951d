/** The operator-precedence calculator (lib/calculator.c): bracket matching, and evaluation with an operand stack and
    an operator stack, over a formula already cut into tokens. Operators are uninterpreted, so what holds here holds
    for any arithmetic. */
module Calculator {
  import opened Wrappers

  const STACK_SIZE := 100
  const BRACKET_STACK_SIZE := 10

  datatype Kind = Round | Square | Curly
  datatype Oper = Add | Sub | Mul | Div | Mod
  datatype Token<V> = Num(v: V) | Op(o: Oper) | Open(k: Kind) | Close(k: Kind) | Blank | Nul | Other
  datatype Error = Invalid | NoMem | Fault
  datatype Result<V> = Ok(value: V) | Err(error: Error)

  /** What + - * / do, and the value of an empty left operand. */
  datatype Arith<!V> = Arith(zero: V, apply: (Oper, V, V) -> V)

  /** How many operands and how many operators there is room for. */
  datatype Room = Room(data: nat, ops: nat)

  const ROOM := Room(STACK_SIZE, STACK_SIZE)

  function Priority(o: Oper): nat { if o == Add || o == Sub then 0 else 1 }

  // ---- brackets ----

  /** The scan of get_bracket_pair: brackets of one kind are counted, all other tokens skipped. */
  function Scan<V>(s: seq<Token<V>>, counter: nat, k: Kind): (j: Option<nat>)
    ensures j.Some? ==> j.value < |s|
  {
    if s == [] then None
    else if s[0] == Close(k) && counter <= 1 then Some(0)
    else
      var c := if s[0] == Open(k) then counter + 1 else if s[0] == Close(k) then counter - 1 else counter;
      match Scan(s[1..], c, k)
      case None => None
      case Some(j) => Some(j + 1)
  }

  /** The true partner: where a stack of open brackets, bottom first, is emptied by brackets of the right kinds. */
  function Partner<V>(s: seq<Token<V>>, stack: seq<Kind>): Option<nat>
    requires stack != []
  {
    if s == [] then None
    else
      var top := stack[|stack| - 1];
      if s[0].Close? && s[0].k != top then None
      else if s[0].Close? && |stack| == 1 then Some(0)
      else
        var st := if s[0].Open? then stack + [s[0].k] else if s[0].Close? then stack[..|stack| - 1] else stack;
        match Partner(s[1..], st)
        case None => None
        case Some(j) => Some(j + 1)
  }

  function CountKind(stack: seq<Kind>, k: Kind): nat {
    if stack == [] then 0 else CountKind(stack[..|stack| - 1], k) + if stack[|stack| - 1] == k then 1 else 0
  }

  lemma {:induction false} BottomCounts(stack: seq<Kind>)
    requires stack != []
    ensures CountKind(stack, stack[0]) >= 1
    ensures |stack| > 1 && stack[|stack| - 1] == stack[0] ==> CountKind(stack, stack[0]) >= 2
  {
    if |stack| > 1 {
      BottomCounts(stack[..|stack| - 1]);
    }
  }

  /** Counting one kind of bracket is enough wherever the brackets really match. */
  lemma {:induction false} ScanFindsPartner<V>(s: seq<Token<V>>, stack: seq<Kind>)
    requires stack != [] && Partner(s, stack).Some?
    ensures Scan(s, CountKind(stack, stack[0]), stack[0]) == Partner(s, stack)
  {
    BottomCounts(stack);
    var k, top := stack[0], stack[|stack| - 1];
    if s[0].Close? && |stack| == 1 {
      assert stack[..0] == [];
    } else if s[0].Open? {
      assert (stack + [s[0].k])[..|stack|] == stack;
      ScanFindsPartner(s[1..], stack + [s[0].k]);
    } else if s[0].Close? {
      ScanFindsPartner(s[1..], stack[..|stack| - 1]);
    } else {
      ScanFindsPartner(s[1..], stack);
    }
  }

  /** check_bracket_match_pair: every bracket closes the last open one, and at most ten are open at a time. */
  function Check<V>(s: seq<Token<V>>, stack: seq<Kind>): Result<()> {
    if s == [] then (if stack == [] then Ok(()) else Err(Fault))
    else if s[0].Open? then
      if |stack| >= BRACKET_STACK_SIZE then Err(NoMem) else Check(s[1..], stack + [s[0].k])
    else if s[0].Close? then
      if stack == [] || stack[|stack| - 1] != s[0].k then Err(Fault) else Check(s[1..], stack[..|stack| - 1])
    else Check(s[1..], stack)
  }

  /** In a formula that passes the check every open bracket has its true partner behind it. */
  lemma {:induction false} CheckedHasPartner<V>(s: seq<Token<V>>, below: seq<Kind>, stack: seq<Kind>)
    requires stack != [] && Check(s, below + stack).Ok?
    ensures Partner(s, stack).Some?
  {
    var all := below + stack;
    if s == [] {
    } else if s[0].Open? {
      assert all + [s[0].k] == below + (stack + [s[0].k]);
      CheckedHasPartner(s[1..], below, stack + [s[0].k]);
    } else if s[0].Close? {
      assert all[|all| - 1] == stack[|stack| - 1];
      if |stack| > 1 {
        assert all[..|all| - 1] == below + stack[..|stack| - 1];
        CheckedHasPartner(s[1..], below, stack[..|stack| - 1]);
      }
    } else {
      CheckedHasPartner(s[1..], below, stack);
    }
  }

  /** So in a checked formula get_bracket_pair finds the true partner of any bracket it is asked about. */
  lemma PairIsPartner<V>(s: seq<Token<V>>, i: nat)
    requires Check(s, []).Ok? && i < |s| && s[i].Open?
    ensures Partner(s[i + 1..], [s[i].k]).Some?
    ensures Scan(s[i + 1..], 1, s[i].k) == Partner(s[i + 1..], [s[i].k])
  {
    var st := SuffixChecked(s, [], i);
    assert s[i..][1..] == s[i + 1..];
    CheckedHasPartner(s[i + 1..], st, [s[i].k]);
    assert [s[i].k][..0] == [];
    ScanFindsPartner(s[i + 1..], [s[i].k]);
  }

  lemma {:induction false} SuffixChecked<V>(s: seq<Token<V>>, stack: seq<Kind>, i: nat) returns (st: seq<Kind>)
    requires Check(s, stack).Ok? && i <= |s|
    ensures Check(s[i..], st).Ok?
  {
    if i == 0 {
      st := stack;
      assert s[0..] == s;
    } else {
      var next := if s[0].Open? then stack + [s[0].k] else if s[0].Close? then stack[..|stack| - 1] else stack;
      st := SuffixChecked(s[1..], next, i - 1);
      assert s[1..][i - 1..] == s[i..];
    }
  }

  /** Text with brackets that match: a token that is no bracket, or a pair with matching text inside, and so on. */
  datatype Nest<V> = Done | Item(token: Token<V>, rest: Nest<V>) | Pair(kind: Kind, inside: Nest<V>, behind: Nest<V>)

  ghost predicate Proper<V>(n: Nest<V>) {
    match n
    case Done => true
    case Item(t, r) => !t.Open? && !t.Close? && Proper(r)
    case Pair(_, i, b) => Proper(i) && Proper(b)
  }

  function TextOf<V>(n: Nest<V>): seq<Token<V>> {
    match n
    case Done => []
    case Item(t, r) => [t] + TextOf(r)
    case Pair(k, i, b) => [Open(k)] + TextOf(i) + [Close(k)] + TextOf(b)
  }

  function Levels<V>(n: Nest<V>): nat {
    match n
    case Done => 0
    case Item(_, r) => Levels(r)
    case Pair(_, i, b) => if Levels(i) + 1 > Levels(b) then Levels(i) + 1 else Levels(b)
  }

  ghost predicate Matched<V>(f: seq<Token<V>>, n: Nest<V>) { Proper(n) && TextOf(n) == f }

  /** The check passes over matching text that does not open too many brackets. */
  lemma {:induction false} CheckPasses<V>(n: Nest<V>, s: seq<Token<V>>, stack: seq<Kind>)
    requires Proper(n) && |stack| + Levels(n) <= BRACKET_STACK_SIZE
    ensures Check(TextOf(n) + s, stack) == Check(s, stack)
    decreases n
  {
    match n
    case Done => assert TextOf(n) + s == s;
    case Item(t, r) =>
      assert TextOf(n) + s == [t] + (TextOf(r) + s);
      CheckPasses(r, s, stack);
    case Pair(k, i, b) =>
      var close, t := [Close(k)] + (TextOf(b) + s), TextOf(i) + ([Close(k)] + (TextOf(b) + s));
      PairText([Open(k)] + t, k, i, close, b, s);
      CheckBracket(t, TextOf(b) + s, stack, k);
      CheckPasses(i, close, stack + [k]);
      CheckPasses(b, s, stack);
      hide Check, TextOf;
  }

  lemma CheckBracket<V>(t: seq<Token<V>>, u: seq<Token<V>>, stack: seq<Kind>, k: Kind)
    ensures |stack| < BRACKET_STACK_SIZE ==> Check([Open(k)] + t, stack) == Check(t, stack + [k])
    ensures Check([Close(k)] + u, stack + [k]) == Check(u, stack)
  {
    assert ([Open(k)] + t)[1..] == t && ([Close(k)] + u)[1..] == u && (stack + [k])[..|stack|] == stack;
  }

  /** What the check accepts is matching text, up to the bracket that closes what was open before. */
  lemma {:induction false} Unnest<V>(s: seq<Token<V>>, stack: seq<Kind>)
    returns (n: Nest<V>, rest: seq<Token<V>>)
    requires Check(s, stack).Ok? && |stack| <= BRACKET_STACK_SIZE
    ensures Proper(n) && s == TextOf(n) + rest && |stack| + Levels(n) <= BRACKET_STACK_SIZE
    ensures Check(rest, stack).Ok? && if stack == [] then rest == [] else rest != [] && rest[0].Close?
    decreases |s|
  {
    if s == [] || s[0].Close? {
      n, rest := Done, s;
    } else if s[0].Open? {
      var k := s[0].k;
      var i, r := Unnest(s[1..], stack + [k]);
      Closes(r, stack, k);
      hide Check, TextOf;
      var b: Nest<V>;
      b, rest := Unnest(r[1..], stack);
      n := Pair(k, i, b);
      PairText(s, k, i, r, b, rest);
    } else {
      var more: Nest<V>;
      more, rest := Unnest(s[1..], stack);
      hide Check;
      n := Item(s[0], more);
      assert s == [s[0]] + (TextOf(more) + rest);
    }
  }

  lemma PairText<V>(
      s: seq<Token<V>>, k: Kind, i: Nest<V>, r: seq<Token<V>>, b: Nest<V>, rest: seq<Token<V>>)
    requires s != [] && s[0] == Open(k) && s[1..] == TextOf(i) + r
    requires r != [] && r[0] == Close(k) && r[1..] == TextOf(b) + rest
    ensures s == TextOf(Pair(k, i, b)) + rest
  {
    var inside, behind := TextOf(i), TextOf(b);
    assert TextOf(Pair(k, i, b)) == [Open(k)] + inside + [Close(k)] + behind;
    hide TextOf;
    assert s == [Open(k)] + s[1..] && r == [Close(k)] + r[1..];
    assert [Open(k)] + (inside + ([Close(k)] + (behind + rest))) == [Open(k)] + inside + [Close(k)] + behind + rest;
  }

  lemma Closes<V>(r: seq<Token<V>>, stack: seq<Kind>, k: Kind)
    requires r != [] && r[0].Close? && Check(r, stack + [k]).Ok?
    ensures r[0] == Close(k) && Check(r[1..], stack).Ok?
  {
    assert (stack + [k])[..|stack|] == stack;
  }

  /** So it accepts exactly the texts whose brackets match and are nested at most ten deep. */
  lemma CheckIff<V>(f: seq<Token<V>>)
    ensures Check(f, []).Ok? <==> exists n :: Matched(f, n) && Levels(n) <= BRACKET_STACK_SIZE
  {
    if Check(f, []).Ok? {
      var n, rest := Unnest(f, []);
      assert TextOf(n) + [] == TextOf(n);
      assert Matched(f, n);
    }
    forall n | Matched(f, n) && Levels(n) <= BRACKET_STACK_SIZE
      ensures Check(f, []).Ok?
    {
      CheckPasses(n, [], []);
      assert f + [] == f;
    }
  }

  // ---- the two stacks ----

  function Reduced<V>(a: Arith<V>, op: Oper, data: seq<V>): Result<seq<V>> {
    var n := |data|;
    if n < 2 then Err(NoMem)
    else if op == Mod then Err(Invalid)
    else Ok(data[..n - 2] + [a.apply(op, data[n - 2], data[n - 1])])
  }

  datatype Stacks<V> = Stacks(data: seq<V>, ops: seq<Oper>)

  /** Apply every waiting operator that binds at least as tightly as priority p. */
  function PopWhile<V>(a: Arith<V>, p: nat, data: seq<V>, ops: seq<Oper>): Result<Stacks<V>>
    decreases |ops|
  {
    if ops == [] || Priority(ops[|ops| - 1]) < p then Ok(Stacks(data, ops))
    else
      match Reduced(a, ops[|ops| - 1], data)
      case Err(e) => Err(e)
      case Ok(d) => PopWhile(a, p, d, ops[..|ops| - 1])
  }

  /** Apply all waiting operators; one value must be left. */
  function Finish<V>(a: Arith<V>, data: seq<V>, ops: seq<Oper>): Result<V> {
    match PopWhile(a, 0, data, ops)
    case Err(e) => Err(e)
    case Ok(s) =>
      if s.data == [] then Err(NoMem)
      else if |s.data| > 1 then Err(Fault)
      else Ok(s.data[0])
  }

  function Initial<V>(a: Arith<V>, f: seq<Token<V>>): seq<V> {
    if f != [] && f[0].Op? && Priority(f[0].o) == 0 then [a.zero] else []
  }

  /** The scanning loop of simple_calculation_base. */
  function Run<V>(a: Arith<V>, c: Room, f: seq<Token<V>>, data: seq<V>, ops: seq<Oper>): Result<V>
    decreases |f|, 0
  {
    if f == [] then Finish(a, data, ops)
    else
      match f[0]
      case Open(k) =>
        (match Scan(f[1..], 1, k)
         case None => Err(Invalid)
         case Some(j) =>
           match Base(a, c, f[1..1 + j])
           case Err(e) => Err(e)
           case Ok(v) => if |data| >= c.data then Err(NoMem) else Run(a, c, f[j + 2..], data + [v], ops))
      case Num(v) => if |data| >= c.data then Err(NoMem) else Run(a, c, f[1..], data + [v], ops)
      case Op(o) =>
        (match PopWhile(a, Priority(o), data, ops)
         case Err(e) => Err(e)
         case Ok(s) => if |s.ops| >= c.ops then Err(NoMem) else Run(a, c, f[1..], s.data, s.ops + [o]))
      case Blank => Run(a, c, f[1..], data, ops)
      case Nul => Finish(a, data, ops)
      case Close(_) => Err(Invalid)
      case Other => Err(Invalid)
  }

  /** simple_calculation_base: a leading sign finds a zero before it. */
  function Base<V>(a: Arith<V>, c: Room, f: seq<Token<V>>): Result<V>
    decreases |f|, 1
  {
    if |Initial(a, f)| > c.data then Err(NoMem) else Run(a, c, f, Initial(a, f), [])
  }

  function Calculate<V>(a: Arith<V>, f: seq<Token<V>>): Result<V> {
    match Check(f, [])
    case Err(e) => Err(e)
    case Ok(_) => Base(a, ROOM, f)
  }

  // ---- the operator stack ----

  /** Priorities rise from the bottom of the operator stack to its top. */
  ghost predicate Rising(ops: seq<Oper>) {
    forall i, j :: 0 <= i < j < |ops| ==> Priority(ops[i]) < Priority(ops[j])
  }

  lemma RisingIsShort(ops: seq<Oper>)
    requires Rising(ops)
    ensures |ops| <= 2
    ensures ops != [] ==> |ops| <= 1 + Priority(ops[|ops| - 1])
  {
    assert |ops| >= 2 ==> Priority(ops[|ops| - 2]) < Priority(ops[|ops| - 1]);
    assert |ops| >= 2 ==> Priority(ops[0]) < Priority(ops[1]);
    if |ops| >= 3 {
      assert false;
    }
  }

  lemma {:induction false} PopKeepsRising<V>(a: Arith<V>, p: nat, data: seq<V>, ops: seq<Oper>)
    requires Rising(ops) && PopWhile(a, p, data, ops).Ok?
    ensures var s := PopWhile(a, p, data, ops).value;
            Rising(s.ops) && s.ops <= ops && (s.ops != [] ==> Priority(s.ops[|s.ops| - 1]) < p)
    decreases |ops|
  {
    if ops != [] && Priority(ops[|ops| - 1]) >= p {
      var d := Reduced(a, ops[|ops| - 1], data).value;
      PopKeepsRising(a, p, d, ops[..|ops| - 1]);
    }
  }

  /** So over the whole scan of any formula, well-formed or not, room for two operators is as good as any more: the
      operator stack never refuses a push. */
  lemma {:induction false} TwoOperatorsAreEnough<V>(
      a: Arith<V>, c: Room, d: Room, f: seq<Token<V>>, data: seq<V>, ops: seq<Oper>)
    requires Rising(ops) && c.data == d.data && c.ops >= 2 && d.ops >= 2
    ensures Run(a, c, f, data, ops) == Run(a, d, f, data, ops)
    decreases |f|
  {
    if f != [] {
      assert f[0..] == f;
      RunToken(a, c, f, 0, data, ops);
      RunToken(a, d, f, 0, data, ops);
      if f[0].Open? {
        var j := Scan(f[1..], 1, f[0].k);
        if j.Some? {
          var inner := f[1..1 + j.value];
          TwoOperatorsAreEnough(a, c, d, inner, Initial(a, inner), []);
        }
      } else if f[0].Op? && PopWhile(a, Priority(f[0].o), data, ops).Ok? {
        PushedRises(a, f[0].o, data, ops);
      }
      hide Run, Base;
      var m := MoveAt(a, c, f, 0, data, ops);
      assert m == MoveAt(a, d, f, 0, data, ops);
      if m.Go? {
        OperatorStackStaysShort(a, c, f, 0, data, ops);
        TwoOperatorsAreEnough(a, c, d, f[m.next..], m.data, m.ops);
      }
    }
  }

  lemma PushedRises<V>(a: Arith<V>, o: Oper, data: seq<V>, ops: seq<Oper>)
    requires Rising(ops) && PopWhile(a, Priority(o), data, ops).Ok?
    ensures var kept := PopWhile(a, Priority(o), data, ops).value.ops;
            Rising(kept + [o]) && |kept| <= 1
  {
    PopKeepsRising(a, Priority(o), data, ops);
    var kept := PopWhile(a, Priority(o), data, ops).value.ops;
    RisingIsShort(kept);
  }

  class Stack<T(0)> {
    const buffer: array<T>
    var top: nat
    ghost var contents: seq<T>

    ghost predicate Valid()
      reads this, buffer
    {
      top <= buffer.Length && contents == buffer[..top]
    }

    constructor (size: nat)
      ensures Valid() && contents == [] && buffer.Length == size && fresh(buffer)
    {
      buffer := new T[size];
      top := 0;
      contents := [];
    }

    method Push(x: T) returns (ok: bool)
      requires Valid()
      modifies this, buffer
      ensures Valid() && ok == (|old(contents)| < buffer.Length)
      ensures contents == if ok then old(contents) + [x] else old(contents)
    {
      if top >= buffer.Length {
        return false;
      }
      buffer[top] := x;
      top := top + 1;
      contents := contents + [x];
      return true;
    }

    method Pop() returns (r: Option<T>)
      requires Valid()
      modifies this
      ensures Valid()
      ensures r == if old(contents) == [] then None else Some(old(contents)[|old(contents)| - 1])
      ensures contents == if old(contents) == [] then [] else old(contents)[..|old(contents)| - 1]
    {
      if top == 0 {
        return None;
      }
      top := top - 1;
      contents := contents[..top];
      return Some(buffer[top]);
    }

    method GetTop() returns (r: Option<T>)
      requires Valid()
      ensures r == if contents == [] then None else Some(contents[|contents| - 1])
    {
      return if top == 0 then None else Some(buffer[top - 1]);
    }
  }

  /** Two stacks that share no memory. */
  ghost predicate Apart<V(0)>(data: Stack<V>, ops: Stack<Oper>)
  {
    && data as object != ops && data.buffer as object != ops.buffer
    && data.buffer as object != data && data.buffer as object != ops
    && ops.buffer as object != data && ops.buffer as object != ops
  }

  method GetBracketPair<V(==)>(f: seq<Token<V>>, at: nat) returns (j: Option<nat>)
    requires at < |f| && f[at].Open?
    ensures j == Scan(f[at + 1..], 1, f[at].k)
  {
    var k := f[at].k;
    var counter, i := 1, at + 1;
    ghost var rest := f[at + 1..];
    assert f[i..] == rest;
    while i < |f|
      invariant at < i <= |f| && counter >= 1
      invariant Scan(rest, 1, k) == match Scan(f[i..], counter, k)
                                    case None => None
                                    case Some(n) => Some(n + (i - at - 1))
    {
      assert f[i..][1..] == f[i + 1..];
      if f[i] == Open(k) {
        counter := counter + 1;
      } else if f[i] == Close(k) {
        if counter <= 1 {
          return Some(i - at - 1);
        }
        counter := counter - 1;
      }
      i := i + 1;
    }
    return None;
  }

  method CheckBracketMatchPair<V>(f: seq<Token<V>>) returns (r: Result<()>)
    ensures r == Check(f, [])
  {
    var stack := new Stack<Kind>(BRACKET_STACK_SIZE);
    assert f[0..] == f;
    for i := 0 to |f|
      invariant stack.Valid() && fresh(stack) && fresh(stack.buffer) && stack.buffer.Length == BRACKET_STACK_SIZE
      invariant Check(f, []) == Check(f[i..], stack.contents)
    {
      assert f[i..][1..] == f[i + 1..];
      if f[i].Open? {
        var ok := stack.Push(f[i].k);
        if !ok {
          return Err(NoMem);
        }
      } else if f[i].Close? {
        var top := stack.Pop();
        if top.None? || top.value != f[i].k {
          return Err(Fault);
        }
      }
    }
    return if stack.top == 0 then Ok(()) else Err(Fault);
  }

  method SimpleOperation2<V(0)>(a: Arith<V>, stack: Stack<V>, op: Oper) returns (r: Result<()>)
    requires stack.Valid() && |stack.contents| <= stack.buffer.Length
    modifies stack, stack.buffer
    ensures stack.Valid()
    ensures var e := Reduced(a, op, old(stack.contents));
            match e
            case Err(x) => r == Err(x)
            case Ok(d) => r == Ok(()) && stack.contents == d
  {
    var operand2 := stack.Pop();
    if operand2.None? {
      return Err(NoMem);
    }
    var operand1 := stack.Pop();
    if operand1.None? {
      return Err(NoMem);
    }
    if op == Mod {
      return Err(Invalid);
    }
    var ok := stack.Push(a.apply(op, operand1.value, operand2.value));
    assert ok;
    return Ok(());
  }

  /** Pop and apply while the top operator binds at least as tightly as p. */
  method ApplyWaiting<V(0)>(a: Arith<V>, p: nat, data: Stack<V>, ops: Stack<Oper>) returns (r: Result<()>)
    requires data.Valid() && ops.Valid() && Apart(data, ops)
    modifies data, data.buffer, ops
    ensures data.Valid() && ops.Valid()
    ensures match PopWhile(a, p, old(data.contents), old(ops.contents))
            case Err(x) => r == Err(x)
            case Ok(s) => r == Ok(()) && data.contents == s.data && ops.contents == s.ops
  {
    ghost var goal := PopWhile(a, p, data.contents, ops.contents);
    var op := ops.GetTop();
    while op.Some? && Priority(op.value) >= p
      invariant data.Valid() && ops.Valid()
      invariant PopWhile(a, p, data.contents, ops.contents) == goal
      invariant op == if ops.contents == [] then None else Some(ops.contents[|ops.contents| - 1])
      decreases ops.top
    {
      r := SimpleOperation2(a, data, op.value);
      if r.Err? {
        return;
      }
      var _ := ops.Pop();
      op := ops.GetTop();
    }
    r := Ok(());
  }

  method SimpleCalculationBase<V(0, ==)>(a: Arith<V>, c: Room, f: seq<Token<V>>) returns (r: Result<V>)
    ensures r == Base(a, c, f)
    decreases |f|
  {
    var ops := new Stack<Oper>(c.ops);
    var data := new Stack<V>(c.data);
    if |f| > 0 && f[0].Op? && Priority(f[0].o) == 0 {
      var ok := data.Push(a.zero);
      if !ok {
        return Err(NoMem);
      }
    }
    assert data.contents == Initial(a, f);
    r := ScanFormula(a, c, f, data, ops);
  }

  method ScanFormula<V(0, ==)>(a: Arith<V>, c: Room, f: seq<Token<V>>, data: Stack<V>, ops: Stack<Oper>)
    returns (r: Result<V>)
    requires data.Valid() && ops.Valid() && Apart(data, ops)
    requires data.buffer.Length == c.data && ops.buffer.Length == c.ops
    modifies data, data.buffer, ops, ops.buffer
    ensures r == Run(a, c, f, old(data.contents), old(ops.contents))
    decreases |f|, 1
  {
    ghost var goal := Run(a, c, f, data.contents, ops.contents);
    var i := 0;
    assert f[0..] == f;
    while i < |f| && f[i] != Nul
      invariant 0 <= i <= |f| && data.Valid() && ops.Valid()
      invariant Run(a, c, f[i..], data.contents, ops.contents) == goal
      decreases |f| - i
    {
      var next: Result<nat>;
      RunToken(a, c, f, i, data.contents, ops.contents);
      if f[i].Open? {
        next := ScanBracket(a, c, f, i, data);
      } else if f[i].Num? {
        next := ScanNumber(f[i].v, i, data);
      } else if f[i].Op? {
        next := ScanOperator(a, f[i].o, i, data, ops);
      } else if f[i].Blank? {
        next := Ok(i + 1);
      } else {
        return Err(Invalid);
      }
      if next.Err? {
        return Err(next.error);
      }
      i := next.value;
    }
    assert Run(a, c, f[i..], data.contents, ops.contents) == Finish(a, data.contents, ops.contents);
    r := FinishFormula(a, data, ops);
  }

  /** Where one token takes the scan: on to another place with other stacks, or to the result. */
  datatype Move<V> = Go(next: nat, data: seq<V>, ops: seq<Oper>) | Stop(r: Result<V>)

  function MoveAt<V>(a: Arith<V>, c: Room, f: seq<Token<V>>, i: nat, data: seq<V>, ops: seq<Oper>): (m: Move<V>)
    requires i < |f|
    ensures m.Go? ==> i < m.next <= |f|
  {
    match f[i]
    case Open(k) =>
      var b := BracketValue(a, c, f, i);
      if b.Err? then Stop(Err(b.error))
      else if |data| >= c.data then Stop(Err(NoMem)) else Go(b.value.1, data + [b.value.0], ops)
    case Num(v) => if |data| >= c.data then Stop(Err(NoMem)) else Go(i + 1, data + [v], ops)
    case Op(o) =>
      var s := PopWhile(a, Priority(o), data, ops);
      if s.Err? then Stop(Err(s.error))
      else if |s.value.ops| >= c.ops then Stop(Err(NoMem)) else Go(i + 1, s.value.data, s.value.ops + [o])
    case Blank => Go(i + 1, data, ops)
    case Nul => Stop(Finish(a, data, ops))
    case Close(_) => Stop(Err(Invalid))
    case Other => Stop(Err(Invalid))
  }

  /** Whatever the formula, one token leaves the priorities on the operator stack rising, so it never holds more than
      two operators. */
  lemma OperatorStackStaysShort<V>(a: Arith<V>, c: Room, f: seq<Token<V>>, i: nat, data: seq<V>, ops: seq<Oper>)
    requires i < |f| && Rising(ops)
    ensures var m := MoveAt(a, c, f, i, data, ops); m.Go? ==> Rising(m.ops) && |m.ops| <= 2
  {
    RisingIsShort(ops);
    if f[i].Op? && PopWhile(a, Priority(f[i].o), data, ops).Ok? {
      PushedRises(a, f[i].o, data, ops);
    }
  }

  lemma RunToken<V>(a: Arith<V>, c: Room, f: seq<Token<V>>, i: nat, data: seq<V>, ops: seq<Oper>)
    requires i < |f|
    ensures var m := MoveAt(a, c, f, i, data, ops);
            Run(a, c, f[i..], data, ops) == if m.Go? then Run(a, c, f[m.next..], m.data, m.ops) else m.r
  {
    hide Base, PopWhile, Finish, Scan;
    var rest := f[i..];
    assert rest[0] == f[i] && rest[1..] == f[i + 1..];
    if f[i].Open? {
      var j := Scan(f[i + 1..], 1, f[i].k);
      if j.Some? {
        assert rest[1..1 + j.value] == f[i + 1..i + 1 + j.value] && rest[j.value + 2..] == f[i + j.value + 2..];
      }
    }
  }

  /** The value of the bracket that opens at i, and where the scan goes on. */
  function BracketValue<V>(a: Arith<V>, c: Room, f: seq<Token<V>>, i: nat): (r: Result<(V, nat)>)
    requires i < |f| && f[i].Open?
    ensures r.Ok? ==> i < r.value.1 <= |f|
  {
    match Scan(f[i + 1..], 1, f[i].k)
    case None => Err(Invalid)
    case Some(j) =>
      match Base(a, c, f[i + 1..i + 1 + j])
      case Err(e) => Err(e)
      case Ok(v) => Ok((v, i + j + 2))
  }

  method ScanBracket<V(0, ==)>(a: Arith<V>, c: Room, f: seq<Token<V>>, i: nat, data: Stack<V>)
    returns (next: Result<nat>)
    requires data.Valid() && data.buffer.Length == c.data && i < |f| && f[i].Open?
    modifies data, data.buffer
    ensures data.Valid()
    ensures var b := BracketValue(a, c, f, i);
            if b.Err? then next == Err(b.error)
            else if |old(data.contents)| >= c.data then next == Err(NoMem)
            else next == Ok(b.value.1) && data.contents == old(data.contents) + [b.value.0]
    decreases |f|, 0
  {
    var j := GetBracketPair(f, i);
    if j.None? {
      return Err(Invalid);
    }
    var inner := SimpleCalculationBase(a, c, f[i + 1..i + 1 + j.value]);
    if inner.Err? {
      return Err(inner.error);
    }
    var ok := data.Push(inner.value);
    return if ok then Ok(i + j.value + 2) else Err(NoMem);
  }

  method ScanNumber<V(0)>(v: V, i: nat, data: Stack<V>) returns (next: Result<nat>)
    requires data.Valid()
    modifies data, data.buffer
    ensures data.Valid()
    ensures if |old(data.contents)| >= data.buffer.Length then next == Err(NoMem)
            else next == Ok(i + 1) && data.contents == old(data.contents) + [v]
  {
    var ok := data.Push(v);
    return if ok then Ok(i + 1) else Err(NoMem);
  }

  method ScanOperator<V(0)>(a: Arith<V>, o: Oper, i: nat, data: Stack<V>, ops: Stack<Oper>) returns (next: Result<nat>)
    requires data.Valid() && ops.Valid() && Apart(data, ops)
    modifies data, data.buffer, ops, ops.buffer
    ensures data.Valid() && ops.Valid()
    ensures var s := PopWhile(a, Priority(o), old(data.contents), old(ops.contents));
            if s.Err? then next == Err(s.error)
            else if |s.value.ops| >= ops.buffer.Length then next == Err(NoMem)
            else next == Ok(i + 1) && data.contents == s.value.data && ops.contents == s.value.ops + [o]
  {
    var waiting := ApplyWaiting(a, Priority(o), data, ops);
    if waiting.Err? {
      return Err(waiting.error);
    }
    var ok := ops.Push(o);
    return if ok then Ok(i + 1) else Err(NoMem);
  }

  method FinishFormula<V(0)>(a: Arith<V>, data: Stack<V>, ops: Stack<Oper>) returns (r: Result<V>)
    requires data.Valid() && ops.Valid() && Apart(data, ops)
    modifies data, data.buffer, ops
    ensures r == Finish(a, old(data.contents), old(ops.contents))
  {
    var waiting := ApplyWaiting(a, 0, data, ops);
    if waiting.Err? {
      return Err(waiting.error);
    }
    var last := data.Pop();
    if last.None? {
      return Err(NoMem);
    }
    return if data.top == 0 then Ok(last.value) else Err(Fault);
  }

  method SimpleCalculation<V(0, ==)>(a: Arith<V>, f: seq<Token<V>>) returns (r: Result<V>)
    ensures r == Calculate(a, f)
  {
    var check := CheckBracketMatchPair(f);
    if check.Err? {
      return Err(check.error);
    }
    r := SimpleCalculationBase(a, ROOM, f);
  }

  // ---- the scan, one step at a time ----

  /** The inside of the bracket that opens a formula, and what follows the bracket. */
  function Split<V>(f: seq<Token<V>>): (p: Option<(seq<Token<V>>, seq<Token<V>>)>)
    requires f != [] && f[0].Open?
    ensures p.Some? ==> |p.value.0| < |f| && |p.value.1| < |f|
  {
    match Scan(f[1..], 1, f[0].k)
    case None => None
    case Some(j) => Some((f[1..1 + j], f[j + 2..]))
  }

  lemma RunSplit<V>(a: Arith<V>, c: Room, f: seq<Token<V>>, data: seq<V>, ops: seq<Oper>)
    requires f != [] && f[0].Open?
    ensures Run(a, c, f, data, ops) ==
            match Split(f)
            case None => Err(Invalid)
            case Some(p) =>
              match Base(a, c, p.0)
              case Err(e) => Err(e)
              case Ok(v) => if |data| >= c.data then Err(NoMem) else Run(a, c, p.1, data + [v], ops)
  {
  }

  /** A token that is no bracket and no blank, alone. */
  lemma RunNext<V>(a: Arith<V>, c: Room, f: seq<Token<V>>, data: seq<V>, ops: seq<Oper>)
    requires f != [] && !f[0].Open? && !f[0].Blank?
    ensures var m := MoveAt(a, c, [f[0]], 0, data, ops);
            Run(a, c, f, data, ops) == if m.Go? then Run(a, c, f[1..], m.data, m.ops) else m.r
  {
    RunToken(a, c, f, 0, data, ops);
    assert f[0..] == f;
  }

  // ---- the operator the simple evaluator does not have ----

  lemma {:induction false} ModStaysOrFails<V>(a: Arith<V>, p: nat, data: seq<V>, ops: seq<Oper>)
    requires Mod in ops
    ensures var s := PopWhile(a, p, data, ops); s.Ok? ==> Mod in s.value.ops && p > 0
    decreases |ops|
  {
    var top := ops[|ops| - 1];
    if Priority(top) >= p && Reduced(a, top, data).Ok? {
      assert ops == ops[..|ops| - 1] + [top];
      ModStaysOrFails(a, p, Reduced(a, top, data).value, ops[..|ops| - 1]);
    }
  }

  lemma ModIsNoMove<V>(a: Arith<V>, c: Room, t: Token<V>, data: seq<V>, ops: seq<Oper>)
    requires !t.Open? && !t.Nul? && (t == Op(Mod) || Mod in ops)
    ensures var m := MoveAt(a, c, [t], 0, data, ops); if m.Go? then Mod in m.ops else m.r.Err?
  {
    if t.Op? && Mod in ops {
      ModStaysOrFails(a, Priority(t.o), data, ops);
    }
  }

  /** A formula with a % anywhere in it has no value, whatever stands around it. */
  lemma {:induction false} ModFails<V>(a: Arith<V>, c: Room, f: seq<Token<V>>, data: seq<V>, ops: seq<Oper>)
    requires Nul !in f && (Op(Mod) in f || Mod in ops)
    ensures Run(a, c, f, data, ops).Err?
    decreases |f|, 0
  {
    if f == [] {
      ModStaysOrFails(a, 0, data, ops);
    } else if f[0].Open? {
      RunSplit(a, c, f, data, ops);
      var p := Split(f);
      if p.Some? {
        InOneOfTwo(f);
        hide Run, Base, Split;
        var (inner, rest) := p.value;
        if Op(Mod) in inner {
          ModHasNoValue(a, c, inner);
        } else if Base(a, c, inner).Ok? {
          ModFails(a, c, rest, data + [Base(a, c, inner).value], ops);
        }
      }
    } else {
      hide Run, MoveAt;
      assert f == [f[0]] + f[1..];
      if f[0].Blank? {
        RunBlank(a, c, f, data, ops);
        ModFails(a, c, f[1..], data, ops);
      } else {
        RunNext(a, c, f, data, ops);
        if f[0] == Op(Mod) || Mod in ops { ModIsNoMove(a, c, f[0], data, ops); }
        var m := MoveAt(a, c, [f[0]], 0, data, ops);
        if m.Go? {
          ModFails(a, c, f[1..], m.data, m.ops);
        }
      }
    }
  }

  lemma RunBlank<V>(a: Arith<V>, c: Room, f: seq<Token<V>>, data: seq<V>, ops: seq<Oper>)
    requires f != [] && f[0].Blank?
    ensures Run(a, c, f, data, ops) == Run(a, c, f[1..], data, ops)
  {
  }

  lemma InOneOfTwo<V>(f: seq<Token<V>>)
    requires f != [] && f[0].Open? && Split(f).Some?
    ensures var p := Split(f).value;
            && (Op(Mod) in f ==> Op(Mod) in p.0 || Op(Mod) in p.1)
            && (Nul !in f ==> Nul !in p.0 && Nul !in p.1)
  {
    var j := Scan(f[1..], 1, f[0].k).value;
    ScanFindsClose(f[1..], 1, f[0].k);
    assert f == [f[0]] + f[1..1 + j] + [f[1 + j]] + f[j + 2..];
  }

  lemma {:induction false} ScanFindsClose<V>(f: seq<Token<V>>, counter: nat, k: Kind)
    requires counter >= 1 && Scan(f, counter, k).Some?
    ensures f[Scan(f, counter, k).value] == Close(k)
  {
    if !(f[0] == Close(k) && counter == 1) {
      var n := if f[0] == Open(k) then counter + 1 else if f[0] == Close(k) then counter - 1 else counter;
      ScanFindsClose(f[1..], n, k);
    }
  }

  lemma {:induction false} ModHasNoValue<V>(a: Arith<V>, c: Room, f: seq<Token<V>>)
    requires Nul !in f && Op(Mod) in f
    ensures Base(a, c, f).Err?
    decreases |f|, 1
  {
    ModFails(a, c, f, Initial(a, f), []);
  }

  // ---- expressions ----

  /** Absent is the missing operand before a leading sign. */
  datatype Expr<V> =
    | Const(v: V)
    | Absent
    | Paren(k: Kind, e: Expr<V>)
    | Bin(op: Oper, l: Expr<V>, r: Expr<V>)

  function Level<V>(e: Expr<V>): nat { if e.Bin? then Priority(e.op) else 2 }

  /** Does the text of e start with a sign? */
  predicate Signed<V>(e: Expr<V>) { e.Absent? || (e.Bin? && Signed(e.l)) }

  /** The parse trees of the left-associative grammar: * and / bind tighter than + and -, the right operand of an
      operator binds strictly tighter, and only + or - may lack the left operand, at the start of the text. */
  predicate WellFormed<V>(e: Expr<V>) {
    match e
    case Const(_) => true
    case Absent => false
    case Paren(_, x) => WellFormed(x)
    case Bin(op, l, r) =>
      && op != Mod
      && WellFormed(r) && !Signed(r) && Level(r) > Priority(op)
      && ((l.Absent? && Priority(op) == 0) || (WellFormed(l) && Level(l) >= Priority(op)))
  }

  function Text<V>(e: Expr<V>): seq<Token<V>> {
    match e
    case Const(v) => [Num(v)]
    case Absent => []
    case Paren(k, x) => [Open(k)] + Text(x) + [Close(k)]
    case Bin(op, l, r) => Text(l) + [Op(op)] + Text(r)
  }

  function Eval<V>(a: Arith<V>, e: Expr<V>): V {
    match e
    case Const(v) => v
    case Absent => a.zero
    case Paren(_, x) => Eval(a, x)
    case Bin(op, l, r) => a.apply(op, Eval(a, l), Eval(a, r))
  }

  function Nesting<V>(e: Expr<V>): nat {
    match e
    case Const(_) => 0
    case Absent => 0
    case Paren(_, x) => 1 + Nesting(x)
    case Bin(_, l, r) => if Nesting(l) >= Nesting(r) then Nesting(l) else Nesting(r)
  }

  function Shift(j: Option<nat>, n: nat): Option<nat> { if j.None? then None else Some(n + j.value) }

  lemma ParenText<V>(k: Kind, x: Expr<V>, rest: seq<Token<V>>)
    ensures Text(Paren(k, x)) + rest == [Open(k)] + (Text(x) + ([Close(k)] + rest))
    ensures |Text(Paren(k, x))| == |Text(x)| + 2
  {
  }

  lemma BinText<V>(op: Oper, l: Expr<V>, r: Expr<V>, rest: seq<Token<V>>)
    ensures Text(Bin(op, l, r)) + rest == Text(l) + ([Op(op)] + (Text(r) + rest))
    ensures |Text(Bin(op, l, r))| == |Text(l)| + 1 + |Text(r)|
  {
  }

  lemma ScanStep<V>(t: Token<V>, rest: seq<Token<V>>, counter: nat, k: Kind)
    requires t == Close(k) ==> counter > 1
    ensures var n := if t == Open(k) then counter + 1 else if t == Close(k) then counter - 1 else counter;
            Scan([t] + rest, counter, k) == Shift(Scan(rest, n, k), 1)
  {
    assert ([t] + rest)[1..] == rest;
  }

  lemma {:induction false} ScanSkipsText<V>(e: Expr<V>, rest: seq<Token<V>>, counter: nat, k: Kind)
    requires counter >= 1
    ensures Scan(Text(e) + rest, counter, k) == Shift(Scan(rest, counter, k), |Text(e)|)
    decreases e
  {
    hide Scan;
    match e
    case Const(v) => ScanStep(Num(v), rest, counter, k);
    case Absent => assert Text(e) + rest == rest;
    case Paren(kind, x) =>
      hide Text;
      ParenText(kind, x, rest);
      ScanSkipsText(x, [Close(kind)] + rest, if kind == k then counter + 1 else counter, k);
      ScanAround(kind, Text(x), rest, counter, k);
    case Bin(op, l, r) =>
      hide Text;
      BinText(op, l, r, rest);
      ScanSkipsText(l, [Op(op)] + (Text(r) + rest), counter, k);
      ScanSkipsText(r, rest, counter, k);
      ScanBetween(op, Text(r) + rest, counter, k);
  }

  lemma ScanAround<V>(kind: Kind, text: seq<Token<V>>, rest: seq<Token<V>>, counter: nat, k: Kind)
    requires counter >= 1
    requires var c := if kind == k then counter + 1 else counter;
             Scan(text + ([Close(kind)] + rest), c, k) == Shift(Scan([Close(kind)] + rest, c, k), |text|)
    ensures Scan([Open(kind)] + (text + ([Close(kind)] + rest)), counter, k) ==
            Shift(Scan(rest, counter, k), |text| + 2)
  {
    hide Scan;
    ScanStep(Open(kind), text + ([Close(kind)] + rest), counter, k);
    ScanStep(Close(kind), rest, if kind == k then counter + 1 else counter, k);
  }

  lemma ScanBetween<V>(op: Oper, rest: seq<Token<V>>, counter: nat, k: Kind)
    ensures Scan([Op(op)] + rest, counter, k) == Shift(Scan(rest, counter, k), 1)
  {
    ScanStep(Op(op), rest, counter, k);
  }

  /** What may follow e: nothing, or an operator that does not bind tighter. */
  predicate Follows<V>(rest: seq<Token<V>>, level: nat) {
    rest == [] || (rest[0].Op? && Priority(rest[0].o) <= level)
  }

  /** The operand stack as the scan of e finds it: the zero for a missing left operand is already there. */
  function Before<V>(a: Arith<V>, e: Expr<V>, data: seq<V>): seq<V> {
    if Signed(e) then data + [a.zero] else data
  }

  /** An operator that is about to be applied may as well be applied now. */
  lemma ApplyNow<V>(a: Arith<V>, c: Room, op: Oper, rest: seq<Token<V>>, data: seq<V>, x: V, y: V, ops: seq<Oper>)
    requires op != Mod && Follows(rest, Priority(op)) && Rising(ops + [op])
    ensures Run(a, c, rest, data + [x, y], ops + [op]) == Run(a, c, rest, data + [a.apply(op, x, y)], ops)
  {
    var d := data + [x, y];
    assert d[..|d| - 2] == data;
    assert (ops + [op])[..|ops|] == ops;
    assert Reduced(a, op, d) == Ok(data + [a.apply(op, x, y)]);
    forall p: nat | p <= Priority(op)
      ensures PopWhile(a, p, d, ops + [op]) == PopWhile(a, p, data + [a.apply(op, x, y)], ops)
    {
    }
  }

  ghost predicate Below(ops: seq<Oper>, level: nat) {
    Rising(ops) && forall i :: 0 <= i < |ops| ==> Priority(ops[i]) < level
  }

  /** Room for three operands and two operators. */
  predicate Enough(c: Room) { c.data >= 3 && c.ops >= 2 }

  /** Scanning the text of e amounts to pushing its value. An operand is only ever scanned with as many operands as
      operators waiting, at most two of each, so three operands and two operators are all there need be room for. */
  lemma {:induction false} RunText<V>(
      a: Arith<V>, c: Room, e: Expr<V>, rest: seq<Token<V>>, data: seq<V>, ops: seq<Oper>)
    requires WellFormed(e) && Follows(rest, Level(e)) && Below(ops, Level(e)) && |data| == |ops| <= 2
    requires Enough(c)
    ensures Run(a, c, Text(e) + rest, Before(a, e, data), ops) == Run(a, c, rest, data + [Eval(a, e)], ops)
    decreases e, 0
  {
    match e
    case Const(v) => assert (Text(e) + rest)[1..] == rest;
    case Paren(k, x) => RunParen(a, c, k, x, rest, data, ops);
    case Bin(op, l, r) =>
      var vl := Eval(a, l);
      RunLeft(a, c, e, rest, data, ops);
      RunOperator(a, c, op, Text(r) + rest, data + [vl], ops);
      PushedBelow(ops, op, Level(r));
      RunText(a, c, r, rest, data + [vl], ops + [op]);
      assert data + [vl] + [Eval(a, r)] == data + [vl, Eval(a, r)];
      ApplyNow(a, c, op, rest, data, vl, Eval(a, r), ops);
  }

  /** The left operand of a binary expression, present or not. */
  lemma {:induction false} RunLeft<V>(
      a: Arith<V>, c: Room, e: Expr<V>, rest: seq<Token<V>>, data: seq<V>, ops: seq<Oper>)
    requires e.Bin? && WellFormed(e) && Below(ops, Level(e)) && |data| == |ops| <= 2
    requires Enough(c)
    ensures Run(a, c, Text(e) + rest, Before(a, e, data), ops) ==
            Run(a, c, [Op(e.op)] + (Text(e.r) + rest), data + [Eval(a, e.l)], ops)
    decreases e.l, 3
  {
    hide Run;
    var tail := [Op(e.op)] + (Text(e.r) + rest);
    assert e == Bin(e.op, e.l, e.r);
    BinText(e.op, e.l, e.r, rest);
    if e.l.Absent? {
      assert Signed(e.l) && Eval(a, e.l) == a.zero && Text(e.l) + tail == tail;
    } else {
      RunText(a, c, e.l, tail, data, ops);
    }
  }

  lemma RunOperator<V>(a: Arith<V>, c: Room, op: Oper, rest: seq<Token<V>>, data: seq<V>, ops: seq<Oper>)
    requires Below(ops, Priority(op)) && Enough(c)
    ensures Run(a, c, [Op(op)] + rest, data, ops) == Run(a, c, rest, data, ops + [op])
  {
    RisingIsShort(ops + [op]);
    assert ([Op(op)] + rest)[1..] == rest;
  }

  lemma PushedBelow(ops: seq<Oper>, op: Oper, level: nat)
    requires Below(ops, Priority(op)) && Priority(op) < level
    ensures Below(ops + [op], level) && |ops + [op]| <= 2
  {
    RisingIsShort(ops + [op]);
  }

  lemma {:induction false} RunParen<V>(
      a: Arith<V>, c: Room, k: Kind, x: Expr<V>, rest: seq<Token<V>>, data: seq<V>, ops: seq<Oper>)
    requires WellFormed(x) && |data| == |ops| <= 2
    requires Enough(c)
    ensures Run(a, c, Text(Paren(k, x)) + rest, data, ops) == Run(a, c, rest, data + [Eval(a, x)], ops)
    decreases x, 2
  {
    hide Run, Text, Scan;
    ParenText(k, x, rest);
    ScanSkipsText(x, [Close(k)] + rest, 1, k);
    BaseOfText(a, c, x);
    RunBracket(a, c, k, Text(x), rest, data, ops, Eval(a, x));
  }

  lemma RunBracketAt<V>(a: Arith<V>, c: Room, k: Kind, inner: seq<Token<V>>, rest: seq<Token<V>>, v: V)
    requires Scan(inner + ([Close(k)] + rest), 1, k) == Shift(Scan([Close(k)] + rest, 1, k), |inner|)
    requires Base(a, c, inner) == Ok(v)
    ensures var s := [Open(k)] + (inner + ([Close(k)] + rest));
            && BracketValue(a, c, s, 0) == Ok((v, |inner| + 2))
            && s[0..] == s && s[|inner| + 2..] == rest
  {
    var tail := [Close(k)] + rest;
    assert Scan(tail, 1, k) == Some(0);
    hide Run, Base, Scan, Initial;
    var s := [Open(k)] + (inner + tail);
    assert s[1..] == inner + tail;
    assert s[1..1 + |inner|] == inner;
  }

  lemma RunBracket<V>(
      a: Arith<V>, c: Room, k: Kind, inner: seq<Token<V>>, rest: seq<Token<V>>, data: seq<V>, ops: seq<Oper>, v: V)
    requires Scan(inner + ([Close(k)] + rest), 1, k) == Shift(Scan([Close(k)] + rest, 1, k), |inner|)
    requires Base(a, c, inner) == Ok(v) && |data| < c.data
    ensures Run(a, c, [Open(k)] + (inner + ([Close(k)] + rest)), data, ops) == Run(a, c, rest, data + [v], ops)
  {
    var s := [Open(k)] + (inner + ([Close(k)] + rest));
    RunBracketAt(a, c, k, inner, rest, v);
    hide Run, Base, Scan, Finish, Initial, BracketValue;
    assert MoveAt(a, c, s, 0, data, ops) == Go(|inner| + 2, data + [v], ops);
    hide MoveAt;
    RunToken(a, c, s, 0, data, ops);
  }

  lemma {:induction false} BaseOfText<V>(a: Arith<V>, c: Room, x: Expr<V>)
    requires WellFormed(x) && Enough(c)
    ensures Base(a, c, Text(x)) == Ok(Eval(a, x))
    decreases x, 1
  {
    SignIsFirst(x);
    assert Text(x) + [] == Text(x);
    RunText(a, c, x, [], [], []);
    assert Initial(a, Text(x)) == Before(a, x, []);
    assert [] + [Eval(a, x)] == [Eval(a, x)];
  }

  /** One sum with a product at its right needs that much, so no smaller room serves all expressions. */
  lemma EnoughIff<V>(a: Arith<V>, c: Room)
    ensures (forall e: Expr<V> :: WellFormed(e) ==> Base(a, c, Text(e)) == Ok(Eval(a, e))) <==> Enough(c)
  {
    var v := Const(a.zero);
    var product := Bin(Mul, v, v);
    var e := Bin(Add, v, product);
    BinIsWellFormed(Mul, v, v);
    BinIsWellFormed(Add, v, product);
    if Enough(c) {
      forall e: Expr<V> | WellFormed(e)
        ensures Base(a, c, Text(e)) == Ok(Eval(a, e))
      {
        BaseOfText(a, c, e);
      }
    } else {
      NeedsRoom(a, c);
      assert Base(a, c, Text(e)) != Ok(Eval(a, e));
    }
  }

  lemma BinIsWellFormed<V>(op: Oper, l: Expr<V>, r: Expr<V>)
    requires op != Mod && WellFormed(l) && WellFormed(r) && !Signed(l) && !Signed(r)
    requires Level(l) >= Priority(op) && Level(r) > Priority(op)
    ensures WellFormed(Bin(op, l, r)) && !Signed(Bin(op, l, r))
  {
  }

  lemma NeedsRoom<V>(a: Arith<V>, c: Room)
    requires !Enough(c)
    ensures var v := Const(a.zero); Base(a, c, Text(Bin(Add, v, Bin(Mul, v, v)))) == Err(NoMem)
  {
    var n, z := Num(a.zero), a.zero;
    var v := Const(z);
    var f := [n, Op(Add), n, Op(Mul), n];
    assert Text(Bin(Mul, v, v)) == [n, Op(Mul), n];
    assert Text(Bin(Add, v, Bin(Mul, v, v))) == f;
    assert f[0..] == f;
    RunToken(a, c, f, 0, [], []);
    RunToken(a, c, f, 1, [z], []);
    RunToken(a, c, f, 2, [z], [Add]);
    RunToken(a, c, f, 3, [z, z], [Add]);
    RunToken(a, c, f, 4, [z, z], [Add, Mul]);
    hide Run;
    assert [] + [z] == [z] && [z] + [z] == [z, z] && [] + [Add] == [Add] && [Add] + [Mul] == [Add, Mul];
  }

  lemma {:induction false} SignIsFirst<V>(e: Expr<V>)
    requires WellFormed(e)
    ensures Text(e) != [] && (Signed(e) <==> Text(e)[0].Op?)
    ensures Signed(e) ==> Priority(Text(e)[0].o) == 0
  {
    if e.Bin? {
      if e.l.Absent? {
        assert Text(e)[0] == Op(e.op);
      } else {
        SignIsFirst(e.l);
        assert Text(e)[0] == Text(e.l)[0];
      }
    }
  }

  /** The bracket check counts nesting, and nothing else about a well-formed text. */
  lemma {:induction false} CheckOfText<V>(e: Expr<V>, rest: seq<Token<V>>, stack: seq<Kind>)
    requires |stack| <= BRACKET_STACK_SIZE
    ensures Check(Text(e) + rest, stack) ==
            if |stack| + Nesting(e) <= BRACKET_STACK_SIZE then Check(rest, stack) else Err(NoMem)
    decreases e
  {
    match e
    case Const(_) => assert (Text(e) + rest)[1..] == rest;
    case Absent => assert Text(e) + rest == rest;
    case Paren(k, x) =>
      hide Text;
      ParenText(k, x, rest);
      var tail := [Close(k)] + rest;
      var s := [Open(k)] + (Text(x) + tail);
      assert s[0] == Open(k) && s[1..] == Text(x) + tail;
      if |stack| < BRACKET_STACK_SIZE {
        CheckOfText(x, tail, stack + [k]);
        assert (stack + [k])[..|stack|] == stack && tail[1..] == rest;
      }
    case Bin(op, l, r) =>
      hide Text;
      BinText(op, l, r, rest);
      var tail := [Op(op)] + (Text(r) + rest);
      assert tail[1..] == Text(r) + rest;
      CheckOfText(l, tail, stack);
      CheckOfText(r, rest, stack);
  }

  /** The calculator gives every well-formed expression its left-associative value, if and only if brackets are nested
      at most ten deep; deeper ones are refused by the bracket check. */
  lemma CalculateIsEval<V>(a: Arith<V>, e: Expr<V>)
    requires WellFormed(e)
    ensures Calculate(a, Text(e)) == if Nesting(e) <= BRACKET_STACK_SIZE then Ok(Eval(a, e)) else Err(NoMem)
  {
    BaseOfText(a, ROOM, e);
    CheckOfText(e, [], []);
    assert Text(e) + [] == Text(e);
  }
}
