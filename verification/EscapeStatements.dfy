/**
 Whole statements of tokens and escapes: what becomes of them, which numbers their markers get and
 when the parentheses of a function call balance.
 */
module EscapeStatements {
  import opened CBytes
  import opened Multibyte
  import opened QuotedNames
  import opened Lexer
  import opened Escapes
  import opened StatementTokens
  import opened FunctionEscapes

  /** The start of a statement. */
  const START := Ctx(0, 0, false, true)

  lemma {:induction false} ElementsRun(env: Env, qp: QP, qb: QB, c: Ctx, ps: Params, elems: seq<Element>)
    requires Stands(env, qp, qb, c, Marks(elems)) && Spans(env, qp.opos, c, elems, |env.stmt|)
    ensures var r := Loop(env, qp, qb, ps, true);
            r.ParamOk? && r.nqb.out == qb.out + Emit(elems, c) && r.nqb.paramNumber == qb.paramNumber + Marks(elems)
    decreases elems
  {
    hide *;
    if elems == [] {
      AtTheEnd(env, qp, qb, c, ps);
    } else {
      var q, b := ElementTurn(env, qp, qb, c, ps, elems, |env.stmt|, true);
      var next := After(elems[0], c);
      ElementsRun(env, q, b, next, Delimited(ps, elems[0], |b.out|), elems[1..]);
      EmitHead(elems, c);
      Associative(qb.out, Output(elems[0], c), Emit(elems[1..], next));
    }
  }

  lemma EmitHead(elems: seq<Element>, c: Ctx)
    requires elems != []
    ensures Emit(elems, c) == Output(elems[0], c) + Emit(elems[1..], After(elems[0], c))
  {
  }

  lemma AtTheEnd(env: Env, qp: QP, qb: QB, c: Ctx, ps: Params)
    requires Spans(env, qp.opos, c, [], |env.stmt|)
    ensures Loop(env, qp, qb, ps, true) == ParamOk(qp, qb, ps) && qb.out == qb.out + Emit([], c) && Marks([]) == 0
  {
  }

  /** For every ASCII statement of tokens and escapes, to any depth, with at most 32767 markers, the
      output is the translation of its pieces. */
  lemma StatementTranslated(env: Env, elems: seq<Element>)
    requires IsAsciiText(env.stmt) && Spans(env, 0, START, elems, |env.stmt|) && Marks(elems) <= 32767
    ensures var r := Process(env, Start(env), Fresh(0));
            r.Ok? && r.qb.out == Emit(elems, START) && r.qb.paramNumber == Marks(elems) - 1
  {
    hide Loop, Process, Spans, Emit, Marks;
    LoopIsProcess(env, Start(env), Fresh(0), NO_PARAMS);
    ElementsRun(env, Start(env), Fresh(0), START, NO_PARAMS, elems);
    assert [] + Emit(elems, START) == Emit(elems, START);
  }

  // ---------------------------------------------------------------- marker numbers

  function NumberAfter(e: Element, k: nat): nat { if e.Tok? then Number(k, e.token) else k }

  function LastNumber(elems: seq<Element>, k: nat): nat {
    if elems == [] then k else LastNumber(elems[1..], NumberAfter(elems[0], k))
  }

  /** The numbers that are assigned to the markers, in the order of the statement, before the expressions
      of the function table are applied (these may drop an argument or use it twice). */
  function NumbersOf(e: Element, k: nat): seq<nat>
    decreases e, 0
  {
    match e
    case Tok(token) => if token == Param then [k + 1] else []
    case FnCall(_, _, args, _, _) => ArgNumbers(args, k)
    case _ => []
  }

  function Numbers(elems: seq<Element>, k: nat): seq<nat>
    decreases elems, 0
  {
    if elems == [] then [] else NumbersOf(elems[0], k) + Numbers(elems[1..], NumberAfter(elems[0], k))
  }

  function ArgNumbers(args: seq<Argument>, k: nat): seq<nat>
    decreases args, 0
  {
    if args == [] then [] else Numbers(args[0].elems, k) + ArgNumbers(args[1..], LastNumber(args[0].elems, k))
  }

  predicate Distinct(s: seq<nat>) { forall i, j :: 0 <= i < j < |s| ==> s[i] != s[j] }

  /** No semicolon stands among the elements, at any depth. */
  predicate OneCommand(elems: seq<Element>)
    decreases elems, 0
  {
    elems != [] ==> elems[0] != Tok(Copied([SEMICOLON])) && OneCommandIn(elems[0]) && OneCommand(elems[1..])
  }

  predicate OneCommandIn(e: Element)
    decreases e, 0
  {
    e.FnCall? ==> OneCommandArgs(e.args)
  }

  predicate OneCommandArgs(args: seq<Argument>)
    decreases args, 0
  {
    args != [] ==> OneCommand(args[0].elems) && OneCommandArgs(args[1..])
  }

  /** No function call among the elements, at any depth, holds a marker and is followed by another
      marker; `after` markers come behind the elements. */
  predicate Apart(elems: seq<Element>, after: nat)
    decreases elems, 0
  {
    elems != [] ==>
      && (elems[0].FnCall? && MarksOf(elems[0]) > 0 ==> Marks(elems[1..]) + after == 0)
      && ApartIn(elems[0]) && Apart(elems[1..], after)
  }

  predicate ApartIn(e: Element)
    decreases e, 0
  {
    e.FnCall? ==> ApartArgs(e.args)
  }

  predicate ApartArgs(args: seq<Argument>)
    decreases args, 0
  {
    args != [] ==> Apart(args[0].elems, AllMarks(args[1..])) && ApartArgs(args[1..])
  }

  function From(k: nat, n: nat): (s: seq<nat>)
    ensures |s| == n
  {
    seq(n, i => k + 1 + i)
  }

  lemma FromParts(k: nat, m: nat, n: nat)
    ensures From(k, m) + From(k + m, n) == From(k, m + n)
  {
  }

  /** The first element and the others. */
  lemma HeadOf(elems: seq<Element>, k: nat)
    requires elems != [] && OneCommand(elems)
    ensures var e, next := elems[0], NumberAfter(elems[0], k);
            && OneCommandIn(e) && OneCommand(elems[1..])
            && Numbers(elems, k) == NumbersOf(e, k) + Numbers(elems[1..], next)
            && Marks(elems) == MarksOf(e) + Marks(elems[1..]) && LastNumber(elems, k) == LastNumber(elems[1..], next)
            && (e == Tok(Param) ==> MarksOf(e) == 1) && next == if e == Tok(Param) then k + 1 else k
  {
  }

  lemma ApartHead(elems: seq<Element>, after: nat)
    requires elems != []
    ensures var e, more := elems[0], elems[1..];
            Apart(elems, after) <==>
              ApartIn(e) && Apart(more, after) && !(e.FnCall? && MarksOf(e) > 0 && Marks(more) + after > 0)
  {
    hide ApartIn, Marks, MarksOf;
  }

  lemma {:induction false} ApartInCounts(e: Element, k: nat)
    requires OneCommandIn(e) && ApartIn(e)
    ensures NumbersOf(e, k) == From(k, MarksOf(e))
    decreases e, 2
  {
    hide ArgNumbers, AllMarks;
    if e.FnCall? {
      ApartArgsCount(e.args, k);
    }
  }

  /** Counting goes on as it should. */
  lemma {:induction false} ApartCounts(elems: seq<Element>, k: nat, after: nat)
    requires OneCommand(elems) && Apart(elems, after)
    ensures Numbers(elems, k) == From(k, Marks(elems))
    ensures Marks(elems) == 0 || after > 0 ==> LastNumber(elems, k) == k + Marks(elems)
    decreases elems, 1
  {
    if elems != [] {
      var e, more := elems[0], elems[1..];
      hide *;
      HeadOf(elems, k);
      ApartHead(elems, after);
      ApartCounts(more, NumberAfter(e, k), after);
      ApartInCounts(e, k);
      FirstOf(e, k);
      FromParts(k, MarksOf(e), Marks(more));
      NothingFrom(k, NumberAfter(e, k));
    }
  }

  lemma NothingFrom(k: nat, j: nat)
    ensures From(k, 0) == From(j, 0) == []
  {
  }

  lemma {:induction false} ApartArgsCount(args: seq<Argument>, k: nat)
    requires OneCommandArgs(args) && ApartArgs(args)
    ensures ArgNumbers(args, k) == From(k, AllMarks(args))
    decreases args, 1
  {
    if args != [] {
      var a, more := args[0].elems, args[1..];
      ApartCounts(a, k, AllMarks(more));
      ApartArgsCount(more, LastNumber(a, k));
      FromParts(k, Marks(a), AllMarks(more));
    }
  }

  lemma {:induction false} FirstOf(e: Element, k: nat)
    requires OneCommandIn(e)
    ensures MarksOf(e) > 0 ==> NumbersOf(e, k) != [] && NumbersOf(e, k)[0] == k + 1
    ensures MarksOf(e) == 0 ==> NumbersOf(e, k) == [] && e != Tok(Param)
    ensures e.FnCall? || e == Tok(Param) || MarksOf(e) == 0
    decreases e, 2
  {
    hide Numbers, Marks, OneCommand;
    if e.FnCall? {
      FirstArgNumber(e.args, k);
    }
  }

  /** The first marker gets the next number; without markers none is used up. */
  lemma {:induction false} FirstNumber(elems: seq<Element>, k: nat)
    requires OneCommand(elems)
    ensures Marks(elems) > 0 ==> Numbers(elems, k) != [] && Numbers(elems, k)[0] == k + 1
    ensures Marks(elems) == 0 ==> Numbers(elems, k) == [] && LastNumber(elems, k) == k
    decreases elems, 1
  {
    if elems != [] {
      hide *;
      HeadOf(elems, k);
      FirstNumber(elems[1..], NumberAfter(elems[0], k));
      FirstOf(elems[0], k);
    }
  }

  lemma {:induction false} FirstArgNumber(args: seq<Argument>, k: nat)
    requires OneCommandArgs(args)
    ensures AllMarks(args) > 0 ==> ArgNumbers(args, k) != [] && ArgNumbers(args, k)[0] == k + 1
    ensures AllMarks(args) == 0 ==> ArgNumbers(args, k) == []
    decreases args, 1
  {
    if args != [] {
      FirstNumber(args[0].elems, k);
      FirstArgNumber(args[1..], LastNumber(args[0].elems, k));
    }
  }

  lemma Twice(a: seq<nat>, b: seq<nat>, n: nat)
    ensures n in a && n in b ==> !Distinct(a + b)
    ensures !Distinct(a) || !Distinct(b) ==> !Distinct(a + b)
    ensures n in a || n in b ==> n in a + b
  {
    if n in a && n in b {
      var i :| 0 <= i < |a| && a[i] == n;
      var j :| 0 <= j < |b| && b[j] == n;
      assert (a + b)[i] == (a + b)[|a| + j];
    }
    if !Distinct(a) {
      var i, j :| 0 <= i < j < |a| && a[i] == a[j];
      assert (a + b)[i] == (a + b)[j];
    }
    if !Distinct(b) {
      var i, j :| 0 <= i < j < |b| && b[i] == b[j];
      assert (a + b)[|a| + i] == (a + b)[|a| + j];
    }
  }

  lemma {:induction false} NotApartIn(e: Element, k: nat)
    requires OneCommandIn(e) && !ApartIn(e)
    ensures !Distinct(NumbersOf(e, k))
    decreases e, 2
  {
    hide ArgNumbers, Distinct;
    NotApartArgsRepeat(e.args, k);
  }

  /** Otherwise a number occurs twice, or the next marker behind gets one again. */
  lemma {:induction false} NotApartRepeats(elems: seq<Element>, k: nat, after: nat)
    requires OneCommand(elems) && !Apart(elems, after)
    ensures !Distinct(Numbers(elems, k)) || (after > 0 && LastNumber(elems, k) + 1 in Numbers(elems, k))
    decreases elems, 1
  {
    assert elems != [];
    hide *;
    ApartHead(elems, after);
    var e, more := elems[0], elems[1..];
    HeadOf(elems, k);
    var next := NumberAfter(e, k);
    var own, rest := NumbersOf(e, k), Numbers(more, next);
    FirstNumber(more, next);
    if !ApartIn(e) {
      NotApartIn(e, k);
      Twice(own, rest, 0);
    } else if !Apart(more, after) {
      NotApartRepeats(more, next, after);
      Twice(own, rest, LastNumber(elems, k) + 1);
    } else {
      FirstOf(e, k);
      AgainHere(own, rest, k + 1);
    }
  }

  lemma AgainHere(own: seq<nat>, rest: seq<nat>, n: nat)
    requires own != [] && own[0] == n && (rest != [] ==> rest[0] == n)
    ensures n in own + rest && (rest != [] ==> !Distinct(own + rest))
  {
    Twice(own, rest, n);
  }

  lemma {:induction false} NotApartArgsRepeat(args: seq<Argument>, k: nat)
    requires OneCommandArgs(args) && !ApartArgs(args)
    ensures !Distinct(ArgNumbers(args, k))
    decreases args, 1
  {
    var a, more := args[0].elems, args[1..];
    var last := LastNumber(a, k);
    var own, rest := Numbers(a, k), ArgNumbers(more, last);
    Twice(own, rest, last + 1);
    FirstArgNumber(more, last);
    if !ApartArgs(more) {
      NotApartArgsRepeat(more, last);
    } else {
      NotApartRepeats(a, k, AllMarks(more));
      if AllMarks(more) > 0 {
        assert rest[0] == last + 1;
      }
    }
  }

  /** In a command the markers get different numbers if and only if no function call that holds a marker
      is followed by another marker; they are then numbered one after the other. */
  lemma MarkerNumbers(elems: seq<Element>, k: nat)
    requires OneCommand(elems)
    ensures Distinct(Numbers(elems, k)) <==> Apart(elems, 0)
    ensures Apart(elems, 0) ==> Numbers(elems, k) == From(k, Marks(elems))
  {
    if Apart(elems, 0) {
      ApartCounts(elems, k, 0);
    } else {
      NotApartRepeats(elems, k, 0);
    }
  }

  // ---------------------------------------------------------------- writing numbers

  /** What an element becomes when its markers get the given numbers, one after the other. */
  function WriteOf(e: Element, c: Ctx, ns: seq<nat>): seq<byte>
    decreases e, 0
  {
    match e
    case Tok(token) => if token != Param then Written(token, 0) else if ns == [] then [] else [DOLLAR] + Decimal(ns[0])
    case FnCall(_, name, args, trail, _) =>
      (match Meaning(name, WriteArgs(args, Nonempty(c), ns), Closing(trail, ArgsCtx(args, Nonempty(c))))
       case Text(text) => text
       case Failed(_) => [])
    case _ => Output(e, c)
  }

  function WriteAll(elems: seq<Element>, c: Ctx, ns: seq<nat>): seq<byte>
    decreases elems, 0
  {
    if elems == [] then []
    else
      var m := Upto(MarksOf(elems[0]), ns);
      WriteOf(elems[0], c, ns[..m]) + WriteAll(elems[1..], After(elems[0], c), ns[m..])
  }

  function WriteArgs(args: seq<Argument>, c: Ctx, ns: seq<nat>): (t: seq<seq<byte>>)
    ensures |t| == |args|
    decreases args, 0
  {
    if args == [] then []
    else
      var m := Upto(Marks(args[0].elems), ns);
      [WriteAll(args[0].elems, c, ns[..m])] + WriteArgs(args[1..], Nonempty(Last(args[0].elems, c)), ns[m..])
  }

  function Upto(n: nat, ns: seq<nat>): (m: nat)
    ensures m <= |ns|
  {
    if n <= |ns| then n else |ns|
  }

  lemma {:induction false} CountNumbers(elems: seq<Element>, k: nat)
    ensures |Numbers(elems, k)| == Marks(elems)
    decreases elems, 1
  {
    if elems != [] {
      CountNumbersOf(elems[0], k);
      CountNumbers(elems[1..], NumberAfter(elems[0], k));
    }
  }

  lemma {:induction false} CountNumbersOf(e: Element, k: nat)
    ensures |NumbersOf(e, k)| == MarksOf(e)
    decreases e, 2
  {
    if e.FnCall? {
      CountArgNumbers(e.args, k);
    }
  }

  lemma {:induction false} CountArgNumbers(args: seq<Argument>, k: nat)
    ensures |ArgNumbers(args, k)| == AllMarks(args)
    decreases args, 1
  {
    if args != [] {
      CountNumbers(args[0].elems, k);
      CountArgNumbers(args[1..], LastNumber(args[0].elems, k));
    }
  }

  lemma AfterNumber(e: Element, c: Ctx)
    ensures After(e, c).k == NumberAfter(e, c.k)
  {
    hide Output;
  }

  lemma {:induction false} LastIsNumber(elems: seq<Element>, c: Ctx)
    ensures Last(elems, c).k == LastNumber(elems, c.k)
  {
    if elems != [] {
      AfterNumber(elems[0], c);
      LastIsNumber(elems[1..], After(elems[0], c));
    }
  }

  lemma Cut(a: seq<nat>, b: seq<nat>)
    ensures (a + b)[..|a|] == a && (a + b)[|a|..] == b
  {
  }

  /** The translation writes the assigned numbers marker by marker, at any depth. */
  lemma {:induction false} WritesNumbers(env: Env, p: nat, c: Ctx, elems: seq<Element>, end: nat)
    requires Spans(env, p, c, elems, end)
    ensures WriteAll(elems, c, Numbers(elems, c.k)) == Emit(elems, c)
    decreases elems, 1
  {
    hide *;
    if elems == [] {
      NoneWritten(c);
    } else {
      var e, next := elems[0], After(elems[0], c);
      CountNumbersOf(e, c.k);
      AfterNumber(e, c);
      Cut(NumbersOf(e, c.k), Numbers(elems[1..], next.k));
      NumbersHead(elems, c.k);
      WriteHead(elems, c, Numbers(elems, c.k));
      SpansHead(env, p, c, elems, end);
      EmitHead(elems, c);
      WritesNumbersOf(env, p, c, e);
      WritesNumbers(env, p + LengthAt(env, p, e), next, elems[1..], end);
    }
  }

  lemma NoneWritten(c: Ctx)
    ensures WriteAll([], c, Numbers([], c.k)) == Emit([], c)
  {
  }

  lemma NumbersHead(elems: seq<Element>, k: nat)
    requires elems != []
    ensures Numbers(elems, k) == NumbersOf(elems[0], k) + Numbers(elems[1..], NumberAfter(elems[0], k))
  {
  }

  lemma WriteHead(elems: seq<Element>, c: Ctx, ns: seq<nat>)
    requires elems != [] && MarksOf(elems[0]) <= |ns|
    ensures var m := MarksOf(elems[0]);
            WriteAll(elems, c, ns) == WriteOf(elems[0], c, ns[..m]) + WriteAll(elems[1..], After(elems[0], c), ns[m..])
  {
    hide WriteOf, MarksOf;
  }

  lemma {:induction false} WritesNumbersOf(env: Env, p: nat, c: Ctx, e: Element)
    requires ElementAt(env, p, c, e)
    ensures WriteOf(e, c, NumbersOf(e, c.k)) == Output(e, c)
    decreases e, 2
  {
    hide *;
    if e.FnCall? {
      CallParts(env, p, c, e);
      WritesArgs(env, OpenAt(env, p) + 1, Nonempty(c), e.args, ArgsEnd(env, OpenAt(env, p) + 1, e.args));
      SameNumber(c);
      CallWritten(env, p, c, e);
      CallOutput(e, c);
    } else {
      OthersWritten(e, c);
    }
  }

  lemma SameNumber(c: Ctx)
    ensures Nonempty(c).k == c.k
  {
  }

  lemma CallOutput(e: Element, c: Ctx)
    requires e.FnCall?
    ensures Output(e, c) == e.text
  {
  }

  lemma OthersWritten(e: Element, c: Ctx)
    requires !e.FnCall?
    ensures WriteOf(e, c, NumbersOf(e, c.k)) == Output(e, c)
  {
    hide Decimal, OpenText, SelectFrom, ExtraParen;
  }

  lemma CallWritten(env: Env, p: nat, c: Ctx, e: Element)
    requires e.FnCall? && ElementAt(env, p, c, e)
    requires WriteArgs(e.args, Nonempty(c), ArgNumbers(e.args, c.k)) == Translated(e.args, Nonempty(c))
    ensures WriteOf(e, c, NumbersOf(e, c.k)) == e.text
  {
    hide Meaning, Spans, ArgsAt, AllBlank, ArgsEnd, KeyAt, BodyAt, SkipWord, SkipSpace, Closing, ArgNumbers, WriteArgs, Translated,
      OpenAt, NameAt;
  }

  lemma {:induction false} WritesArgs(env: Env, p: nat, c: Ctx, args: seq<Argument>, close: nat)
    requires ArgsAt(env, p, c, args, close)
    ensures WriteArgs(args, c, ArgNumbers(args, c.k)) == Translated(args, c)
    decreases args, 1
  {
    hide *;
    ArgsHead(env, p, c, args, close);
    var a, next := args[0].elems, Nonempty(Last(args[0].elems, c));
    LastIsNumber(a, c);
    SameNumber(Last(a, c));
    CountNumbers(a, c.k);
    Cut(Numbers(a, c.k), ArgNumbers(args[1..], next.k));
    ArgNumbersHead(args, c.k);
    WriteArgsHead(args, c, ArgNumbers(args, c.k));
    WritesNumbers(env, p, c, a, EndOf(env, p, a));
    if |args| > 1 {
      WritesArgs(env, EndOf(env, p, a) + 1, next, args[1..], close);
    } else {
      NoArgs(next);
      assert args[1..] == [];
    }
  }

  lemma NoArgs(c: Ctx)
    ensures WriteArgs([], c, ArgNumbers([], c.k)) == [] && Translated([], c) == []
  {
  }

  lemma ArgNumbersHead(args: seq<Argument>, k: nat)
    requires args != []
    ensures ArgNumbers(args, k) == Numbers(args[0].elems, k) + ArgNumbers(args[1..], LastNumber(args[0].elems, k))
  {
  }

  lemma WriteArgsHead(args: seq<Argument>, c: Ctx, ns: seq<nat>)
    requires args != [] && Marks(args[0].elems) <= |ns|
    ensures var m := Marks(args[0].elems);
            WriteArgs(args, c, ns)
            == [WriteAll(args[0].elems, c, ns[..m])] + WriteArgs(args[1..], Nonempty(Last(args[0].elems, c)), ns[m..])
  {
    hide WriteAll, Marks, Last;
  }

  /** The commands between semicolons. */
  function Commands(elems: seq<Element>): (r: seq<seq<Element>>)
    ensures r != []
  {
    if elems == [] then [[]] else Grown(elems[0], Commands(elems[1..]))
  }

  /** The commands of a longer list. */
  function Grown(e: Element, more: seq<seq<Element>>): seq<seq<Element>>
    requires more != []
  {
    if e == Tok(Copied([SEMICOLON])) then [[]] + more else [[e] + more[0]] + more[1..]
  }

  /** The numbers of the commands, each numbered by itself (the first from `k + 1` on). */
  function NumbersByCommand(commands: seq<seq<Element>>, k: nat): seq<nat> {
    if commands == [] then [] else Numbers(commands[0], k) + NumbersByCommand(commands[1..], 0)
  }

  lemma {:induction false} CommandsNumbers(elems: seq<Element>, k: nat)
    ensures Numbers(elems, k) == NumbersByCommand(Commands(elems), k)
    decreases elems
  {
    if elems == [] {
      assert NumbersByCommand([[]], k) == [] + NumbersByCommand([[]][1..], 0);
    } else {
      CommandsNumbers(elems[1..], NumberAfter(elems[0], k));
      NumbersMore(elems[0], Commands(elems[1..]), k);
      NumbersHead(elems, k);
    }
  }

  lemma NumbersMore(e: Element, more: seq<seq<Element>>, k: nat)
    requires more != []
    ensures NumbersByCommand(Grown(e, more), k) == NumbersOf(e, k) + NumbersByCommand(more, NumberAfter(e, k))
  {
    var grown := Grown(e, more);
    if e == Tok(Copied([SEMICOLON])) {
      assert grown[0] == [] && grown[1..] == more;
      assert Copied([SEMICOLON]) != Param && Numbers([], k) == [];
    } else {
      var rest := NumbersByCommand(more[1..], 0);
      assert grown[0] == [e] + more[0] && grown[1..] == more[1..];
      NumbersHead(grown[0], k);
      assert grown[0][1..] == more[0];
      hide Numbers, NumbersOf;
      assert NumbersOf(e, k) + Numbers(more[0], NumberAfter(e, k)) + rest
          == NumbersOf(e, k) + (Numbers(more[0], NumberAfter(e, k)) + rest);
    }
  }

  /** Statements with escapes: the translation writes to the markers the numbers of their commands, and
      within a command these differ if and only if no function call that holds a marker is followed by
      another marker. */
  lemma StatementNumbers(env: Env, elems: seq<Element>)
    requires IsAsciiText(env.stmt) && Spans(env, 0, START, elems, |env.stmt|) && Marks(elems) <= 32767
    requires forall d :: d in Commands(elems) ==> OneCommand(d)
    ensures var r := Process(env, Start(env), Fresh(0));
            r.Ok? && r.qb.out == WriteAll(elems, START, NumbersByCommand(Commands(elems), 0))
    ensures forall d :: d in Commands(elems) ==> (Distinct(Numbers(d, 0)) <==> Apart(d, 0))
  {
    StartsAtZero();
    hide *;
    StatementTranslated(env, elems);
    WritesNumbers(env, 0, START, elems, |env.stmt|);
    CommandsNumbers(elems, 0);
    forall d | d in Commands(elems)
      ensures Distinct(Numbers(d, 0)) <==> Apart(d, 0)
    {
      MarkerNumbers(d, 0);
    }
  }

  lemma StartsAtZero()
    ensures START.k == 0
  {
  }

  // ---------------------------------------------------------------- parentheses

  /** Opening parentheses less closing ones. */
  function Net(t: seq<byte>): int {
    if t == [] then 0 else (if t[0] == LPAREN then 1 else if t[0] == RPAREN then -1 else 0) + Net(t[1..])
  }

  lemma {:induction false} NetAdds(a: seq<byte>, b: seq<byte>)
    ensures Net(a + b) == Net(a) + Net(b)
  {
    if a == [] {
      assert a + b == b;
    } else {
      assert (a + b)[1..] == a[1..] + b;
      NetAdds(a[1..], b);
    }
  }

  lemma {:induction false} BlankNet(elems: seq<Element>)
    requires AllBlank(elems)
    ensures Net(Emit(elems, NO_CTX)) == 0
  {
    if elems != [] {
      BlankNet(elems[1..]);
      BlankHead(elems);
      var out := Output(elems[0], NO_CTX);
      assert elems[0].token.Copied? ==> out[1..] == [];
      NetAdds(out, Emit(elems[1..], NO_CTX));
    }
  }

  /** A call of a function without entry in the table is its name, the parenthesized arguments, white space
      and what closing its brace appends. That is nothing, so that the parentheses balance as those of the
      name and the arguments do, if and only if the context behind the arguments has at most one open brace
      and the flag unset; otherwise it is one closing parenthesis too many. */
  lemma UnknownCall(env: Env, p: nat, c: Ctx, e: Element)
    requires e.FnCall? && ElementAt(env, p, c, e) && !IsConvert(e.name)
    requires MapName(e.name, |Arguments(Translated(e.args, Nonempty(c)))|).None?
    ensures var texts, end := Translated(e.args, Nonempty(c)), ArgsCtx(e.args, Nonempty(c));
            && e.text == e.name + [LPAREN] + Join(texts) + [RPAREN] + Emit(e.trail, NO_CTX) + ExtraParen(end)
            && (Net(e.text) == Net(e.name) + Net(Join(texts)) <==> end.level <= 1 && !end.first)
  {
    hide *;
    CallParts(env, p, c, e);
    BlankNet(e.trail);
    var texts, trail, end := Translated(e.args, Nonempty(c)), Emit(e.trail, NO_CTX), ArgsCtx(e.args, Nonempty(c));
    NameIs(env, p, c, e);
    TailIs(e.trail, end);
    UnknownMeaning(e.name, texts, trail, ExtraParen(end));
    NetParts(e.name, Join(texts), trail, ExtraParen(end));
    ExtraNet(end);
  }

  lemma NameIs(env: Env, p: nat, c: Ctx, e: Element)
    requires e.FnCall? && ElementAt(env, p, c, e)
    ensures p < |env.stmt|
    ensures e.name == Prefix(env.stmt[BodyAt(env, p)..SkipWord(env.stmt, BodyAt(env, p), true)], 64)
  {
    hide Meaning, Spans, ArgsAt, AllBlank, ArgsEnd, KeyAt, BodyAt, SkipWord, SkipSpace, Closing, OpenAt;
  }

  lemma ExtraNet(c: Ctx)
    ensures Net(ExtraParen(c)) == if c.level <= 1 && !c.first then 0 else -1
  {
    OneParen();
  }

  lemma UnknownMeaning(name: seq<byte>, texts: seq<seq<byte>>, trail: seq<byte>, extra: seq<byte>)
    requires !IsConvert(name) && MapName(name, |Arguments(texts)|).None?
    ensures Meaning(name, texts, trail + extra) == Text(name + [LPAREN] + Join(texts) + [RPAREN] + trail + extra)
  {
    hide MapName, IsConvert, Arguments, Join;
    var list := Join(texts);
    assert name + ([LPAREN] + list + [RPAREN] + (trail + extra)) == name + [LPAREN] + list + [RPAREN] + trail + extra;
  }

  lemma OneParen()
    ensures Net([LPAREN]) == 1 && Net([RPAREN]) == -1 && Net([]) == 0
  {
    assert [LPAREN][1..] == [] && [RPAREN][1..] == [];
  }

  lemma NetParts(name: seq<byte>, list: seq<byte>, trail: seq<byte>, extra: seq<byte>)
    ensures Net(name + [LPAREN] + list + [RPAREN] + trail + extra) == Net(name) + Net(list) + Net(trail) + Net(extra)
  {
    NetAdds(name + [LPAREN] + list + [RPAREN] + trail, extra);
    NetAdds(name + [LPAREN] + list + [RPAREN], trail);
    NetAdds(name + [LPAREN] + list, [RPAREN]);
    NetAdds(name + [LPAREN], list);
    NetAdds(name, [LPAREN]);
    OneParen();
  }

  // ---------------------------------------------------------------- when the flag is set

  /** Braces opened less braces closed. */
  function Depth(elems: seq<Element>): int {
    if elems == [] then 0
    else (if elems[0].Open? then 1 else if elems[0].Close? then -1 else 0) + Depth(elems[1..])
  }

  /** The element at `i` opens a brace outside of all others. */
  predicate OpensOuter(elems: seq<Element>, level: int, i: nat)
    requires i < |elems|
  {
    (elems[i].Open? || elems[i].Bare?) && level + Depth(elems[..i]) == 0
  }

  lemma {:induction false} DepthAppend(a: seq<Element>, b: seq<Element>)
    ensures Depth(a + b) == Depth(a) + Depth(b)
  {
    if a == [] {
      assert a + b == b;
    } else {
      assert (a + b)[1..] == a[1..] + b;
      DepthAppend(a[1..], b);
    }
  }

  lemma {:induction false} LastAppend(a: seq<Element>, b: seq<Element>, c: Ctx)
    ensures Last(a + b, c) == Last(b, Last(a, c)) && Emit(a + b, c) == Emit(a, c) + Emit(b, Last(a, c))
    decreases a
  {
    hide Output, After;
    if a == [] {
      assert a + b == b;
    } else {
      assert (a + b)[1..] == a[1..] + b;
      LastAppend(a[1..], b, After(a[0], c));
    }
  }

  lemma {:induction false} LevelAfter(elems: seq<Element>, c: Ctx)
    ensures Last(elems, c).level == c.level + Depth(elems)
    ensures Last(elems, c).empty == (c.empty && Emit(elems, c) == [])
  {
    if elems != [] {
      LevelAfter(elems[1..], After(elems[0], c));
      hide Output;
    }
  }

  /** The flag, exactly: it is as the last element that opens an outer brace has found the output, empty or
      not, whether or not that brace has been closed since. */
  lemma {:induction false} FlagAfter(elems: seq<Element>, c: Ctx)
    ensures forall i :: 0 <= i < |elems| && OpensOuter(elems, c.level, i) && NoneLater(elems, c.level, i)
                ==> Last(elems, c).first == !(c.empty && Emit(elems[..i], c) == [])
    ensures NoneLater(elems, c.level, -1) ==> Last(elems, c).first == c.first
    decreases |elems|
  {
    if elems != [] {
      var n := |elems| - 1;
      var init, e := elems[..n], elems[n];
      assert elems == init + [e];
      FlagAfter(init, c);
      LastAppend(init, [e], c);
      LevelAfter(init, c);
      OneMore(e, Last(init, c));
      forall i | 0 <= i < n
        ensures elems[..i] == init[..i]
        ensures OpensOuter(elems, c.level, i) == OpensOuter(init, c.level, i)
      {
        assert elems[..i] == init[..i];
      }
      hide Emit, Last, Depth;
      FlagStep(elems, init, e, c);
    }
  }

  predicate NoneLater(elems: seq<Element>, level: int, i: int) {
    forall j :: i < j < |elems| && 0 <= j ==> !OpensOuter(elems, level, j)
  }

  lemma OneMore(e: Element, c: Ctx)
    ensures Last([e], c) == After(e, c)
    ensures After(e, c).first == if (e.Open? || e.Bare?) && c.level == 0 then !c.empty else c.first
  {
    hide Output;
    assert [e][1..] == [];
  }

  lemma FlagStep(elems: seq<Element>, init: seq<Element>, e: Element, c: Ctx)
    requires elems == init + [e] && Last(elems, c).first == After(e, Last(init, c)).first
    requires Last(init, c).level == c.level + Depth(init) && Last(init, c).empty == (c.empty && Emit(init, c) == [])
    requires var d := Last(init, c);
             After(e, d).first == if (e.Open? || e.Bare?) && d.level == 0 then !d.empty else d.first
    requires forall i :: 0 <= i < |init| ==> elems[..i] == init[..i] && OpensOuter(elems, c.level, i) == OpensOuter(init, c.level, i)
    requires forall i :: 0 <= i < |init| && OpensOuter(init, c.level, i) && NoneLater(init, c.level, i)
                 ==> Last(init, c).first == !(c.empty && Emit(init[..i], c) == [])
    requires NoneLater(init, c.level, -1) ==> Last(init, c).first == c.first
    ensures forall i :: 0 <= i < |elems| && OpensOuter(elems, c.level, i) && NoneLater(elems, c.level, i)
                ==> Last(elems, c).first == !(c.empty && Emit(elems[..i], c) == [])
    ensures NoneLater(elems, c.level, -1) ==> Last(elems, c).first == c.first
  {
    hide Emit, Last, Depth, After;
    var n := |init|;
    assert elems[..n] == init && elems[n] == e;
    assert OpensOuter(elems, c.level, n) == ((e.Open? || e.Bare?) && Last(init, c).level == 0);
    forall i | 0 <= i < |elems| && OpensOuter(elems, c.level, i) && NoneLater(elems, c.level, i)
      ensures Last(elems, c).first == !(c.empty && Emit(elems[..i], c) == [])
    {
      if i < n {
        assert NoneLater(init, c.level, i);
        assert !OpensOuter(elems, c.level, n);
      }
    }
    if NoneLater(elems, c.level, -1) {
      assert NoneLater(init, c.level, -1);
      assert !OpensOuter(elems, c.level, n);
    }
  }

  /** The last outer brace opened in `elems`, from the start of a statement, met output. */
  ghost predicate LateOpening(elems: seq<Element>) {
    exists i :: 0 <= i < |elems| && OpensOuter(elems, 0, i) && NoneLater(elems, 0, i) && Emit(elems[..i], START) != []
  }

  /** The last of finitely many. */
  lemma {:induction false} SomeLast(elems: seq<Element>, level: int, k: nat) returns (i: int)
    requires k <= |elems|
    ensures -1 <= i < k && (i >= 0 ==> OpensOuter(elems, level, i))
    ensures forall j :: i < j < k && 0 <= j ==> !OpensOuter(elems, level, j)
  {
    if k == 0 {
      i := -1;
    } else if OpensOuter(elems, level, k - 1) {
      i := k - 1;
    } else {
      i := SomeLast(elems, level, k - 1);
    }
  }

  lemma FlagIsLate(elems: seq<Element>)
    ensures Last(elems, START).first <==> LateOpening(elems)
    ensures Last(elems, START).level == Depth(elems)
  {
    FlagAfter(elems, START);
    LevelAfter(elems, START);
    var i := SomeLast(elems, 0, |elems|);
    hide Emit, Last, Depth;
    if i >= 0 {
      assert NoneLater(elems, 0, i);
      if LateOpening(elems) {
        var l :| 0 <= l < |elems| && OpensOuter(elems, 0, l) && NoneLater(elems, 0, l) && Emit(elems[..l], START) != [];
        assert !(i < l) && !(l < i);
      }
    } else {
      assert NoneLater(elems, 0, -1);
    }
  }

  /** The elements of all arguments, one after the other. */
  function ArgElems(args: seq<Argument>): seq<Element> {
    if args == [] then [] else args[0].elems + ArgElems(args[1..])
  }

  lemma {:induction false} ArgsAsOne(args: seq<Argument>, c: Ctx)
    requires !c.empty
    ensures ArgsCtx(args, c) == Last(ArgElems(args), c)
  {
    if args != [] {
      LevelAfter(args[0].elems, c);
      ArgsAsOne(args[1..], Nonempty(Last(args[0].elems, c)));
      LastAppend(args[0].elems, ArgElems(args[1..]), c);
    }
  }

  predicate OuterIn(elems: seq<Element>, level: int) {
    exists i :: 0 <= i < |elems| && OpensOuter(elems, level, i)
  }

  /** Once something has been put out, every outer brace sets the flag. */
  lemma FlagInside(elems: seq<Element>, c: Ctx)
    requires !c.empty
    ensures Last(elems, c).first == (OuterIn(elems, c.level) || c.first)
  {
    FlagAfter(elems, c);
    var i := SomeLast(elems, c.level, |elems|);
    hide Emit, Last, Depth;
    if i >= 0 {
      assert NoneLater(elems, c.level, i);
    } else {
      assert NoneLater(elems, c.level, -1);
    }
  }

  lemma {:induction false} SpansAppend(env: Env, p: nat, c: Ctx, a: seq<Element>, b: seq<Element>, end: nat) returns (m: nat)
    requires Spans(env, p, c, a + b, end)
    ensures Spans(env, p, c, a, m) && Spans(env, m, Last(a, c), b, end)
    decreases a
  {
    hide ElementAt, After, LengthAt;
    if a == [] {
      m := p;
      assert a + b == b;
    } else {
      assert (a + b)[1..] == a[1..] + b && (a + b)[0] == a[0];
      SpansHead(env, p, c, a + b, end);
      m := SpansAppend(env, p + LengthAt(env, p, a[0]), After(a[0], c), a[1..], b, end);
    }
  }

  /** The extra parenthesis in a statement, exactly: a call of an unknown function gets it if and only if more
      than one brace is open behind its arguments, or a brace outside of all others is opened in its arguments,
      or the last one that was opened before the call, still open or not, had output before it. */
  lemma ExtraParenthesis(env: Env, before: seq<Element>, e: Element, more: seq<Element>)
    requires Spans(env, 0, START, before + ([e] + more), |env.stmt|)
    requires e.FnCall? && !IsConvert(e.name)
    requires MapName(e.name, |Arguments(Translated(e.args, Nonempty(Last(before, START))))|).None?
    ensures var call := e.name + [LPAREN] + Join(Translated(e.args, Nonempty(Last(before, START)))) + [RPAREN]
                        + Emit(e.trail, NO_CTX);
            var inner := ArgElems(e.args);
            e.text == call + if Depth(before) + Depth(inner) > 1 || OuterIn(inner, Depth(before)) || LateOpening(before)
                             then [RPAREN] else []
  {
    var p := SpansAppend(env, 0, START, before, [e] + more, |env.stmt|);
    hide *;
    var c, inner := Last(before, START), ArgElems(e.args);
    SpansHead(env, p, c, [e] + more, |env.stmt|);
    assert ([e] + more)[0] == e;
    UnknownCall(env, p, c, e);
    FlagIsLate(before);
    NonemptyIs(c);
    ArgsAsOne(e.args, Nonempty(c));
    LevelAfter(inner, Nonempty(c));
    FlagInside(inner, Nonempty(c));
    ExtraIs(ArgsCtx(e.args, Nonempty(c)));
  }

  lemma NonemptyIs(c: Ctx)
    ensures Nonempty(c).level == c.level && Nonempty(c).first == c.first && !Nonempty(c).empty
  {
  }

  lemma ExtraIs(c: Ctx)
    ensures ExtraParen(c) == if c.level > 1 || c.first then [RPAREN] else []
  {
  }

  // ---------------------------------------------------------------- inputs

  /** The byte `f` as a name. */
  const F_NAME: seq<byte> := [102]

  lemma {:induction false} NoRowFits(rows: seq<Mapping>, name: seq<byte>, count: nat)
    requires forall i :: 0 <= i < |rows| ==> |rows[i].name| != |name|
    ensures MapFunction(rows, name, count) == None
  {
    if rows != [] {
      NoRowFits(rows[1..], name, count);
    }
  }

  /** There is no function `f`. */
  lemma Unknown(count: nat)
    ensures MapName(F_NAME, count) == None && !IsConvert(F_NAME)
  {
    hide MapFunction, RowFits;
    NoRowFits(MAP_FUNCS, F_NAME, count);
    assert |LowerAll(F_NAME)| != |Bytes("convert")|;
  }

  /** The head `{fn f(`. */
  lemma HeadHere(env: Env, p: nat)
    requires p + 6 <= |env.stmt| && env.stmt[p..p + 6] == [LBRACE, 102, 110, SPACE, 102, LPAREN]
    ensures env.stmt[p] == LBRACE && KeyAt(env, p) == FunctionKey && OpenAt(env, p) == p + 5 && NameAt(env, p) == F_NAME
  {
    var s := env.stmt;
    var h := s[p..p + 6];
    assert s[p] == h[0] && s[p + 1] == h[1] && s[p + 2] == h[2] && s[p + 3] == h[3] && s[p + 4] == h[4] && s[p + 5] == h[5];
    assert s[p + 1] == 102 && s[p + 2] == 110 && s[p + 3] == SPACE && s[p + 4] == 102 && s[p + 5] == LPAREN;
    assert SkipSpace(s, p + 1) == p + 1;
    assert SkipWord(s, p + 3, false) == p + 3;
    assert SkipWord(s, p + 1, false) == p + 3;
    assert s[p + 1..p + 3] == [102, 110];
    assert s[p + 4..p + 5] == [s[p + 4]] == F_NAME;
    FnKey();
    assert SkipSpace(s, p + 4) == p + 4;
    assert BodyAt(env, p) == p + 4;
    assert SkipWord(s, p + 5, true) == p + 5;
    assert SkipWord(s, p + 4, true) == p + 5;
  }

  lemma FnKey()
    ensures KeyOf(LowerAll(Prefix([102, 110], 32))) == FunctionKey
  {
    var word := LowerAll([102, 110]);
    assert word == [102, 110];
    assert |Bytes("call")| == 4 && |Bytes("d")| == 1 && |Bytes("t")| == 1 && |Bytes("escape")| == 6;
    assert Bytes("ts")[0] == 116 && Bytes("oj")[0] == 111;
    assert Bytes("fn") == [102, 110];
  }

  /** A call of `f` with one argument of one byte, `{fn f(x)}`. */
  function CallOfF(arg: Token, c: Ctx): Element {
    FnCall(9, F_NAME, [Argument([Tok(arg)])], [], F_NAME + [LPAREN] + Written(arg, c.k) + [RPAREN] + ExtraParen(c))
  }

  lemma CallHere(env: Env, p: nat, c: Ctx, arg: Token)
    requires p + 9 <= |env.stmt| && env.stmt[p..p + 6] == [LBRACE, 102, 110, SPACE, 102, LPAREN]
    requires env.stmt[p + 7] == RPAREN && env.stmt[p + 8] == RBRACE
    requires TokenAt(env, p + 6) == arg && SpanAt(env, p + 6) == 1 && env.stmt[p + 6] !in {LBRACE, RBRACE}
    requires arg in {Param, Copied([49])}
    ensures ElementAt(env, p, c, CallOfF(arg, c))
  {
    hide TokenAt, SpanAt, Written, KeyAt, OpenAt, NameAt, Meaning, Number, ExtraParen, Closing;
    var e, a, d := CallOfF(arg, c), [Tok(arg)], Nonempty(c);
    HeadHere(env, p);
    assert a[1..] == [];
    assert Spans(env, p + 7, After(a[0], d), [], p + 7);
    assert Spans(env, p + 6, d, a, p + 7);
    assert EndOf(env, p + 7, a[1..]) == p + 7;
    assert EndOf(env, p + 6, a) == p + 7;
    assert Balanced(a[1..], 0);
    assert Balanced(a, 0);
    assert ArgsAt(env, p + 6, d, e.args, p + 7);
    assert Spans(env, p + 8, NO_CTX, e.trail, p + 8);
    MeaningOfF(a, c, arg);
  }

  lemma MeaningOfF(a: seq<Element>, c: Ctx, arg: Token)
    requires a == [Tok(arg)] && arg in {Param, Copied([49])}
    ensures var d, args := Nonempty(c), [Argument(a)];
            Meaning(F_NAME, Translated(args, d), Closing([], ArgsCtx(args, d))) == Text(CallOfF(arg, c).text)
  {
    hide Meaning, Written;
    var d, args := Nonempty(c), [Argument(a)];
    OneArgument(a, d, arg);
    hide Translated, ArgsCtx, Closing, Nonempty;
    TextOfF(Written(arg, c.k), ExtraParen(c));
  }

  lemma OneArgument(a: seq<Element>, d: Ctx, arg: Token)
    requires a == [Tok(arg)] && arg in {Param, Copied([49])} && !d.empty
    ensures Translated([Argument(a)], d) == [Written(arg, d.k)]
    ensures Closing([], ArgsCtx([Argument(a)], d)) == ExtraParen(d)
  {
    hide Written;
    var args := [Argument(a)];
    assert a[1..] == [] && args[1..] == [];
    assert Last(a, d) == After(a[0], d);
    assert Emit(a, d) == Written(arg, d.k) + Emit([], After(a[0], d)) == Written(arg, d.k);
    assert ArgsCtx(args, d) == Nonempty(Last(a, d));
    assert Emit([], NO_CTX) == [];
  }

  lemma TextOfF(text: seq<byte>, tail: seq<byte>)
    ensures Meaning(F_NAME, [text], tail) == Text(F_NAME + [LPAREN] + text + [RPAREN] + tail)
  {
    hide MapName, IsConvert;
    Unknown(|Arguments([text])|);
    assert F_NAME + ([LPAREN] + text + [RPAREN] + tail) == F_NAME + [LPAREN] + text + [RPAREN] + tail;
  }

  lemma MarkerHere(env: Env, p: nat)
    requires p < |env.stmt| && env.stmt[p] == QUESTION
    ensures TokenAt(env, p) == Param && SpanAt(env, p) == 1
  {
    assert Rest(env, p)[0] == QUESTION;
  }

  lemma SpaceHere(env: Env, p: nat)
    requires p < |env.stmt| && env.stmt[p] == SPACE
    ensures TokenAt(env, p) == Copied([SPACE]) && SpanAt(env, p) == 1
  {
    assert Rest(env, p)[0] == SPACE;
    assert env.stmt[p..p + 1] == [SPACE];
  }

  /** A letter or digit before a byte that does not go on with it. */
  lemma LetterHere(env: Env, p: nat)
    requires p + 1 < |env.stmt| && IsAlnum(env.stmt[p]) && !IdentifierByte(env.stmt[p + 1])
    ensures TokenAt(env, p) == Copied([env.stmt[p]]) && SpanAt(env, p) == 1
  {
    var rest := Rest(env, p)[1..];
    assert Rest(env, p)[0] == env.stmt[p] && rest[0] == env.stmt[p + 1] && IdentRest(rest) == 0;
    assert env.stmt[p..p + 1] == [env.stmt[p]];
  }

  /** The start `{oj ` of an outer join. */
  lemma JoinHere(env: Env, p: nat)
    requires p + 4 < |env.stmt| && env.stmt[p..p + 4] == [LBRACE, 111, 106, SPACE] && !IsSpace(env.stmt[p + 4])
    ensures OpenAtBrace(env, p, 4, false)
  {
    var s, h := env.stmt, env.stmt[p..p + 4];
    assert s[p] == h[0] && s[p + 1] == h[1] && s[p + 2] == h[2] && s[p + 3] == h[3];
    assert SkipSpace(s, p + 1) == p + 1;
    assert SkipWord(s, p + 3, false) == p + 3;
    assert SkipWord(s, p + 1, false) == p + 3;
    assert SkipSpace(s, p + 4) == p + 4;
    assert SkipSpace(s, p + 3) == p + 4;
    assert s[p + 1..p + 3] == [111, 106];
    OjKey();
  }

  lemma OjKey()
    ensures KeyOf(LowerAll(Prefix([111, 106], 32))) == OuterJoinKey
  {
    assert LowerAll([111, 106]) == [111, 106];
    assert |Bytes("call")| == 4 && |Bytes("d")| == 1 && |Bytes("t")| == 1 && Bytes("ts")[0] == 116;
    assert Bytes("oj") == [111, 106];
  }

  /** One more element in front. */
  lemma InFront(env: Env, p: nat, c: Ctx, e: Element, more: seq<Element>, end: nat)
    requires ElementAt(env, p, c, e) && Spans(env, p + LengthAt(env, p, e), After(e, c), more, end)
    ensures Spans(env, p, c, [e] + more, end)
    ensures Emit([e] + more, c) == Output(e, c) + Emit(more, After(e, c)) && Marks([e] + more) == MarksOf(e) + Marks(more)
  {
    hide ElementAt, LengthAt, After, Output, MarksOf;
    assert ([e] + more)[1..] == more;
  }

  /** The same for a token of one byte and for the braces of an outer join. */
  lemma TokInFront(env: Env, p: nat, c: Ctx, more: seq<Element>, end: nat)
    requires p < |env.stmt| && env.stmt[p] !in {LBRACE, RBRACE} && SpanAt(env, p) == 1
    requires Spans(env, p + 1, After(Tok(TokenAt(env, p)), c), more, end)
    ensures var e := Tok(TokenAt(env, p));
            && Spans(env, p, c, [e] + more, end)
            && Emit([e] + more, c) == Written(TokenAt(env, p), c.k) + Emit(more, After(e, c))
            && Marks([e] + more) == (if TokenAt(env, p) == Param then 1 else 0) + Marks(more)
  {
    hide TokenAt, SpanAt, Spans, Emit, Marks, Written, After;
    InFront(env, p, c, Tok(TokenAt(env, p)), more, end);
  }

  lemma ByteInFront(env: Env, p: nat, c: Ctx, x: byte, more: seq<Element>, end: nat)
    requires p < |env.stmt| && env.stmt[p] !in {LBRACE, RBRACE} && SpanAt(env, p) == 1 && TokenAt(env, p) == Copied([x])
    requires x != SEMICOLON && Spans(env, p + 1, Nonempty(c), more, end)
    ensures var e := Tok(Copied([x]));
            Spans(env, p, c, [e] + more, end) && Emit([e] + more, c) == [x] + Emit(more, Nonempty(c)) && Marks([e] + more) == Marks(more)
  {
    assert After(Tok(Copied([x])), c) == Nonempty(c) by {
      assert [x] != [SEMICOLON] by { assert [x][0] != [SEMICOLON][0]; }
    }
    hide TokenAt, SpanAt, Spans, Emit, Marks, After;
    TokInFront(env, p, c, more, end);
  }

  lemma NothingMore(env: Env, end: nat, c: Ctx)
    ensures Spans(env, end, c, [], end) && Emit([], c) == [] && Marks([]) == 0
  {
  }

  lemma CallInFront(env: Env, p: nat, c: Ctx, arg: Token, more: seq<Element>, end: nat)
    requires p + 9 <= |env.stmt| && env.stmt[p..p + 6] == [LBRACE, 102, 110, SPACE, 102, LPAREN]
    requires env.stmt[p + 7] == RPAREN && env.stmt[p + 8] == RBRACE
    requires TokenAt(env, p + 6) == arg && SpanAt(env, p + 6) == 1 && env.stmt[p + 6] !in {LBRACE, RBRACE}
    requires arg in {Param, Copied([49])} && Spans(env, p + 9, Nonempty(c), more, end)
    ensures var e := CallOfF(arg, c);
            && Spans(env, p, c, [e] + more, end) && Emit([e] + more, c) == e.text + Emit(more, Nonempty(c))
            && Marks([e] + more) == (if arg == Param then 1 else 0) + Marks(more)
  {
    hide TokenAt, SpanAt, Spans, Emit, Marks, ElementAt;
    var e := CallOfF(arg, c);
    CallHere(env, p, c, arg);
    assert e.text[0] == 102 && After(e, c) == Nonempty(c);
    InFront(env, p, c, e, more, end);
    MarksOfF(arg, c);
  }

  lemma MarksOfF(arg: Token, c: Ctx)
    ensures MarksOf(CallOfF(arg, c)) == if arg == Param then 1 else 0
  {
    var args, a := CallOfF(arg, c).args, [Tok(arg)];
    assert args[0].elems == a && args[1..] == [] && a[1..] == [];
    assert Marks(a) == MarksOf(a[0]) + Marks(a[1..]);
    assert AllMarks(args) == Marks(a) + AllMarks(args[1..]);
  }

  lemma JoinInFront(env: Env, p: nat, c: Ctx, more: seq<Element>, end: nat)
    requires p + 4 < |env.stmt| && env.stmt[p..p + 4] == [LBRACE, 111, 106, SPACE] && !IsSpace(env.stmt[p + 4])
    requires !c.empty && Spans(env, p + 4, Opened(c), more, end)
    ensures var e := Open(4, false);
            Spans(env, p, c, [e] + more, end) && Emit([e] + more, c) == [LPAREN] + Emit(more, Opened(c)) && Marks([e] + more) == Marks(more)
  {
    hide Spans, Emit, Marks, OpenAtBrace;
    JoinHere(env, p);
    var e := Open(4, false);
    assert After(e, c) == Opened(c) && Output(e, c) == [LPAREN];
    InFront(env, p, c, e, more, end);
  }

  lemma CloseInFront(env: Env, p: nat, c: Ctx, more: seq<Element>, end: nat)
    requires p < |env.stmt| && env.stmt[p] == RBRACE && !c.empty && Spans(env, p + 1, c.(level := c.level - 1), more, end)
    ensures Spans(env, p, c, [Close] + more, end) && Marks([Close] + more) == Marks(more)
    ensures Emit([Close] + more, c) == ExtraParen(c) + Emit(more, c.(level := c.level - 1))
  {
    hide Spans, Emit, Marks;
    assert After(Close, c) == c.(level := c.level - 1);
    InFront(env, p, c, Close, more, end);
  }

  lemma OneDigit()
    ensures Decimal(1) == [49]
  {
  }

  /** `{fn f(?)} ?` */
  const TWO_MARKERS: seq<byte> :=
    [LBRACE, 102, 110, SPACE, 102, LPAREN, QUESTION, RPAREN, RBRACE, SPACE, QUESTION]

  /** In `{fn f(?)} ?` both markers become `$1`. */
  lemma NumbersCollide(env: Env)
    requires env.stmt == TWO_MARKERS
    ensures var r := Process(env, Start(env), Fresh(0));
            r.Ok? && r.qb.out == [102, LPAREN, DOLLAR, 49, RPAREN, SPACE, DOLLAR, 49]
  {
    hide Process, Decimal, Spans, Emit, Marks, TokenAt, SpanAt, ExtraParen;
    var s, c := env.stmt, Nonempty(START);
    assert |s| == 11 && IsAsciiText(s) && s[0..6] == [LBRACE, 102, 110, SPACE, 102, LPAREN];
    OneDigit();
    MarkerHere(env, 6);
    MarkerHere(env, 10);
    SpaceHere(env, 9);
    var last := After(Tok(Param), c);
    NothingMore(env, 11, last);
    TokInFront(env, 10, c, [], 11);
    assert [Tok(Param)] + [] == [Tok(Param)] && After(Tok(Copied([SPACE])), c) == c;
    TokInFront(env, 9, c, [Tok(Param)], 11);
    var two := [Tok(Copied([SPACE]))] + [Tok(Param)];
    CallInFront(env, 0, START, Param, two, 11);
    assert ExtraParen(START) == [] by { AtTopLevel(); }
    StatementTranslated(env, [CallOfF(Param, START)] + two);
  }

  lemma AtTopLevel()
    ensures ExtraParen(START) == []
  {
  }

  // The contexts of the two runs that follow: something put out, an outer join opened behind it, and closed.
  const WRITTEN := Ctx(0, 0, false, false)
  const JOINED := Ctx(0, 1, true, false)
  const LEFT_OVER := Ctx(0, 0, true, false)

  lemma Contexts()
    ensures Nonempty(START) == WRITTEN && !WRITTEN.empty && Opened(WRITTEN) == JOINED && Nonempty(JOINED) == JOINED
    ensures !JOINED.empty && JOINED.(level := JOINED.level - 1) == LEFT_OVER && Nonempty(LEFT_OVER) == LEFT_OVER
    ensures ExtraParen(JOINED) == [RPAREN]
    ensures CallOfF(Copied([49]), JOINED).text == CallOfF(Copied([49]), LEFT_OVER).text == [102, LPAREN, 49, RPAREN, RPAREN]
  {
    assert Written(Copied([49]), 0) == [49];
  }

  /** `x{oj {fn f(1)}}` */
  const NESTED_CALL: seq<byte> :=
    [120, LBRACE, 111, 106, SPACE, LBRACE, 102, 110, SPACE, 102, LPAREN, 49, RPAREN, RBRACE, RBRACE]

  lemma NestedBytes(env: Env)
    requires env.stmt == NESTED_CALL
    ensures |env.stmt| == 15 && IsAsciiText(env.stmt) && env.stmt[0] !in {LBRACE, RBRACE} && env.stmt[11] !in {LBRACE, RBRACE}
    ensures env.stmt[1..5] == [LBRACE, 111, 106, SPACE] && !IsSpace(env.stmt[5])
    ensures env.stmt[5..11] == [LBRACE, 102, 110, SPACE, 102, LPAREN]
    ensures env.stmt[12] == RPAREN && env.stmt[13] == RBRACE && env.stmt[14] == RBRACE
    ensures TokenAt(env, 0) == Copied([120]) && SpanAt(env, 0) == 1 && TokenAt(env, 11) == Copied([49]) && SpanAt(env, 11) == 1
  {
    hide TokenAt, SpanAt;
    LetterHere(env, 0);
    LetterHere(env, 11);
  }

  /** In `x{oj {fn f(1)}}` the call inside of the outer join gets a closing parenthesis of its own: the
      output is `x(f(1)))`. */
  lemma ParenTooMany(env: Env)
    requires env.stmt == NESTED_CALL
    ensures var r := Process(env, Start(env), Fresh(0));
            r.Ok? && r.qb.out == [120, LPAREN, 102, LPAREN, 49, RPAREN, RPAREN, RPAREN]
  {
    hide Process, Spans, Emit, Marks, TokenAt, SpanAt, ExtraParen, Nonempty, Opened, CallOfF, IsAsciiText;
    NestedBytes(env);
    Contexts();
    NothingMore(env, 15, LEFT_OVER);
    CloseInFront(env, 14, JOINED, [], 15);
    CallInFront(env, 5, JOINED, Copied([49]), [Close] + [], 15);
    var call := [CallOfF(Copied([49]), JOINED)] + ([Close] + []);
    JoinInFront(env, 1, WRITTEN, call, 15);
    ByteInFront(env, 0, START, 120, [Open(4, false)] + call, 15);
    StatementTranslated(env, [Tok(Copied([120]))] + ([Open(4, false)] + call));
    assert [120] + ([LPAREN] + ([102, LPAREN, 49, RPAREN, RPAREN] + ([RPAREN] + [])))
        == [120, LPAREN, 102, LPAREN, 49, RPAREN, RPAREN, RPAREN];
  }

  /** `x{oj a} {fn f(1)}` */
  const CLOSED_JOIN: seq<byte> :=
    [120, LBRACE, 111, 106, SPACE, 97, RBRACE, SPACE, LBRACE, 102, 110, SPACE, 102, LPAREN, 49, RPAREN, RBRACE]

  lemma ClosedBytes(env: Env)
    requires env.stmt == CLOSED_JOIN
    ensures |env.stmt| == 17 && IsAsciiText(env.stmt) && env.stmt[6] == RBRACE
    ensures env.stmt[0] == 120 && env.stmt[5] == 97 && env.stmt[7] == SPACE && env.stmt[14] == 49
    ensures SpanAt(env, 0) == 1 && SpanAt(env, 5) == 1 && SpanAt(env, 7) == 1 && SpanAt(env, 14) == 1
    ensures env.stmt[1..5] == [LBRACE, 111, 106, SPACE] && !IsSpace(env.stmt[5])
    ensures env.stmt[8..14] == [LBRACE, 102, 110, SPACE, 102, LPAREN] && env.stmt[15] == RPAREN && env.stmt[16] == RBRACE
    ensures TokenAt(env, 0) == Copied([120]) && TokenAt(env, 5) == Copied([97]) && TokenAt(env, 7) == Copied([SPACE])
    ensures TokenAt(env, 14) == Copied([49])
  {
    hide TokenAt, SpanAt;
    LetterHere(env, 0);
    LetterHere(env, 5);
    SpaceHere(env, 7);
    LetterHere(env, 14);
  }

  /** In `x{oj a} {fn f(1)}` no brace is open around the call, yet it gets the parenthesis: the output is
      `x(a) f(1))`. */
  lemma ParenLeftOver(env: Env)
    requires env.stmt == CLOSED_JOIN
    ensures var r := Process(env, Start(env), Fresh(0));
            r.Ok? && r.qb.out == [120, LPAREN, 97, RPAREN, SPACE, 102, LPAREN, 49, RPAREN, RPAREN]
  {
    hide Process, Spans, Emit, Marks, TokenAt, SpanAt, ExtraParen, Nonempty, Opened, CallOfF, IsAsciiText;
    ClosedBytes(env);
    Contexts();
    NothingMore(env, 17, LEFT_OVER);
    CallInFront(env, 8, LEFT_OVER, Copied([49]), [], 17);
    var call := [CallOfF(Copied([49]), LEFT_OVER)] + [];
    ByteInFront(env, 7, LEFT_OVER, SPACE, call, 17);
    var spaced := [Tok(Copied([SPACE]))] + call;
    CloseInFront(env, 6, JOINED, spaced, 17);
    ByteInFront(env, 5, JOINED, 97, [Close] + spaced, 17);
    var inside := [Tok(Copied([97]))] + ([Close] + spaced);
    JoinInFront(env, 1, WRITTEN, inside, 17);
    ByteInFront(env, 0, START, 120, [Open(4, false)] + inside, 17);
    StatementTranslated(env, [Tok(Copied([120]))] + ([Open(4, false)] + inside));
    assert [120] + ([LPAREN] + ([97] + ([RPAREN] + ([SPACE] + ([102, LPAREN, 49, RPAREN, RPAREN] + [])))))
        == [120, LPAREN, 97, RPAREN, SPACE, 102, LPAREN, 49, RPAREN, RPAREN];
  }
}
