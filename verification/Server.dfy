/**
 The server as the driver sees it: a transaction state, a stack of savepoints and data that
 are a log of the effects of the commands executed so far.
 */
module Server {

  /** Savepoint names: the driver's per-statement and per-query ones, and the application's. */
  datatype Name = Exec | PerQuery | User(id: nat)

  /** `Begin(true)` is START TRANSACTION, `Begin(false)` is BEGIN. `Work` is any other command;
      whether the server accepts it is part of the command. */
  datatype Command =
    | Begin(start: bool)
    | Commit
    | Rollback
    | Savepoint(name: Name)
    | RollbackTo(name: Name)
    | Release(name: Name)
    | Work(id: nat, fails: bool)

  datatype Tx = Idle | Active | Failed

  type Data = seq<nat>

  datatype Svp = Svp(name: Name, data: Data)

  /** `base` is what has been committed; the top of the stack is the last element of `svps`. */
  datatype State = State(tx: Tx, base: Data, data: Data, svps: seq<Svp>)

  /** The command tags that the driver tells apart. */
  datatype Tag = StartTag | SavepointTag | RollbackTag | ReleaseTag | OtherTag

  datatype Result = Ok(tag: Tag) | Err

  datatype Reply = Reply(state: State, result: Result)

  function Drop(s: seq<Svp>): seq<Svp>
    requires s != []
  {
    s[..|s| - 1]
  }

  function Top(s: seq<Svp>): Svp
    requires s != []
  {
    s[|s| - 1]
  }

  /** The stack up to and including the topmost savepoint of a name. */
  function Through(s: seq<Svp>, name: Name): (r: seq<Svp>)
    ensures r != [] ==> Top(r).name == name
  {
    if s == [] then [] else if Top(s).name == name then s else Through(Drop(s), name)
  }

  function Fail(s: State): Reply {
    match s.tx
    case Idle => Reply(s.(data := s.base), Err)
    case Active => Reply(s.(tx := Failed), Err)
    case Failed => Reply(s, Err)
  }

  function End(s: State, data: Data, tag: Tag): Reply {
    Reply(State(Idle, data, data, []), Ok(tag))
  }

  /** One command. Outside a transaction block the commands of a batch form an implicit
      transaction; COMMIT of a failed transaction rolls back and says so. */
  function Step(s: State, c: Command): Reply {
    match c
    case Begin(start) =>
      if s.tx == Failed then Fail(s)
      else Reply(s.(tx := Active), Ok(if start then StartTag else OtherTag))
    case Commit =>
      if s.tx == Failed then End(s, s.base, RollbackTag) else End(s, s.data, OtherTag)
    case Rollback => End(s, s.base, RollbackTag)
    case Savepoint(name) =>
      if s.tx != Active then Fail(s)
      else Reply(s.(svps := s.svps + [Svp(name, s.data)]), Ok(SavepointTag))
    case Release(name) =>
      var t := Through(s.svps, name);
      if s.tx != Active || t == [] then Fail(s) else Reply(s.(svps := Drop(t)), Ok(ReleaseTag))
    case RollbackTo(name) =>
      var t := Through(s.svps, name);
      if s.tx == Idle || t == [] then Fail(s)
      else Reply(s.(tx := Active, svps := t, data := Top(t).data), Ok(RollbackTag))
    case Work(id, fails) =>
      if s.tx == Failed || fails then Fail(s) else Reply(s.(data := s.data + [id]), Ok(OtherTag))
  }

  datatype Batch = Batch(state: State, results: seq<Result>)

  /** The commands of one query string, up to the first that fails. */
  function Steps(s: State, cmds: seq<Command>): Batch
    decreases cmds
  {
    if cmds == [] then Batch(s, [])
    else
      var r := Step(s, cmds[0]);
      if r.result == Err then Batch(r.state, [Err])
      else
        var rest := Steps(r.state, cmds[1..]);
        Batch(rest.state, [r.result] + rest.results)
  }

  /** The implicit transaction of a query string ends with it. */
  function Settle(s: State): State {
    if s.tx == Idle then s.(base := s.data) else s
  }

  function Run(s: State, cmds: seq<Command>): Batch {
    var b := Steps(s, cmds);
    Batch(Settle(b.state), b.results)
  }

  /** No savepoints outside a transaction block, and nothing pending between query strings. */
  predicate Proper(s: State) {
    s.tx == Idle ==> s.svps == []
  }

  predicate Settled(s: State) {
    s.tx == Idle ==> s.svps == [] && s.data == s.base
  }

  lemma {:induction false} StepsAppend(s: State, a: seq<Command>, b: seq<Command>)
    ensures var first := Steps(s, a);
            Steps(s, a + b) == if Err in first.results then first
                               else Batch(Steps(first.state, b).state, first.results + Steps(first.state, b).results)
    decreases a
  {
    if a == [] {
      assert a + b == b;
    } else {
      assert (a + b)[1..] == a[1..] + b;
      var r := Step(s, a[0]);
      if r.result != Err {
        StepsAppend(r.state, a[1..], b);
      }
    }
  }

  lemma {:induction false} StepsProper(s: State, cmds: seq<Command>)
    requires Proper(s)
    ensures Proper(Steps(s, cmds).state)
    ensures Err in Steps(s, cmds).results && Steps(s, cmds).state.tx == Idle ==>
              Steps(s, cmds).state.data == Steps(s, cmds).state.base
    ensures Err in Steps(s, cmds).results ==> Steps(s, cmds).state.tx != Active
    decreases cmds
  {
    if cmds != [] {
      var r := Step(s, cmds[0]);
      if r.result != Err {
        StepsProper(r.state, cmds[1..]);
      }
    }
  }

  // ---------------------------------------------------------------- what the application can see

  /** The stack without the driver's savepoints. */
  function UserSvps(s: seq<Svp>): seq<Svp> {
    if s == [] then []
    else if Top(s).name.User? then UserSvps(Drop(s)) + [Top(s)]
    else UserSvps(Drop(s))
  }

  function View(s: State): State {
    s.(svps := UserSvps(s.svps))
  }

  predicate UserCommand(c: Command) {
    (c.Savepoint? || c.RollbackTo? || c.Release?) ==> c.name.User?
  }

  predicate UserBatch(cmds: seq<Command>) {
    forall i :: 0 <= i < |cmds| ==> UserCommand(cmds[i])
  }

  lemma UserSvpsPush(s: seq<Svp>, p: Svp)
    ensures UserSvps(s + [p]) == if p.name.User? then UserSvps(s) + [p] else UserSvps(s)
  {
    assert Drop(s + [p]) == s;
  }

  lemma {:induction false} UserSvpsThrough(s: seq<Svp>, name: Name)
    requires name.User?
    ensures Through(UserSvps(s), name) == UserSvps(Through(s, name))
  {
    if s != [] && Top(s).name != name {
      UserSvpsThrough(Drop(s), name);
      if Top(s).name.User? {
        assert Drop(UserSvps(Drop(s)) + [Top(s)]) == UserSvps(Drop(s));
      }
    }
  }

  /** A command of the application does to its view what it does to the server. */
  lemma StepView(s: State, c: Command)
    requires UserCommand(c)
    ensures Step(View(s), c) == Reply(View(Step(s, c).state), Step(s, c).result)
  {
    match c
    case Savepoint(name) => UserSvpsPush(s.svps, Svp(name, s.data));
    case Release(name) =>
      UserSvpsThrough(s.svps, name);
      var t := Through(s.svps, name);
      if t != [] {
        assert Drop(UserSvps(Drop(t)) + [Top(t)]) == UserSvps(Drop(t));
      }
    case RollbackTo(name) => UserSvpsThrough(s.svps, name);
    case _ =>
  }

  /** The driver's savepoints are invisible: running the application's commands commutes with
      forgetting them. */
  lemma {:induction false} RunView(s: State, cmds: seq<Command>)
    requires UserBatch(cmds)
    ensures Steps(View(s), cmds) == Batch(View(Steps(s, cmds).state), Steps(s, cmds).results)
    ensures Run(View(s), cmds) == Batch(View(Run(s, cmds).state), Run(s, cmds).results)
    decreases cmds
  {
    if cmds != [] {
      StepView(s, cmds[0]);
      RunView(Step(s, cmds[0]).state, cmds[1..]);
    }
  }
}
