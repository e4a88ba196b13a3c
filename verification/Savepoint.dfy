/**
 The driver's transaction flags and its internal savepoint (connection.c, execute.c,
 connection.h), as functions of the connection's state and the server's.

 The connection is live, has no open cursors and no objects marked for discarding, and
 for_extension_connector is off.
 */
module SavepointProtocol {
  import opened CBytes
  import opened Server

  datatype Operation = NoOperation | SavepointInProgress | PrependInProgress

  /** `transact_status` (inTrans, inManual, inError), `internal_svp`, `internal_op`, `rbonerr`
      (accessed, started) and the read-only bit of `opt_in_progress` and `opt_previous`. */
  datatype Conn = Conn(
    inTrans: bool, inManual: bool, inError: bool,
    internalSvp: bool, internalOp: Operation,
    accessed: bool, started: bool,
    optInProgress: bool, optPrevious: bool)

  /** A new connection. */
  const FRESH := Conn(false, false, false, false, NoOperation, false, false, true, true)

  /** Connection options: extra_opts & BIT_IGNORE_ROUND_TRIP_TIME, and server version >= 8.0. */
  datatype Options = Options(ignoreRoundtrip: bool, since80: bool)

  datatype System = System(conn: Conn, server: State)

  // ---------------------------------------------------------------- small steps of the flags

  /** `CC_svp_init` and `CC_start_stmt` */
  function ResetSavepoint(c: Conn): Conn {
    c.(internalSvp := false, internalOp := NoOperation, optInProgress := true, optPrevious := true,
       accessed := false, started := false)
  }

  /** `CC_on_commit` and `CC_on_abort` with NO_TRANS */
  function OnEnd(c: Conn): Conn {
    ResetSavepoint(if c.inTrans then c.(inTrans := false, inError := false, inManual := false) else c)
  }

  /** `LIBPQ_update_transaction_status`, with the status that the server last reported. */
  function UpdateStatus(c: Conn, tx: Tx): Conn {
    match tx
    case Idle => if c.inTrans then OnEnd(c) else c
    case Active => c.(inTrans := true, inError := false)
    case Failed => c.(inTrans := true, inError := true)
  }

  /** `handle_pgres_error` for an error that leaves the connection usable; while results are still
      being read the transaction status is PQTRANS_ACTIVE. */
  function OnError(c: Conn): Conn {
    c.(inError := c.inTrans || c.inError, inTrans := true)
  }

  /** The connection and the three flags of the result loop of `CC_send_query_append`. */
  datatype Loop = Loop(conn: Conn, nextBegin: bool, nextSavepoint: bool, nextRelease: bool)

  /** One turn of the result loop. */
  function OnResult(l: Loop, r: Result): Loop {
    match r
    case Err => l.(conn := OnError(l.conn))
    case Ok(StartTag) =>
      l.(conn := l.conn.(inTrans := true, inManual := true), nextBegin := false)
    case Ok(SavepointTag) =>
      if l.nextSavepoint then l.(nextSavepoint := false, nextRelease := true)
      else if l.conn.internalOp == SavepointInProgress then
        l.(conn := l.conn.(started := true, internalSvp := true, internalOp := NoOperation))
      else l.(conn := l.conn.(internalSvp := false))
    case Ok(RollbackTag) =>
      l.(conn := l.conn.(inError := true, internalSvp := false, optPrevious := false, optInProgress := true))
    case Ok(ReleaseTag) =>
      if l.nextRelease then l.(nextRelease := false)
      else l.(conn := l.conn.(internalSvp := false))
    case Ok(OtherTag) => l
  }

  function OnResults(l: Loop, rs: seq<Result>): Loop
    decreases rs
  {
    if rs == [] then l else OnResults(OnResult(l, rs[0]), rs[1..])
  }

  /** `GenerateSvpCommand` for a savepoint: the previous one, if still in place, is released first. */
  function SavepointCommands(c: Conn): seq<Command> {
    (if c.internalSvp then [Release(Exec)] else []) + [Savepoint(Exec)]
  }

  /** `GenerateSvpCommand` for a rollback. */
  function RollbackCommand(c: Conn): Command {
    if c.internalSvp then RollbackTo(Exec) else Rollback
  }

  // ---------------------------------------------------------------- CC_internal_rollback

  datatype Outcome = Outcome(sys: System, ok: bool)

  /** PER_STATEMENT_ROLLBACK, with ignore_abort off */
  function StatementRollback(s: System): Outcome {
    if !s.conn.inError then Outcome(s, true)
    else
      var b := Run(s.server, [RollbackCommand(s.conn)]);
      var ok := Err !in b.results;
      var c := if ok then s.conn else s.conn.(inError := s.conn.inTrans || s.conn.inError);
      Outcome(System(UpdateStatus(c, b.state.tx), b.state), ok)
  }

  /** PER_QUERY_ROLLBACK: the command tags are not looked at, only errors are (after a first
      success an error is taken for a notice). */
  function QueryRollback(s: System): System {
    if !s.conn.inError then s
    else
      var b := Run(s.server, [RollbackTo(PerQuery), Release(PerQuery)]);
      var c := if b.results[0] == Err then OnError(s.conn)
               else if Err in b.results then s.conn.(inTrans := true)
               else s.conn;
      System(UpdateStatus(c, b.state.tx), b.state)
  }

  // ---------------------------------------------------------------- CC_send_query_append

  /** rb_or_tc of a statement, whether its type is SPECIAL or TRANSACTION. */
  datatype RollbackKind = NoRollback | TransactionRollback | StatementRollbackKind
  datatype Stmt = Stmt(kind: RollbackKind, special: bool)

  datatype Flags = Flags(goIntoTransaction: bool, rollbackOnError: bool, endWithCommit: bool, readOnly: bool)

  const NO_FLAGS := Flags(false, false, false, false)

  function IssueBegin(c: Conn, f: Flags): bool { f.goIntoTransaction && !c.inTrans }

  predicate ConsiderRollback(c: Conn, f: Flags, cmds: seq<Command>) {
    IssueBegin(c, f) || (c.inTrans && !c.inError) || (cmds != [] && cmds[0] == Begin(false))
  }

  predicate PerQuerySavepoint(o: Options, c: Conn, f: Flags, cmds: seq<Command>) {
    f.rollbackOnError && ConsiderRollback(c, f, cmds) && !f.endWithCommit && o.since80
  }

  /** The query string that is sent. */
  function QueryString(o: Options, c: Conn, f: Flags, cmds: seq<Command>): seq<Command> {
    var perQuery := PerQuerySavepoint(o, c, f, cmds);
    (if IssueBegin(c, f) then [Begin(true)]
     else if perQuery then [Savepoint(PerQuery)]
     else if c.internalOp == PrependInProgress then SavepointCommands(c)
     else [])
    + cmds
    + (if perQuery then [Release(PerQuery)] else [])
  }

  function InitialLoop(o: Options, c: Conn, f: Flags, cmds: seq<Command>): Loop {
    var perQuery := PerQuerySavepoint(o, c, f, cmds);
    Loop(if !IssueBegin(c, f) && !perQuery && c.internalOp == PrependInProgress
         then c.(internalOp := SavepointInProgress) else c,
         IssueBegin(c, f), !IssueBegin(c, f) && perQuery, false)
  }

  /** The rollback that ends a query with ROLLBACK_ON_ERROR. */
  function CleanUp(rollbackOnError: bool, perQuery: bool, l: Loop, s: State): System {
    var sent := System(l.conn, s);
    if !(rollbackOnError && l.conn.inTrans && !l.nextSavepoint) then sent
    else if perQuery then QueryRollback(sent)
    else if l.conn.inError then System(l.conn, Run(s, [Rollback]).state)
    else sent
  }

  /** Everything from the assembly of the query string on. */
  function Transmit(o: Options, s: System, f: Flags, cmds: seq<Command>): Outcome {
    var b := Run(s.server, QueryString(o, s.conn, f, cmds));
    var l := OnResults(InitialLoop(o, s.conn, f, cmds), b.results);
    var cleaned := CleanUp(f.rollbackOnError && ConsiderRollback(s.conn, f, cmds),
                           PerQuerySavepoint(o, s.conn, f, cmds), l, b.state);
    Outcome(System(UpdateStatus(cleaned.conn, cleaned.server.tx), cleaned.server), Err !in b.results)
  }

  /** The savepoint commands sent by themselves. */
  function SavepointAlone(o: Options, s: System): Outcome {
    var r := Transmit(o, System(s.conn.(internalOp := SavepointInProgress), s.server), NO_FLAGS, SavepointCommands(s.conn));
    Outcome(System(r.sys.conn.(internalOp := NoOperation), r.sys.server), r.ok)
  }

  /** `SetStatementSvp`; a savepoint of its own is a query without statement and flags. */
  function SetStatementSvp(o: Options, s: System, stmt: Stmt, readOnly: bool, reduceRoundtrip: bool): Outcome {
    if s.conn.inError then Outcome(s, true)
    else
      var c := s.conn.(optInProgress := s.conn.optInProgress && readOnly);
      if stmt.special then Outcome(System(c, s.server), true)
      else
        var r := TakeSavepoint(o, System(c, s.server), stmt, reduceRoundtrip);
        Outcome(System(r.sys.conn.(accessed := true), r.sys.server), r.ok)
  }

  function TakeSavepoint(o: Options, s: System, stmt: Stmt, reduceRoundtrip: bool): Outcome {
    if s.conn.started || s.conn.optPrevious || stmt.kind != StatementRollbackKind || !s.conn.inTrans
    then Outcome(s, true)
    else if reduceRoundtrip then Outcome(System(s.conn.(internalOp := PrependInProgress), s.server), true)
    else SavepointAlone(o, s)
  }

  predicate NeedsStatementSvp(o: Options, c: Conn, stmt: Option<Stmt>, f: Flags, cmds: seq<Command>) {
    && !PerQuerySavepoint(o, c, f, cmds) && ConsiderRollback(c, f, cmds) && !f.endWithCommit
    && stmt.Some? && !c.started
  }

  function Prepare(o: Options, s: System, stmt: Option<Stmt>, f: Flags, cmds: seq<Command>): Outcome {
    if NeedsStatementSvp(o, s.conn, stmt, f, cmds)
    then SetStatementSvp(o, s, stmt.value, f.readOnly, !o.ignoreRoundtrip)
    else Outcome(s, true)
  }

  /** `CC_send_query_append` for one query string; an empty one is not sent. */
  function Send(o: Options, s: System, stmt: Option<Stmt>, f: Flags, cmds: seq<Command>): Outcome {
    if cmds == [] then Outcome(s, false)
    else
      var r := Prepare(o, s, stmt, f, cmds);
      if r.ok then Transmit(o, r.sys, f, cmds)
      else Outcome(System(UpdateStatus(r.sys.conn, r.sys.server.tx), r.sys.server), false)
  }

  /** `CC_send_query_append`: when the round trip may be ignored the appended query goes separately. */
  function SendAppend(o: Options, s: System, stmt: Option<Stmt>, f: Flags,
                      cmds: seq<Command>, appended: seq<Command>): Outcome {
    if cmds != [] && appended != [] && o.ignoreRoundtrip then
      var r := Send(o, s, stmt, f, cmds);
      if r.ok then Send(o, r.sys, stmt, f.(goIntoTransaction := false), appended) else r
    else if cmds == [] then Outcome(s, false)
    else Send(o, s, stmt, f, cmds + appended)
  }

  // ---------------------------------------------------------------- DiscardStatementSvp

  datatype Return = Error | NeedData | Done

  /** `CC_abort` */
  function Abort(o: Options, s: System): System {
    if s.conn.inTrans then Send(o, s, None, NO_FLAGS, [Rollback]).sys else s
  }

  function FinishStatement(c: Conn, ret: Return): Conn {
    var d := if ret != Error && c.accessed then c.(optPrevious := c.optInProgress, optInProgress := true) else c;
    d.(accessed := false, started := false)
  }

  function DiscardStatementSvp(o: Options, s: System, stmt: Stmt, ret: Return, errorOnly: bool): System {
    var startStmt := ret == Error || (ret == Done && !errorOnly);
    var relevant := s.conn.accessed && s.conn.inTrans && stmt.kind != NoRollback;
    if relevant && ret != Error && errorOnly then s
    else
      var t :=
        if !relevant || ret != Error then s
        else if s.conn.started && s.conn.internalSvp then StatementRollback(s).sys
        else Abort(o, s);
      if startStmt then System(FinishStatement(t.conn, ret), t.server) else t
  }

  // ---------------------------------------------------------------- what every step keeps

  predicate TopIsExec(s: State) {
    s.svps != [] && Top(s.svps).name == Exec
  }

  predicate NoPerQuery(svps: seq<Svp>) {
    forall i :: 0 <= i < |svps| ==> svps[i].name != PerQuery
  }

  /** The flags match the server: in-transaction always, the error flag inside a transaction. */
  predicate Agrees(c: Conn, tx: Tx) {
    && (c.inTrans <==> tx != Idle)
    && (c.inTrans ==> (c.inError <==> tx == Failed))
  }

  /** Whenever `internal_svp` is set, the driver's savepoint is on top of the server's stack. */
  predicate Inv(s: System) {
    Sound(s) && s.conn.internalOp == NoOperation
  }

  predicate Sound(s: System) {
    && Settled(s.server)
    && Agrees(s.conn, s.server.tx)
    && (s.conn.internalSvp ==> TopIsExec(s.server))
    && NoPerQuery(s.server.svps)
  }

  /** How the driver's savepoint stands while a query string is executed with `internal_svp` set:
      on top of the stack, gone with a COMMIT, or gone in a transaction begun after a COMMIT. */
  datatype Phase = OnTop | Committed | Detached

  predicate InPhase(p: Phase, c: Conn, s: State) {
    c.internalSvp && c.inTrans && StackInPhase(p, s)
  }

  predicate StackInPhase(p: Phase, s: State) {
    match p
    case OnTop => s.tx == Active && TopIsExec(s)
    case Committed => s.tx == Idle && s.svps == []
    case Detached => s.tx == Active && s.svps == []
  }

  /** The query string ends with `internal_svp` set in a transaction that has no savepoint: it
      contains a COMMIT, later a BEGIN, and no successful savepoint command, ROLLBACK or further
      COMMIT that would have cleared the flag or the transaction. */
  predicate LeavesStale(p: Phase, cmds: seq<Command>)
    decreases cmds
  {
    if cmds == [] then p == Detached
    else match Next(p, cmds[0])
         case Continue(q) => LeavesStale(q, cmds[1..])
         case Stop(stale) => stale
  }

  datatype Verdict = Continue(phase: Phase) | Stop(stale: bool)

  function Next(p: Phase, c: Command): Verdict {
    if c.Commit? then Continue(Committed)
    else if c.Begin? then Continue(if p == OnTop then OnTop else Detached)
    else if c.Work? && !c.fails then Continue(p)
    else Stop(p == Detached && !c.Savepoint? && !c.Rollback?)
  }

  /** No COMMIT is followed by a BEGIN in the same query string. */
  predicate NoRestart(cmds: seq<Command>) {
    forall i, j :: 0 <= i < j < |cmds| && cmds[i].Commit? ==> !cmds[j].Begin?
  }

  lemma {:induction false} NoRestartNeverStale(p: Phase, cmds: seq<Command>)
    requires NoRestart(cmds) && p != Detached
    requires p == Committed ==> forall j :: 0 <= j < |cmds| ==> !cmds[j].Begin?
    ensures !LeavesStale(p, cmds)
    decreases cmds
  {
    if cmds != [] {
      var rest := cmds[1..];
      assert forall i, j :: 0 <= i < j < |rest| && rest[i].Commit? ==> !rest[j].Begin? by {
        forall i, j | 0 <= i < j < |rest| && rest[i].Commit?
          ensures !rest[j].Begin?
        {
          assert cmds[i + 1].Commit? && cmds[j + 1] == rest[j];
        }
      }
      if cmds[0].Commit? {
        forall j | 0 <= j < |rest|
          ensures !rest[j].Begin?
        {
          assert cmds[j + 1] == rest[j];
        }
        NoRestartNeverStale(Committed, rest);
      } else if p == OnTop {
        NoRestartNeverStale(OnTop, rest);
      } else {
        assert forall j :: 0 <= j < |rest| ==> !rest[j].Begin? by {
          forall j | 0 <= j < |rest| ensures !rest[j].Begin? { assert cmds[j + 1] == rest[j]; }
        }
        NoRestartNeverStale(Committed, rest);
      }
    }
  }

  /** Plain query strings: no flag of the loop is pending and no savepoint operation is. */
  predicate Plain(l: Loop) {
    !l.nextSavepoint && !l.nextRelease && l.conn.internalOp == NoOperation
  }

  lemma {:induction false} OnResultsAppend(l: Loop, a: seq<Result>, b: seq<Result>)
    ensures OnResults(l, a + b) == OnResults(OnResults(l, a), b)
    decreases a
  {
    if a == [] {
      assert a + b == b;
    } else {
      assert (a + b)[1..] == a[1..] + b;
      OnResultsAppend(OnResult(l, a[0]), a[1..], b);
    }
  }

  lemma {:induction false} ThroughPrefix(s: seq<Svp>, name: Name)
    ensures |Through(s, name)| <= |s| && Through(s, name) == s[..|Through(s, name)|]
  {
    if s != [] && Top(s).name != name {
      ThroughPrefix(Drop(s), name);
    }
  }

  /** The first command and its result, peeled off a query string. */
  lemma Unfold(l: Loop, s: State, cmds: seq<Command>)
    requires cmds != []
    ensures var r := Step(s, cmds[0]);
            var m := OnResult(l, r.result);
            if r.result == Err
            then Steps(s, cmds).state == r.state && OnResults(l, Steps(s, cmds).results) == m
            else Steps(s, cmds).state == Steps(r.state, cmds[1..]).state
                 && OnResults(l, Steps(s, cmds).results) == OnResults(m, Steps(r.state, cmds[1..]).results)
  {
    var r := Step(s, cmds[0]);
    var m := OnResult(l, r.result);
    if r.result == Err {
      assert [Err][1..] == [];
      assert OnResults(l, [Err]) == OnResults(m, []);
    } else {
      var rest := Steps(r.state, cmds[1..]);
      assert ([r.result] + rest.results)[1..] == rest.results;
    }
  }

  predicate Kept(l: Loop, m: Loop) {
    && Plain(m)
    && (l.conn.inTrans ==> m.conn.inTrans)
    && (!l.conn.internalSvp ==> !m.conn.internalSvp)
    && m.conn.started == l.conn.started && m.conn.accessed == l.conn.accessed
  }

  lemma ResultKept(l: Loop, r: Result)
    requires Plain(l)
    ensures Kept(l, OnResult(l, r))
  {
    match r
    case Err =>
    case Ok(tag) =>
      match tag
      case StartTag =>
      case SavepointTag =>
      case RollbackTag =>
      case ReleaseTag =>
      case OtherTag =>
  }

  lemma StepPlain(s: State, c: Command)
    requires UserCommand(c) && NoPerQuery(s.svps) && Proper(s)
    ensures NoPerQuery(Step(s, c).state.svps) && Proper(Step(s, c).state)
  {
    if c.Release? || c.RollbackTo? {
      ThroughPrefix(s.svps, c.name);
    }
  }

  /** What the application's commands cannot do: leave a savepoint of the per-query name behind,
      or clear the in-transaction flag before the query string is over. */
  lemma {:induction false} TrackPlain(l: Loop, s: State, cmds: seq<Command>)
    requires Plain(l) && UserBatch(cmds) && NoPerQuery(s.svps) && Proper(s)
    ensures var b := Steps(s, cmds);
            Kept(l, OnResults(l, b.results)) && NoPerQuery(b.state.svps) && Proper(b.state)
    decreases cmds
  {
    if cmds != [] {
      Unfold(l, s, cmds);
      StepPlain(s, cmds[0]);
      var r := Step(s, cmds[0]);
      ResultKept(l, r.result);
      if r.result != Err {
        TrackPlain(OnResult(l, r.result), r.state, cmds[1..]);
      }
    }
  }

  lemma ServerPhase(s: State, c: Command, p: Phase)
    requires UserCommand(c) && StackInPhase(p, s)
    ensures var r := Step(s, c);
            match Next(p, c)
            case Continue(q) => (r.result == Ok(StartTag) || r.result == Ok(OtherTag)) && StackInPhase(q, r.state)
            case Stop(true) => r.result == Err && r.state.tx != Idle && !TopIsExec(r.state)
            case Stop(false) =>
              if r.result == Err then r.state.tx == Idle || TopIsExec(r.state)
              else r.result.tag in {SavepointTag, RollbackTag, ReleaseTag}
  {
    match p
    case OnTop =>
    case Committed =>
    case Detached =>
  }

  lemma StepPhase(l: Loop, s: State, c: Command, p: Phase)
    requires Plain(l) && UserCommand(c) && InPhase(p, l.conn, s)
    ensures var r := Step(s, c);
            var m := OnResult(l, r.result);
            match Next(p, c)
            case Continue(q) => r.result != Err && Plain(m) && InPhase(q, m.conn, r.state)
            case Stop(true) => r.result == Err && m.conn.internalSvp && r.state.tx != Idle && !TopIsExec(r.state)
            case Stop(false) =>
              if r.result == Err then r.state.tx == Idle || TopIsExec(r.state)
              else Plain(m) && !m.conn.internalSvp
  {
    ServerPhase(s, c, p);
    ResultKept(l, Step(s, c).result);
  }

  /** The exact effect of the application's commands on a set `internal_svp`. */
  lemma {:induction false} TrackPhase(l: Loop, s: State, cmds: seq<Command>, p: Phase)
    requires Plain(l) && UserBatch(cmds) && InPhase(p, l.conn, s)
    ensures var b := Steps(s, cmds);
            OnResults(l, b.results).conn.internalSvp && b.state.tx != Idle && !TopIsExec(b.state)
            <==> LeavesStale(p, cmds)
    decreases cmds
  {
    if cmds != [] {
      Unfold(l, s, cmds);
      StepPhase(l, s, cmds[0], p);
      var r := Step(s, cmds[0]);
      var m := OnResult(l, r.result);
      match Next(p, cmds[0])
      case Continue(q) => TrackPhase(m, r.state, cmds[1..], q);
      case Stop(stale) =>
        if r.result != Err {
          ClearStays(m, Steps(r.state, cmds[1..]).results);
        }
    }
  }

  lemma {:induction false} ClearStays(l: Loop, rs: seq<Result>)
    requires Plain(l) && !l.conn.internalSvp
    ensures !OnResults(l, rs).conn.internalSvp
    decreases rs
  {
    if rs != [] {
      ResultKept(l, rs[0]);
      ClearStays(OnResult(l, rs[0]), rs[1..]);
    }
  }

  /** As long as `internal_svp` stays set over the driver's savepoint, the stack is as it was. */
  lemma {:induction false} TrackIntact(l: Loop, s: State, cmds: seq<Command>, p: Phase, svps: seq<Svp>, base: Data)
    requires Plain(l) && UserBatch(cmds) && InPhase(p, l.conn, s)
    requires p == OnTop ==> s.svps == svps && s.base == base
    ensures var b := Steps(s, cmds);
            OnResults(l, b.results).conn.internalSvp && b.state.tx != Idle && TopIsExec(b.state)
            ==> b.state.svps == svps && b.state.base == base
    decreases cmds
  {
    if cmds != [] {
      Unfold(l, s, cmds);
      StepPhase(l, s, cmds[0], p);
      StepIntact(s, cmds[0], p, l.conn);
      var r := Step(s, cmds[0]);
      var m := OnResult(l, r.result);
      match Next(p, cmds[0])
      case Continue(q) => TrackIntact(m, r.state, cmds[1..], q, svps, base);
      case Stop(stale) =>
        if r.result != Err {
          ClearStays(m, Steps(r.state, cmds[1..]).results);
        }
    }
  }

  lemma StepIntact(s: State, c: Command, p: Phase, conn: Conn)
    requires UserCommand(c) && InPhase(p, conn, s)
    ensures Step(s, c).result == Err || Next(p, c) == Continue(OnTop) ==>
              Step(s, c).state.svps == s.svps && (s.tx != Idle ==> Step(s, c).state.base == s.base)
    ensures Next(p, c) == Continue(OnTop) ==> p == OnTop
  {
  }

  /** In a failed transaction nothing but a rollback gets through. */
  lemma {:induction false} TrackFailed(l: Loop, s: State, cmds: seq<Command>)
    requires Plain(l) && UserBatch(cmds) && s.tx == Failed && TopIsExec(s)
    ensures var b := Steps(s, cmds);
            OnResults(l, b.results).conn.internalSvp ==> b.state.tx != Idle && TopIsExec(b.state)
  {
    if cmds != [] {
      Unfold(l, s, cmds);
      StepFailed(s, cmds[0]);
      var r := Step(s, cmds[0]);
      if r.result != Err {
        ResultKept(l, r.result);
        ClearStays(OnResult(l, r.result), Steps(r.state, cmds[1..]).results);
      }
    }
  }

  lemma StepFailed(s: State, c: Command)
    requires UserCommand(c) && s.tx == Failed
    ensures Step(s, c) == Reply(s, Err) || Step(s, c).result == Ok(RollbackTag)
  {
  }

  /** After the result loop the status update restores the invariant unless the flag is stale. */
  lemma EndOfQuery(m: Loop, s: State)
    requires Plain(m) && Proper(s) && NoPerQuery(s.svps)
    requires m.conn.internalSvp ==> m.conn.inTrans
    ensures var t := System(UpdateStatus(m.conn, s.tx), Settle(s));
            Inv(t) <==> !(m.conn.internalSvp && s.tx != Idle && !TopIsExec(s))
  {
  }

  // ---------------------------------------------------------------- the driver's savepoint

  /** The stack once the driver has set its savepoint (again). */
  function WithExec(c: Conn, s: State): State
    requires c.internalSvp ==> s.svps != []
  {
    s.(svps := (if c.internalSvp then Drop(s.svps) else s.svps) + [Svp(Exec, s.data)])
  }

  predicate ReadyForSavepoint(l: Loop, s: State) {
    && !l.nextSavepoint && !l.nextRelease && l.conn.internalOp == SavepointInProgress
    && s.tx == Active && (l.conn.internalSvp ==> TopIsExec(s))
  }

  /** The savepoint commands succeed, leave the application's view as it is, and set the flags. */
  lemma SavepointTaken(l: Loop, s: State)
    requires ReadyForSavepoint(l, s)
    ensures var b := Steps(s, SavepointCommands(l.conn));
            && Err !in b.results
            && b.state == WithExec(l.conn, s)
            && OnResults(l, b.results) == l.(conn := l.conn.(started := true, internalSvp := true, internalOp := NoOperation))
    ensures View(WithExec(l.conn, s)) == View(s)
  {
    var cmds := SavepointCommands(l.conn);
    UserSvpsPush(if l.conn.internalSvp then Drop(s.svps) else s.svps, Svp(Exec, s.data));
    if l.conn.internalSvp {
      assert cmds == [Release(Exec), Savepoint(Exec)];
      assert cmds[1..] == [Savepoint(Exec)];
      var s1 := Step(s, Release(Exec)).state;
      assert Through(s.svps, Exec) == s.svps;
      Unfold(l, s, cmds);
      Unfold(OnResult(l, Ok(ReleaseTag)), s1, [Savepoint(Exec)]);
      assert Steps(s1, [Savepoint(Exec)]).results == [Ok(SavepointTag)];
      assert Steps(s, cmds).results == [Ok(ReleaseTag), Ok(SavepointTag)];
    } else {
      assert cmds == [Savepoint(Exec)];
      Unfold(l, s, cmds);
      assert Steps(s, cmds).results == [Ok(SavepointTag)];
    }
  }

  /** A driver-issued RELEASE removes the driver's savepoint and nothing of the application's. */
  lemma ReleaseSafe(s: System)
    requires Inv(s) && s.conn.internalSvp && s.server.tx == Active
    ensures var r := Step(s.server, Release(Exec));
            r.result == Ok(ReleaseTag) && View(r.state) == View(s.server) && |r.state.svps| == |s.server.svps| - 1
  {
    assert Through(s.server.svps, Exec) == s.server.svps;
  }

  // ---------------------------------------------------------------- one query string

  /** The system when a query string has been executed from server state `s1` and loop state `l`. */
  function AfterPlain(l: Loop, s1: State, cmds: seq<Command>): System {
    var b := Steps(s1, cmds);
    System(UpdateStatus(OnResults(l, b.results).conn, b.state.tx), Settle(b.state))
  }

  lemma PlainCore(l: Loop, s1: State, cmds: seq<Command>)
    requires Plain(l) && UserBatch(cmds) && Proper(s1) && NoPerQuery(s1.svps)
    requires l.conn.internalSvp ==> l.conn.inTrans && s1.tx != Idle && TopIsExec(s1)
    ensures Inv(AfterPlain(l, s1, cmds))
       <==> !(l.conn.internalSvp && s1.tx == Active && LeavesStale(OnTop, cmds))
  {
    var b := Steps(s1, cmds);
    TrackPlain(l, s1, cmds);
    EndOfQuery(OnResults(l, b.results), b.state);
    if l.conn.internalSvp {
      if s1.tx == Active {
        TrackPhase(l, s1, cmds, OnTop);
      } else {
        TrackFailed(l, s1, cmds);
      }
    }
  }

  /** A savepoint of the driver is, or is about to be, on top of the stack of an open transaction. */
  predicate OnTopAtStart(s: System) {
    s.server.tx == Active && (s.conn.internalSvp || s.conn.internalOp == PrependInProgress)
  }

  /** The server when the application's commands begin, if the driver's savepoint is on top then. */
  function SavepointState(s: System): State
    requires s.conn.internalSvp ==> s.server.svps != []
  {
    if s.conn.internalOp == PrependInProgress then WithExec(s.conn, s.server) else s.server
  }

  predicate PlainQuery(s: System, f: Flags, cmds: seq<Command>) {
    && Sound(s) && UserBatch(cmds)
    && !(f.rollbackOnError && ConsiderRollback(s.conn, f, cmds))
    && (s.conn.internalOp == NoOperation || (s.conn.internalOp == PrependInProgress && s.server.tx == Active))
  }

  function BeginPrefix(c: Conn, f: Flags): seq<Command> {
    if IssueBegin(c, f) then [Begin(true)] else []
  }

  /** The loop and the server right before the application's commands, the automatic START
      TRANSACTION counted as one of them. */
  function PlainStart(o: Options, s: System, f: Flags, cmds: seq<Command>): Loop {
    var l := InitialLoop(o, s.conn, f, cmds);
    if s.conn.internalOp == PrependInProgress
    then l.(conn := l.conn.(started := true, internalSvp := true, internalOp := NoOperation)) else l
  }

  lemma TransmitUnfolds(o: Options, s: System, f: Flags, cmds: seq<Command>)
    requires PlainQuery(s, f, cmds)
    ensures Transmit(o, s, f, cmds).sys
         == AfterPlain(PlainStart(o, s, f, cmds), SavepointState(s), BeginPrefix(s.conn, f) + cmds)
    ensures Transmit(o, s, f, cmds).ok <==> Err !in Steps(SavepointState(s), BeginPrefix(s.conn, f) + cmds).results
  {
    var l := InitialLoop(o, s.conn, f, cmds);
    assert QueryString(o, s.conn, f, cmds) + [] == QueryString(o, s.conn, f, cmds);
    if s.conn.internalOp == PrependInProgress {
      var pre := SavepointCommands(s.conn);
      assert QueryString(o, s.conn, f, cmds) == pre + cmds;
      assert BeginPrefix(s.conn, f) + cmds == cmds;
      SavepointTaken(l, s.server);
      StepsAppend(s.server, pre, cmds);
      OnResultsAppend(l, Steps(s.server, pre).results, Steps(SavepointState(s), cmds).results);
    } else {
      assert QueryString(o, s.conn, f, cmds) == BeginPrefix(s.conn, f) + cmds;
    }
  }

  /** A query string without per-query savepoint keeps the invariant unless it restarts the
      transaction underneath a savepoint of the driver. */
  lemma TransmitInvariant(o: Options, s: System, f: Flags, cmds: seq<Command>)
    requires PlainQuery(s, f, cmds)
    ensures Inv(Transmit(o, s, f, cmds).sys) <==> !(OnTopAtStart(s) && LeavesStale(OnTop, cmds))
  {
    TransmitUnfolds(o, s, f, cmds);
    var all := BeginPrefix(s.conn, f) + cmds;
    StackWithExec(s);
    PlainCore(PlainStart(o, s, f, cmds), SavepointState(s), all);
    if !IssueBegin(s.conn, f) {
      assert all == cmds;
    }
  }

  lemma StackWithExec(s: System)
    requires Sound(s) && (s.conn.internalOp == PrependInProgress ==> s.server.tx == Active)
    ensures NoPerQuery(SavepointState(s).svps) && Proper(SavepointState(s))
    ensures s.conn.internalOp == PrependInProgress ==> TopIsExec(SavepointState(s))
    ensures SavepointState(s).tx == s.server.tx
    ensures View(SavepointState(s)) == View(s.server)
  {
    UserSvpsPush(if s.conn.internalSvp then Drop(s.server.svps) else s.server.svps, Svp(Exec, s.server.data));
  }

  /** Transparency: seen without the driver's savepoints, the server ends up exactly where the
      application's own commands take it, with the same outcome. */
  lemma TransmitTransparent(o: Options, s: System, f: Flags, cmds: seq<Command>)
    requires PlainQuery(s, f, cmds)
    ensures var seen := Run(View(s.server), BeginPrefix(s.conn, f) + cmds);
            View(Transmit(o, s, f, cmds).sys.server) == seen.state
            && (Transmit(o, s, f, cmds).ok <==> Err !in seen.results)
  {
    TransmitUnfolds(o, s, f, cmds);
    StackWithExec(s);
    var all := BeginPrefix(s.conn, f) + cmds;
    assert UserBatch(all);
    RunView(SavepointState(s), all);
  }

  /** The statement gets a savepoint of its own: the exact condition. The last conjunct fails when the
      statement before it was read-only, also if older statements were not (`AfterStatement`). */
  predicate GetsSavepoint(o: Options, c: Conn, stmt: Option<Stmt>, f: Flags, cmds: seq<Command>) {
    && NeedsStatementSvp(o, c, stmt, f, cmds)
    && stmt.value.kind == StatementRollbackKind && !stmt.value.special
    && c.inTrans && !c.inError && !c.optPrevious
  }

  lemma SeparateSavepoint(o: Options, s: System)
    requires Sound(s) && s.server.tx == Active
    ensures SavepointAlone(o, s)
         == Outcome(System(s.conn.(started := true, internalSvp := true, internalOp := NoOperation),
                           WithExec(s.conn, s.server)), true)
  {
    var t := System(s.conn.(internalOp := SavepointInProgress), s.server);
    var pre := SavepointCommands(s.conn);
    assert pre == SavepointCommands(t.conn);
    TransmitBare(o, t, pre);
    SavepointTaken(Loop(t.conn, false, false, false), s.server);
  }

  lemma TransmitBare(o: Options, s: System, cmds: seq<Command>)
    requires s.conn.internalOp != PrependInProgress
    ensures Transmit(o, s, NO_FLAGS, cmds).sys == AfterPlain(Loop(s.conn, false, false, false), s.server, cmds)
    ensures Transmit(o, s, NO_FLAGS, cmds).ok <==> Err !in Steps(s.server, cmds).results
  {
    assert QueryString(o, s.conn, NO_FLAGS, cmds) == cmds;
    assert InitialLoop(o, s.conn, NO_FLAGS, cmds) == Loop(s.conn, false, false, false);
  }

  /** `SetStatementSvp` succeeds, keeps the invariant and what the application sees, and puts the
      savepoint on top, or prepares to, exactly under `GetsSavepoint`. */
  predicate WellPrepared(o: Options, s: System, stmt: Option<Stmt>, f: Flags, cmds: seq<Command>, r: Outcome)
    requires Inv(s)
  {
    && r.ok && Sound(r.sys)
    && r.sys.conn.inTrans == s.conn.inTrans && r.sys.conn.inError == s.conn.inError
    && r.sys.server.tx == s.server.tx && View(r.sys.server) == View(s.server)
    && (r.sys.conn.internalOp == PrependInProgress ==> r.sys.server.tx == Active)
    && r.sys.conn.internalOp != SavepointInProgress
    && if GetsSavepoint(o, s.conn, stmt, f, cmds) then
         OnTopAtStart(r.sys) && SavepointState(r.sys) == WithExec(s.conn, s.server)
         && r.sys.conn.accessed && (r.sys.conn.started || r.sys.conn.internalOp == PrependInProgress)
       else
         r.sys.conn.internalOp == NoOperation && r.sys.server == s.server
         && r.sys.conn.internalSvp == s.conn.internalSvp && r.sys.conn.started == s.conn.started
         && (NeedsStatementSvp(o, s.conn, stmt, f, cmds) && !s.conn.inError && !stmt.value.special
             ==> r.sys.conn.accessed)
  }

  lemma PrepareSeparate(o: Options, s: System, stmt: Option<Stmt>, f: Flags, cmds: seq<Command>)
    requires Inv(s) && GetsSavepoint(o, s.conn, stmt, f, cmds) && o.ignoreRoundtrip
    ensures WellPrepared(o, s, stmt, f, cmds, Prepare(o, s, stmt, f, cmds))
  {
    var c := s.conn.(optInProgress := s.conn.optInProgress && f.readOnly);
    SeparateSavepoint(o, System(c, s.server));
    assert WithExec(c, s.server) == WithExec(s.conn, s.server);
    SeparateWell(o, s, stmt, f, cmds, c);
  }

  lemma SeparateWell(o: Options, s: System, stmt: Option<Stmt>, f: Flags, cmds: seq<Command>, c: Conn)
    requires Inv(s) && GetsSavepoint(o, s.conn, stmt, f, cmds)
    requires c == s.conn.(optInProgress := c.optInProgress)
    ensures WellPrepared(o, s, stmt, f, cmds,
                         Outcome(System(c.(started := true, internalSvp := true, accessed := true),
                                        WithExec(s.conn, s.server)), true))
  {
    UserSvpsPush(if s.conn.internalSvp then Drop(s.server.svps) else s.server.svps, Svp(Exec, s.server.data));
  }

  lemma PrepareReduced(o: Options, s: System, stmt: Option<Stmt>, f: Flags, cmds: seq<Command>)
    requires Inv(s) && GetsSavepoint(o, s.conn, stmt, f, cmds) && !o.ignoreRoundtrip
    ensures WellPrepared(o, s, stmt, f, cmds, Prepare(o, s, stmt, f, cmds))
  {
  }

  lemma PrepareNothing(o: Options, s: System, stmt: Option<Stmt>, f: Flags, cmds: seq<Command>)
    requires Inv(s) && !GetsSavepoint(o, s.conn, stmt, f, cmds)
    ensures WellPrepared(o, s, stmt, f, cmds, Prepare(o, s, stmt, f, cmds))
  {
  }

  lemma PrepareSound(o: Options, s: System, stmt: Option<Stmt>, f: Flags, cmds: seq<Command>)
    requires Inv(s)
    ensures WellPrepared(o, s, stmt, f, cmds, Prepare(o, s, stmt, f, cmds))
  {
    if !GetsSavepoint(o, s.conn, stmt, f, cmds) {
      PrepareNothing(o, s, stmt, f, cmds);
    } else if o.ignoreRoundtrip {
      PrepareSeparate(o, s, stmt, f, cmds);
    } else {
      PrepareReduced(o, s, stmt, f, cmds);
    }
  }

  /** The same for the query string that follows: the start of a plain query. */
  lemma PreparedQuery(o: Options, s: System, stmt: Option<Stmt>, f: Flags, cmds: seq<Command>)
    requires Inv(s) && UserBatch(cmds) && !f.rollbackOnError
    ensures var t := Prepare(o, s, stmt, f, cmds).sys;
            && PlainQuery(t, f, cmds)
            && BeginPrefix(t.conn, f) == BeginPrefix(s.conn, f)
            && (OnTopAtStart(t) <==> s.server.tx == Active
                                     && (s.conn.internalSvp || GetsSavepoint(o, s.conn, stmt, f, cmds)))
  {
    PrepareSound(o, s, stmt, f, cmds);
  }

  /** The invariant over one query of the application, exactly. */
  lemma SendInvariant(o: Options, s: System, stmt: Option<Stmt>, f: Flags, cmds: seq<Command>)
    requires Inv(s) && UserBatch(cmds) && !f.rollbackOnError && cmds != []
    ensures Inv(Send(o, s, stmt, f, cmds).sys)
       <==> !(s.server.tx == Active && (s.conn.internalSvp || GetsSavepoint(o, s.conn, stmt, f, cmds))
              && LeavesStale(OnTop, cmds))
  {
    PrepareSound(o, s, stmt, f, cmds);
    PreparedQuery(o, s, stmt, f, cmds);
    TransmitInvariant(o, Prepare(o, s, stmt, f, cmds).sys, f, cmds);
  }

  /** Transparency of one query of the application. */
  lemma SendTransparent(o: Options, s: System, stmt: Option<Stmt>, f: Flags, cmds: seq<Command>)
    requires Inv(s) && UserBatch(cmds) && !f.rollbackOnError && cmds != []
    ensures var seen := Run(View(s.server), BeginPrefix(s.conn, f) + cmds);
            View(Send(o, s, stmt, f, cmds).sys.server) == seen.state
            && (Send(o, s, stmt, f, cmds).ok <==> Err !in seen.results)
  {
    PrepareSound(o, s, stmt, f, cmds);
    PreparedQuery(o, s, stmt, f, cmds);
    TransmitTransparent(o, Prepare(o, s, stmt, f, cmds).sys, f, cmds);
  }

  /** A COMMIT and a new START TRANSACTION in one query string leave the flag set with no savepoint
      below it; the RELEASE that precedes the next savepoint then fails and takes the new
      transaction with it. */
  lemma RestartBreaks(o: Options, s: System)
    requires Inv(s) && s.conn.internalSvp && s.server.tx == Active
    ensures var t := Send(o, s, None, NO_FLAGS, [Commit, Begin(true)]).sys;
            && t.conn.internalSvp && t.server.tx == Active && t.server.svps == [] && !Inv(t)
            && Run(t.server, SavepointCommands(t.conn)).state.tx == Failed
  {
    var cmds := [Commit, Begin(true)];
    assert cmds[1..] == [Begin(true)] && cmds[1..][1..] == [];
    assert LeavesStale(OnTop, cmds) by {
      assert LeavesStale(Committed, [Begin(true)]);
    }
    assert Prepare(o, s, None, NO_FLAGS, cmds) == Outcome(s, true);
    TransmitUnfolds(o, s, NO_FLAGS, cmds);
    assert BeginPrefix(s.conn, NO_FLAGS) + cmds == cmds;
    var l := PlainStart(o, s, NO_FLAGS, cmds);
    Unfold(l, s.server, cmds);
    var s1 := Step(s.server, Commit).state;
    Unfold(l, s1, [Begin(true)]);
    assert Steps(s.server, cmds).state.tx == Active;
  }

  // ---------------------------------------------------------------- queries with a savepoint of their own

  predicate AllWork(cmds: seq<Command>) {
    forall i :: 0 <= i < |cmds| ==> cmds[i].Work?
  }

  /** Ordinary commands in an open transaction append their effects until one fails. */
  lemma {:induction false} WorkOnly(l: Loop, s: State, cmds: seq<Command>)
    requires AllWork(cmds) && s.tx == Active
    ensures var b := Steps(s, cmds);
            var m := OnResults(l, b.results);
            && b.state == s.(tx := b.state.tx, data := b.state.data)
            && (if Err in b.results then b.state.tx == Failed && m == l.(conn := OnError(l.conn))
                else b.state.tx == Active && m == l)
    decreases cmds
  {
    if cmds != [] {
      Unfold(l, s, cmds);
      var r := Step(s, cmds[0]);
      if r.result != Err {
        WorkOnly(l, r.state, cmds[1..]);
        var rest := Steps(r.state, cmds[1..]);
        assert Err in ([r.result] + rest.results) <==> Err in rest.results;
      }
    }
  }

  /** The server with the per-query savepoint pushed. */
  function WithPerQuery(s: State): State {
    s.(svps := s.svps + [Svp(PerQuery, s.data)])
  }

  lemma PerQueryStack(s: State, t: State)
    requires s.tx == Active && t.svps == WithPerQuery(s).svps && t.tx != Idle && NoPerQuery(s.svps)
    ensures t.tx == Active ==> Step(t, Release(PerQuery)) == Reply(t.(svps := s.svps), Ok(ReleaseTag))
    ensures Run(t, [RollbackTo(PerQuery), Release(PerQuery)])
         == Batch(t.(tx := Active, data := s.data, svps := s.svps), [Ok(RollbackTag), Ok(ReleaseTag)])
    ensures View(WithPerQuery(s)) == View(s)
  {
    assert Through(t.svps, PerQuery) == t.svps && Drop(t.svps) == s.svps;
    UserSvpsPush(s.svps, Svp(PerQuery, s.data));
    var t1 := t.(tx := Active, data := s.data);
    var cmds := [RollbackTo(PerQuery), Release(PerQuery)];
    assert cmds[1..] == [Release(PerQuery)] && [Release(PerQuery)][1..] == [];
    assert Step(t, RollbackTo(PerQuery)) == Reply(t1, Ok(RollbackTag));
    assert Steps(t1, [Release(PerQuery)]) == Batch(t1.(svps := s.svps), [Ok(ReleaseTag)] + []);
    assert Steps(t, cmds).results == [Ok(RollbackTag)] + ([Ok(ReleaseTag)] + []);
  }

  predicate PerQueryCase(o: Options, s: System, f: Flags, cmds: seq<Command>) {
    && Inv(s) && s.server.tx == Active && AllWork(cmds) && cmds != []
    && o.since80 && f.rollbackOnError && !f.goIntoTransaction && !f.endWithCommit
  }

  /** The result loop of such a query: the savepoint is set and the commands run above it. */
  lemma PerQueryLoop(o: Options, s: System, f: Flags, cmds: seq<Command>)
    requires PerQueryCase(o, s, f, cmds)
    ensures var q := QueryString(o, s.conn, f, cmds);
            var b := Steps(s.server, q);
            var w := Steps(WithPerQuery(s.server), cmds);
            var m := OnResults(InitialLoop(o, s.conn, f, cmds), b.results);
            && (Err in b.results <==> Err in w.results)
            && (if Err in w.results
                then b.state == w.state && m == Loop(OnError(s.conn), false, false, true)
                else b.state == w.state.(svps := s.server.svps) && m == Loop(s.conn, false, false, false))
  {
    var pre, post := [Savepoint(PerQuery)], [Release(PerQuery)];
    var l := InitialLoop(o, s.conn, f, cmds);
    var s1 := WithPerQuery(s.server);
    var l1 := Loop(s.conn, false, false, true);
    var w := Steps(s1, cmds);
    assert QueryString(o, s.conn, f, cmds) == pre + (cmds + post);
    assert l == Loop(s.conn, false, true, false);
    Unfold(l, s.server, pre + (cmds + post));
    assert (pre + (cmds + post))[1..] == cmds + post;
    assert Step(s.server, Savepoint(PerQuery)) == Reply(s1, Ok(SavepointTag));
    assert OnResult(l, Ok(SavepointTag)) == l1;
    assert Steps(s.server, pre + (cmds + post)).results == [Ok(SavepointTag)] + Steps(s1, cmds + post).results;
    WorkOnly(l1, s1, cmds);
    StepsAppend(s1, cmds, post);
    if Err !in w.results {
      PerQueryStack(s.server, w.state);
      OnResultsAppend(l1, w.results, Steps(w.state, post).results);
      Unfold(l1, w.state, post);
      assert post[1..] == [];
      assert Steps(w.state, post).results == [Ok(ReleaseTag)];
    }
  }

  /** A query of the driver with its own savepoint: it takes effect as a whole or not at all, and the
      invariant is kept. */
  lemma TransmitPerQuery(o: Options, s: System, f: Flags, cmds: seq<Command>)
    requires PerQueryCase(o, s, f, cmds)
    ensures var r := Transmit(o, s, f, cmds);
            && Inv(r.sys)
            && r.sys.server.tx == Active
            && (r.ok <==> Err !in Run(View(s.server), cmds).results)
            && View(r.sys.server) == (if r.ok then Run(View(s.server), cmds).state else View(s.server))
  {
    PerQueryResult(o, s, f, cmds);
    var w := Steps(WithPerQuery(s.server), cmds);
    WorkOnly(InitialLoop(o, s.conn, f, cmds), WithPerQuery(s.server), cmds);
    PerQueryStack(s.server, w.state);
    RunView(WithPerQuery(s.server), cmds);
    UserSvpsPush(s.server.svps, Svp(PerQuery, s.server.data));
  }

  lemma PerQueryResult(o: Options, s: System, f: Flags, cmds: seq<Command>)
    requires PerQueryCase(o, s, f, cmds)
    ensures var w := Steps(WithPerQuery(s.server), cmds);
            Transmit(o, s, f, cmds)
            == Outcome(System(s.conn, if Err in w.results then s.server else w.state.(svps := s.server.svps)),
                       Err !in w.results)
  {
    PerQueryLoop(o, s, f, cmds);
    var w := Steps(WithPerQuery(s.server), cmds);
    WorkOnly(InitialLoop(o, s.conn, f, cmds), WithPerQuery(s.server), cmds);
    if Err in w.results {
      PerQueryUndone(s, w.state);
    } else {
      PerQueryDone(s, w.state.(svps := s.server.svps));
    }
  }

  lemma PerQueryUndone(s: System, t: State)
    requires Inv(s) && s.server.tx == Active && t == WithPerQuery(s.server).(tx := Failed, data := t.data)
    ensures Settle(t) == t
    ensures var c := CleanUp(true, true, Loop(OnError(s.conn), false, false, true), t);
            c == s && UpdateStatus(c.conn, c.server.tx) == s.conn
  {
    PerQueryStack(s.server, t);
    assert t.(tx := Active, data := s.server.data, svps := s.server.svps) == s.server;
  }

  lemma PerQueryDone(s: System, t: State)
    requires Inv(s) && s.server.tx == Active && t.tx == Active
    ensures Settle(t) == t
    ensures CleanUp(true, true, Loop(s.conn, false, false, false), t) == System(s.conn, t)
    ensures UpdateStatus(s.conn, t.tx) == s.conn
  {
  }
}
