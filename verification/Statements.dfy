/**
 Statements and whole runs on a connection: statement-level rollback on top of the savepoint
 protocol, and what holds after any sequence of actions.
 */
module StatementProtocol {
  import opened CBytes
  import opened Server
  import opened SavepointProtocol

  // ---------------------------------------------------------------- statements

  lemma AbortEnds(o: Options, s: System)
    requires Inv(s)
    ensures Inv(Abort(o, s))
    ensures s.server.tx != Idle ==> Abort(o, s).server == State(Idle, s.server.base, s.server.base, [])
  {
    if s.conn.inTrans {
      var cmds := [Rollback];
      SendInvariant(o, s, None, NO_FLAGS, cmds);
      PrepareSound(o, s, None, NO_FLAGS, cmds);
      TransmitUnfolds(o, s, NO_FLAGS, cmds);
      assert BeginPrefix(s.conn, NO_FLAGS) + cmds == cmds;
      assert cmds[1..] == [];
      assert Steps(s.server, cmds).state == Step(s.server, Rollback).state;
    }
  }

  lemma StatementRollbackRestores(s: System)
    requires Inv(s) && s.server.tx == Failed
    ensures Inv(StatementRollback(s).sys) && StatementRollback(s).ok
    ensures s.conn.internalSvp ==>
              StatementRollback(s).sys.server == s.server.(tx := Active, data := Top(s.server.svps).data)
    ensures !s.conn.internalSvp ==> StatementRollback(s).sys.server.tx == Idle
  {
    var c := RollbackCommand(s.conn);
    assert [c][1..] == [];
    if s.conn.internalSvp {
      assert Through(s.server.svps, Exec) == s.server.svps;
      assert Step(s.server, c) == Reply(s.server.(tx := Active, data := Top(s.server.svps).data), Ok(RollbackTag));
    }
    assert Steps(s.server, [c]) == Batch(Step(s.server, c).state, [Step(s.server, c).result] + []);
  }

  /** `DiscardStatementSvp` keeps the invariant in every case. */
  lemma DiscardKeeps(o: Options, s: System, stmt: Stmt, ret: Return, errorOnly: bool)
    requires Inv(s)
    ensures Inv(DiscardStatementSvp(o, s, stmt, ret, errorOnly))
  {
    AbortEnds(o, s);
    if s.conn.inError && s.server.tx == Failed {
      StatementRollbackRestores(s);
    }
  }

  /** What the flags `started` and `accessed` are after a query that leaves the transaction open. */
  lemma SendMarks(o: Options, s: System, stmt: Stmt, f: Flags, cmds: seq<Command>)
    requires Inv(s) && UserBatch(cmds) && !f.rollbackOnError && !f.endWithCommit && cmds != []
    requires s.server.tx == Active && !stmt.special && !s.conn.started
    ensures var r := Send(o, s, Some(stmt), f, cmds).sys;
            r.server.tx != Idle ==>
              r.conn.accessed && (r.conn.started <==> GetsSavepoint(o, s.conn, Some(stmt), f, cmds))
  {
    hide Steps, Step, OnResults, TakeSavepoint, LeavesStale, UserSvps, SavepointCommands, Transmit;
    PrepareSound(o, s, Some(stmt), f, cmds);
    PreparedQuery(o, s, Some(stmt), f, cmds);
    var t := Prepare(o, s, Some(stmt), f, cmds).sys;
    TransmitUnfolds(o, t, f, cmds);
    StackWithExec(t);
    assert BeginPrefix(t.conn, f) + cmds == cmds;
    TrackPlain(PlainStart(o, t, f, cmds), SavepointState(t), cmds);
  }

  /** With the flag still set at the end, the stack is the one the savepoint completed. */
  lemma SendIntact(o: Options, s: System, stmt: Option<Stmt>, f: Flags, cmds: seq<Command>)
    requires Inv(s) && UserBatch(cmds) && !f.rollbackOnError && cmds != []
    requires GetsSavepoint(o, s.conn, stmt, f, cmds) && !LeavesStale(OnTop, cmds)
    ensures var r := Send(o, s, stmt, f, cmds).sys;
            r.conn.internalSvp ==> r.server.svps == WithExec(s.conn, s.server).svps && r.server.base == s.server.base
  {
    PrepareSound(o, s, stmt, f, cmds);
    PreparedQuery(o, s, stmt, f, cmds);
    SendInvariant(o, s, stmt, f, cmds);
    var t := Prepare(o, s, stmt, f, cmds).sys;
    TransmitUnfolds(o, t, f, cmds);
    StackWithExec(t);
    assert BeginPrefix(t.conn, f) + cmds == cmds;
    var w := SavepointState(t);
    TrackIntact(PlainStart(o, t, f, cmds), w, cmds, OnTop, w.svps, w.base);
  }

  lemma SendFailureState(o: Options, s: System, stmt: Option<Stmt>, f: Flags, cmds: seq<Command>)
    requires Inv(s) && UserBatch(cmds) && !f.rollbackOnError && cmds != []
    requires !Send(o, s, stmt, f, cmds).ok
    ensures Send(o, s, stmt, f, cmds).sys.server.tx != Active
  {
    PrepareSound(o, s, stmt, f, cmds);
    PreparedQuery(o, s, stmt, f, cmds);
    var t := Prepare(o, s, stmt, f, cmds).sys;
    TransmitUnfolds(o, t, f, cmds);
    StackWithExec(t);
    StepsProper(SavepointState(t), BeginPrefix(t.conn, f) + cmds);
  }

  /** One statement with statement-level rollback: the query and the `DiscardStatementSvp` after it. */
  function ExecuteStatement(o: Options, s: System, stmt: Stmt, f: Flags, cmds: seq<Command>): System {
    var r := Send(o, s, Some(stmt), f, cmds);
    DiscardStatementSvp(o, r.sys, stmt, if r.ok then Done else Error, false)
  }

  /** Statement atomicity, in an open transaction: a successful statement has exactly the effect of its
      commands; after a failure that leaves the transaction open, everything the application can see
      is as before the statement if the statement got a savepoint and did not disturb it, and
      otherwise the whole transaction has been rolled back. */
  lemma StatementAtomicity(o: Options, s: System, stmt: Stmt, f: Flags, cmds: seq<Command>)
    requires Inv(s) && s.server.tx == Active && !s.conn.started
    requires stmt.kind == StatementRollbackKind && !stmt.special
    requires UserBatch(cmds) && cmds != [] && !f.rollbackOnError && !f.endWithCommit && !LeavesStale(OnTop, cmds)
    ensures var r := Send(o, s, Some(stmt), f, cmds);
            var t := ExecuteStatement(o, s, stmt, f, cmds);
            && Inv(t)
            && (r.ok ==> View(t.server) == Run(View(s.server), cmds).state)
            && (!r.ok && r.sys.server.tx != Idle ==>
                  if GetsSavepoint(o, s.conn, Some(stmt), f, cmds) && r.sys.conn.internalSvp
                  then View(t.server) == View(s.server)
                  else t.server == State(Idle, r.sys.server.base, r.sys.server.base, []))
  {
    hide Steps, Step, OnResults, TakeSavepoint, LeavesStale, Prepare, Transmit, Through;
    var r := Send(o, s, Some(stmt), f, cmds);
    SendInvariant(o, s, Some(stmt), f, cmds);
    SendTransparent(o, s, Some(stmt), f, cmds);
    assert BeginPrefix(s.conn, f) + cmds == cmds;
    DiscardKeeps(o, r.sys, stmt, if r.ok then Done else Error, false);
    if !r.ok && r.sys.server.tx != Idle {
      SendMarks(o, s, stmt, f, cmds);
      SendFailureState(o, s, Some(stmt), f, cmds);
      if GetsSavepoint(o, s.conn, Some(stmt), f, cmds) && r.sys.conn.internalSvp {
        SendIntact(o, s, Some(stmt), f, cmds);
        StatementRollbackRestores(r.sys);
        UserSvpsPush(if s.conn.internalSvp then Drop(s.server.svps) else s.server.svps, Svp(Exec, s.server.data));
        assert s.conn.internalSvp ==> UserSvps(s.server.svps) == UserSvps(Drop(s.server.svps));
      } else {
        AbortEnds(o, r.sys);
      }
    }
  }

  /** A failing statement without transaction or savepoint commands: the open transaction survives it,
      unchanged, if and only if the statement got a savepoint. */
  lemma FailingStatement(o: Options, s: System, stmt: Stmt, f: Flags, cmds: seq<Command>)
    requires Inv(s) && s.server.tx == Active && !s.conn.started
    requires stmt.kind == StatementRollbackKind && !stmt.special
    requires AllWork(cmds) && !f.rollbackOnError && !f.endWithCommit
    requires exists i :: 0 <= i < |cmds| && cmds[i].fails
    ensures var t := ExecuteStatement(o, s, stmt, f, cmds).server;
            && (GetsSavepoint(o, s.conn, Some(stmt), f, cmds) ==> View(t) == View(s.server))
            && (!GetsSavepoint(o, s.conn, Some(stmt), f, cmds) ==> t == State(Idle, s.server.base, s.server.base, []))
  {
    var r := Send(o, s, Some(stmt), f, cmds);
    WorkNeverStale(cmds);
    StatementAtomicity(o, s, stmt, f, cmds);
    PrepareSound(o, s, Some(stmt), f, cmds);
    PreparedQuery(o, s, Some(stmt), f, cmds);
    var t := Prepare(o, s, Some(stmt), f, cmds).sys;
    TransmitUnfolds(o, t, f, cmds);
    assert BeginPrefix(t.conn, f) + cmds == cmds;
    StackWithExec(t);
    WorkOnly(PlainStart(o, t, f, cmds), SavepointState(t), cmds);
    SomeFails(SavepointState(t), cmds);
  }

  lemma {:induction false} WorkNeverStale(cmds: seq<Command>)
    requires AllWork(cmds)
    ensures !LeavesStale(OnTop, cmds)
  {
    if cmds != [] {
      WorkNeverStale(cmds[1..]);
    }
  }

  lemma {:induction false} SomeFails(s: State, cmds: seq<Command>)
    requires exists i :: 0 <= i < |cmds| && cmds[i].Work? && cmds[i].fails
    ensures Err in Steps(s, cmds).results
    decreases cmds
  {
    var i :| 0 <= i < |cmds| && cmds[i].Work? && cmds[i].fails;
    var r := Step(s, cmds[0]);
    if r.result != Err {
      assert i > 0 && cmds[1..][i - 1] == cmds[i];
      SomeFails(r.state, cmds[1..]);
    }
  }

  // ---------------------------------------------------------------- read-only statements

  /** A statement of ordinary commands in an open transaction. */
  predicate Ordinary(s: System, stmt: Stmt, f: Flags, cmds: seq<Command>) {
    && Inv(s) && s.server.tx == Active && !s.conn.started
    && stmt == Stmt(StatementRollbackKind, false) && !f.rollbackOnError && !f.endWithCommit && cmds != [] && AllWork(cmds)
  }

  predicate AllSucceed(cmds: seq<Command>) { forall i :: 0 <= i < |cmds| ==> cmds[i].Work? && !cmds[i].fails }

  lemma {:induction false} NoneFails(s: State, cmds: seq<Command>)
    requires AllSucceed(cmds) && s.tx == Active
    ensures Err !in Steps(s, cmds).results
    decreases cmds
  {
    if cmds != [] {
      NoneFails(Step(s, cmds[0]).state, cmds[1..]);
    }
  }

  /** `SetStatementSvp` notes whether the statement is read-only. */
  lemma PreparedOptions(o: Options, s: System, stmt: Stmt, f: Flags, cmds: seq<Command>)
    requires Ordinary(s, stmt, f, cmds)
    ensures var c := Prepare(o, s, Some(stmt), f, cmds).sys.conn;
            c.optInProgress == (s.conn.optInProgress && f.readOnly) && c.optPrevious == s.conn.optPrevious
  {
    var c := s.conn.(optInProgress := s.conn.optInProgress && f.readOnly);
    if !c.optPrevious && o.ignoreRoundtrip {
      SeparateSavepoint(o, System(c, s.server));
    }
  }

  /** What a successful statement leaves behind for the next one. */
  lemma AfterStatement(o: Options, s: System, stmt: Stmt, f: Flags, cmds: seq<Command>)
    requires Ordinary(s, stmt, f, cmds) && AllSucceed(cmds)
    ensures var t := ExecuteStatement(o, s, stmt, f, cmds);
            && Send(o, s, Some(stmt), f, cmds).ok && Inv(t) && t.server.tx == Active && !t.conn.started
            && t.server.base == s.server.base
            && t.conn.optInProgress && t.conn.optPrevious == (s.conn.optInProgress && f.readOnly)
  {
    var r := Send(o, s, Some(stmt), f, cmds);
    WorkNeverStale(cmds);
    SendInvariant(o, s, Some(stmt), f, cmds);
    PreparedOptions(o, s, stmt, f, cmds);
    PrepareSound(o, s, Some(stmt), f, cmds);
    PreparedQuery(o, s, Some(stmt), f, cmds);
    var t := Prepare(o, s, Some(stmt), f, cmds).sys;
    TransmitUnfolds(o, t, f, cmds);
    assert BeginPrefix(t.conn, f) + cmds == cmds;
    StackWithExec(t);
    WorkOnly(PlainStart(o, t, f, cmds), SavepointState(t), cmds);
    NoneFails(SavepointState(t), cmds);
    SendMarks(o, s, stmt, f, cmds);
    DiscardKeeps(o, r.sys, stmt, Done, false);
  }

  /** After a successful statement the next one gets a savepoint if and only if the former was not
      read-only (or an earlier query of it was not). */
  lemma NextStatement(o: Options, s: System, stmt: Stmt, f: Flags, cmds: seq<Command>,
                      next: Stmt, g: Flags, more: seq<Command>)
    requires Ordinary(s, stmt, f, cmds) && AllSucceed(cmds)
    requires next == Stmt(StatementRollbackKind, false) && !g.rollbackOnError && !g.endWithCommit && AllWork(more) && more != []
    ensures GetsSavepoint(o, ExecuteStatement(o, s, stmt, f, cmds).conn, Some(next), g, more)
       <==> !(s.conn.optInProgress && f.readOnly)
  {
    AfterStatement(o, s, stmt, f, cmds);
  }

  // ---------------------------------------------------------------- runs

  /** What can happen on a connection, in any order. */
  datatype Action =
    | Query(stmt: Option<Stmt>, flags: Flags, cmds: seq<Command>, appended: seq<Command>)
    | Discard(ended: Stmt, ret: Return, errorOnly: bool)
    | BeginTransaction
    | CommitTransaction
    | AbortTransaction

  /** `CC_begin`, `CC_commit` and `CC_abort` among others. */
  function Act(o: Options, s: System, a: Action): System {
    match a
    case Query(stmt, flags, cmds, appended) => SendAppend(o, s, stmt, flags, cmds, appended).sys
    case Discard(stmt, ret, errorOnly) => DiscardStatementSvp(o, s, stmt, ret, errorOnly)
    case BeginTransaction => if s.conn.inTrans then s else Send(o, s, None, NO_FLAGS, [Begin(true)]).sys
    case CommitTransaction => if s.conn.inTrans then Send(o, s, None, NO_FLAGS, [Commit]).sys else s
    case AbortTransaction => Abort(o, s)
  }

  /** No driver names in the application's commands, no restart of a transaction within a query
      string, and ROLLBACK_ON_ERROR only on the driver's own queries (CLOSE, FETCH, DEALLOCATE). */
  predicate Admissible(o: Options, a: Action) {
    a.Query? ==>
      SafeQuery(o, a.flags, a.cmds + a.appended)
  }

  predicate SafeQuery(o: Options, f: Flags, cmds: seq<Command>) {
    && UserBatch(cmds) && NoRestart(cmds)
    && (f.rollbackOnError ==> o.since80 && AllWork(cmds) && !f.goIntoTransaction && !f.endWithCommit)
  }

  lemma QueryKeeps(o: Options, s: System, stmt: Option<Stmt>, f: Flags, cmds: seq<Command>)
    requires Inv(s) && SafeQuery(o, f, cmds) && cmds != []
    ensures Inv(Send(o, s, stmt, f, cmds).sys)
  {
    NoRestartNeverStale(OnTop, cmds);
    if !f.rollbackOnError {
      SendInvariant(o, s, stmt, f, cmds);
    } else {
      assert Prepare(o, s, stmt, f, cmds) == Outcome(s, true);
      if ConsiderRollback(s.conn, f, cmds) {
        TransmitPerQuery(o, s, f, cmds);
      } else {
        TransmitInvariant(o, s, f, cmds);
      }
    }
  }

  /** The parts of a safe query are safe. */
  lemma SafeParts(o: Options, f: Flags, a: seq<Command>, b: seq<Command>)
    requires SafeQuery(o, f, a + b)
    ensures SafeQuery(o, f, a) && SafeQuery(o, f.(goIntoTransaction := false), b)
  {
    var all := a + b;
    assert forall i :: 0 <= i < |a| ==> a[i] == all[i];
    assert forall i :: 0 <= i < |b| ==> b[i] == all[|a| + i];
    forall i, j | 0 <= i < j < |b| && b[i].Commit?
      ensures !b[j].Begin?
    {
      assert all[|a| + i].Commit? ==> !all[|a| + j].Begin?;
    }
  }

  /** With an appended query, sent along or by itself. */
  lemma AppendKeeps(o: Options, s: System, stmt: Option<Stmt>, f: Flags, cmds: seq<Command>, appended: seq<Command>)
    requires Inv(s) && SafeQuery(o, f, cmds + appended)
    ensures Inv(SendAppend(o, s, stmt, f, cmds, appended).sys)
  {
    SafeParts(o, f, cmds, appended);
    if cmds != [] {
      if appended != [] && o.ignoreRoundtrip {
        QueryKeeps(o, s, stmt, f, cmds);
        var r := Send(o, s, stmt, f, cmds);
        QueryKeeps(o, r.sys, stmt, f.(goIntoTransaction := false), appended);
      } else {
        QueryKeeps(o, s, stmt, f, cmds + appended);
      }
    }
  }

  lemma ActKeeps(o: Options, s: System, a: Action)
    requires Inv(s) && Admissible(o, a)
    ensures Inv(Act(o, s, a))
  {
    match a
    case Query(stmt, flags, cmds, appended) => AppendKeeps(o, s, stmt, flags, cmds, appended);
    case Discard(stmt, ret, errorOnly) => DiscardKeeps(o, s, stmt, ret, errorOnly);
    case BeginTransaction => if !s.conn.inTrans { QueryKeeps(o, s, None, NO_FLAGS, [Begin(true)]); }
    case CommitTransaction => if s.conn.inTrans { QueryKeeps(o, s, None, NO_FLAGS, [Commit]); }
    case AbortTransaction => AbortEnds(o, s);
  }

  function ActAll(o: Options, s: System, actions: seq<Action>): System
    decreases actions
  {
    if actions == [] then s else ActAll(o, Act(o, s, actions[0]), actions[1..])
  }

  lemma {:induction false} AllKeep(o: Options, s: System, actions: seq<Action>)
    requires Inv(s) && forall i :: 0 <= i < |actions| ==> Admissible(o, actions[i])
    ensures Inv(ActAll(o, s, actions))
    decreases actions
  {
    if actions != [] {
      ActKeeps(o, s, actions[0]);
      AllKeep(o, Act(o, s, actions[0]), actions[1..]);
    }
  }

  /** Safety over all runs of a connection: the flags agree with the server, a set `internal_svp`
      means that the driver's savepoint is on top of the stack, and so the RELEASE that the driver
      may issue next takes away nothing that the application can see. */
  lemma SafeRuns(o: Options, data: Data, actions: seq<Action>)
    requires forall i :: 0 <= i < |actions| ==> Admissible(o, actions[i])
    ensures var s := ActAll(o, System(FRESH, State(Idle, data, data, [])), actions);
            && Agrees(s.conn, s.server.tx)
            && (s.conn.internalSvp ==> TopIsExec(s.server))
            && (s.conn.internalSvp && s.server.tx == Active ==>
                  Step(s.server, Release(Exec)).result == Ok(ReleaseTag)
                  && View(Step(s.server, Release(Exec)).state) == View(s.server))
  {
    var start := System(FRESH, State(Idle, data, data, []));
    assert Inv(start);
    AllKeep(o, start, actions);
    var s := ActAll(o, start, actions);
    if s.conn.internalSvp && s.server.tx == Active {
      ReleaseSafe(s);
    }
  }

  /** A statement that changes something, a read-only one, and one that fails. */
  function WriteReadFail(w: nat, r: nat, x: nat): seq<Action> {
    var stmt, read := Stmt(StatementRollbackKind, false), NO_FLAGS.(readOnly := true);
    [BeginTransaction,
     Query(Some(stmt), NO_FLAGS, [Work(w, false)], []), Discard(stmt, Done, false),
     Query(Some(stmt), read, [Work(r, false)], []), Discard(stmt, Done, false),
     Query(Some(stmt), NO_FLAGS, [Work(x, true)], []), Discard(stmt, Error, false)]
  }

  lemma Two(o: Options, s: System, a: Action, b: Action, more: seq<Action>)
    ensures ActAll(o, s, [a, b] + more) == ActAll(o, Act(o, Act(o, s, a), b), more)
  {
    var all := [a, b] + more;
    assert all[1..][1..] == more;
  }

  lemma OneStatement(o: Options, s: System, stmt: Stmt, f: Flags, c: Command, ret: Return)
    requires ret == if Send(o, s, Some(stmt), f, [c]).ok then Done else Error
    ensures Act(o, Act(o, s, Query(Some(stmt), f, [c], [])), Discard(stmt, ret, false)) == ExecuteStatement(o, s, stmt, f, [c])
  {
    hide Send, DiscardStatementSvp;
    assert [c] + [] == [c];
  }

  lemma Started(o: Options, data: Data)
    ensures var s := Act(o, System(FRESH, State(Idle, data, data, [])), BeginTransaction);
            && Inv(s) && s.server.tx == Active && s.server.base == data && !s.conn.started
  {
    var s, cmds := System(FRESH, State(Idle, data, data, [])), [Begin(true)];
    assert cmds[1..] == [];
    assert QueryString(o, FRESH, NO_FLAGS, cmds) == cmds;
    assert Steps(s.server, cmds) == Batch(s.server.(tx := Active), [Ok(StartTag)] + []);
    var l := InitialLoop(o, FRESH, NO_FLAGS, cmds);
    assert [Ok(StartTag)][1..] == [];
    assert OnResults(l, [Ok(StartTag)]) == OnResult(l, Ok(StartTag));
  }

  /** In such a run the failure of the last statement takes the first one's change with it, although
      every statement asked for statement-level rollback. */
  lemma ReadOnlyLosesWork(o: Options, data: Data, w: nat, r: nat, x: nat)
    ensures ActAll(o, System(FRESH, State(Idle, data, data, [])), WriteReadFail(w, r, x)).server
         == State(Idle, data, data, [])
  {
    hide *;
    var s0 := System(FRESH, State(Idle, data, data, []));
    var stmt, read := Stmt(StatementRollbackKind, false), NO_FLAGS.(readOnly := true);
    Started(o, data);
    var s1 := Act(o, s0, BeginTransaction);
    var s2 := ExecuteStatement(o, s1, stmt, NO_FLAGS, [Work(w, false)]);
    var s3 := ExecuteStatement(o, s2, stmt, read, [Work(r, false)]);
    WorkAlone(s1, stmt, NO_FLAGS, w);
    AfterStatement(o, s1, stmt, NO_FLAGS, [Work(w, false)]);
    WorkAlone(s2, stmt, read, r);
    AfterStatement(o, s2, stmt, read, [Work(r, false)]);
    LastFails(o, s3, stmt, x);
    SplitRun(o, s0, stmt, w, r, x);
  }

  lemma WorkAlone(s: System, stmt: Stmt, f: Flags, id: nat)
    requires Inv(s) && s.server.tx == Active && !s.conn.started
    requires stmt == Stmt(StatementRollbackKind, false) && f in {NO_FLAGS, NO_FLAGS.(readOnly := true)}
    ensures Ordinary(s, stmt, f, [Work(id, false)]) && AllSucceed([Work(id, false)])
    ensures f.readOnly <==> f != NO_FLAGS
  {
  }

  lemma LastFails(o: Options, s: System, stmt: Stmt, x: nat)
    requires Inv(s) && s.server.tx == Active && !s.conn.started && s.conn.optPrevious
    requires stmt == Stmt(StatementRollbackKind, false)
    ensures !Send(o, s, Some(stmt), NO_FLAGS, [Work(x, true)]).ok
    ensures ExecuteStatement(o, s, stmt, NO_FLAGS, [Work(x, true)]).server == State(Idle, s.server.base, s.server.base, [])
  {
    var cmds := [Work(x, true)];
    assert cmds[0].fails;
    SendTransparent(o, s, Some(stmt), NO_FLAGS, cmds);
    assert BeginPrefix(s.conn, NO_FLAGS) + cmds == cmds;
    FailingStatement(o, s, stmt, NO_FLAGS, cmds);
  }

  lemma SplitRun(o: Options, s0: System, stmt: Stmt, w: nat, r: nat, x: nat)
    requires stmt == Stmt(StatementRollbackKind, false)
    requires var s1 := Act(o, s0, BeginTransaction);
             var s2 := ExecuteStatement(o, s1, stmt, NO_FLAGS, [Work(w, false)]);
             var s3 := ExecuteStatement(o, s2, stmt, NO_FLAGS.(readOnly := true), [Work(r, false)]);
             && Send(o, s1, Some(stmt), NO_FLAGS, [Work(w, false)]).ok
             && Send(o, s2, Some(stmt), NO_FLAGS.(readOnly := true), [Work(r, false)]).ok
             && !Send(o, s3, Some(stmt), NO_FLAGS, [Work(x, true)]).ok
    ensures var s1 := Act(o, s0, BeginTransaction);
            var s2 := ExecuteStatement(o, s1, stmt, NO_FLAGS, [Work(w, false)]);
            var s3 := ExecuteStatement(o, s2, stmt, NO_FLAGS.(readOnly := true), [Work(r, false)]);
            ActAll(o, s0, WriteReadFail(w, r, x)) == ExecuteStatement(o, s3, stmt, NO_FLAGS, [Work(x, true)])
  {
    hide Send, Act, ExecuteStatement;
    var read := NO_FLAGS.(readOnly := true);
    var s1 := Act(o, s0, BeginTransaction);
    var s2 := ExecuteStatement(o, s1, stmt, NO_FLAGS, [Work(w, false)]);
    var s3 := ExecuteStatement(o, s2, stmt, read, [Work(r, false)]);
    var q1, d1 := Query(Some(stmt), NO_FLAGS, [Work(w, false)], []), Discard(stmt, Done, false);
    var q2 := Query(Some(stmt), read, [Work(r, false)], []);
    var q3, d3 := Query(Some(stmt), NO_FLAGS, [Work(x, true)], []), Discard(stmt, Error, false);
    var all := WriteReadFail(w, r, x);
    assert all[1..] == [q1, d1] + ([q2, d1] + ([q3, d3] + []));
    OneStatement(o, s1, stmt, NO_FLAGS, Work(w, false), Done);
    OneStatement(o, s2, stmt, read, Work(r, false), Done);
    OneStatement(o, s3, stmt, NO_FLAGS, Work(x, true), Error);
    Two(o, s1, q1, d1, [q2, d1] + ([q3, d3] + []));
    Two(o, s2, q2, d1, [q3, d3] + []);
    Two(o, s3, q3, d3, []);
  }
}
