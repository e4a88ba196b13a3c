/**
 The connection object: its flag fields, updated in place by the operations of connection.c and
 execute.c, each tied to its function in SavepointProtocol.
 */
module ConnectionObject {
  import opened CBytes
  import opened Server
  import P = SavepointProtocol
  import R = StatementProtocol

  class Connection {
    // transact_status
    var inTrans: bool
    var inManual: bool
    var inError: bool
    // per-statement rollback
    var internalSvp: bool
    var internalOp: P.Operation
    var accessed: bool
    var started: bool
    var optInProgress: bool
    var optPrevious: bool

    const options: P.Options
    /** What stands behind `pqconn`. */
    var server: State

    function Flags(): P.Conn
      reads this
    {
      P.Conn(inTrans, inManual, inError, internalSvp, internalOp, accessed, started, optInProgress, optPrevious)
    }

    function Sys(): P.System
      reads this
    {
      P.System(Flags(), server)
    }

    constructor (options: P.Options, data: Data)
      ensures this.options == options
      ensures Sys() == P.System(P.FRESH, State(Idle, data, data, [])) && P.Inv(Sys())
    {
      this.options := options;
      inTrans, inManual, inError := false, false, false;
      internalSvp, internalOp, accessed, started := false, P.NoOperation, false, false;
      optInProgress, optPrevious := true, true;
      server := State(Idle, data, data, []);
    }

    /** PQsendQuery and PQgetResult: one query string and all its results. */
    method Exchange(cmds: seq<Command>) returns (results: seq<Result>)
      modifies this`server
      ensures server == Run(old(server), cmds).state && results == Run(old(server), cmds).results
    {
      var b := Run(server, cmds);
      server := b.state;
      results := b.results;
    }

    /** `CC_on_commit` and, with NO_TRANS, `CC_on_abort` */
    method OnEnd()
      modifies this
      ensures Sys() == P.System(P.OnEnd(old(Flags())), old(server))
    {
      if inTrans {
        inTrans, inError := false, false;
        inManual := false;
      }
      internalSvp, internalOp := false, P.NoOperation;
      optInProgress, optPrevious := true, true;
      accessed, started := false, false;
    }

    /** `LIBPQ_update_transaction_status` */
    method UpdateTransactionStatus()
      modifies this
      ensures Sys() == P.System(P.UpdateStatus(old(Flags()), old(server).tx), old(server))
    {
      match server.tx
      case Idle =>
        if inTrans {
          OnEnd();
        }
      case Active =>
        inTrans := true;
        if inError {
          inError := false;
        }
      case Failed =>
        inTrans := true;
        inError := true;
    }

    /** `handle_pgres_error` while results are being read */
    method HandleError()
      modifies this
      ensures Sys() == P.System(P.OnError(old(Flags())), old(server))
    {
      if inTrans {
        inError := true;
      }
      inTrans := true;
    }

    /** The body of the result loop of `CC_send_query_append`. */
    method HandleResult(r: Result, nextBegin: bool, nextSavepoint: bool, nextRelease: bool)
      returns (begin: bool, savepoint: bool, release: bool)
      modifies this
      ensures server == old(server)
      ensures P.Loop(Flags(), begin, savepoint, release)
           == P.OnResult(P.Loop(old(Flags()), nextBegin, nextSavepoint, nextRelease), r)
    {
      begin, savepoint, release := nextBegin, nextSavepoint, nextRelease;
      if r == Err {
        HandleError();
        return;
      }
      match r.tag
      case StartTag =>
        inTrans := true;
        inManual := true;
        begin := false;
      case SavepointTag =>
        if savepoint {
          savepoint := false;
          release := true;
        } else if internalOp == P.SavepointInProgress {
          started, internalSvp := true, true;
          internalOp := P.NoOperation;
        } else {
          internalSvp := false;
        }
      case RollbackTag =>
        inError := true;
        internalSvp := false;
        optPrevious := false;
        optInProgress := true;
      case ReleaseTag =>
        if release {
          release := false;
        } else {
          internalSvp := false;
        }
      case OtherTag =>
    }

    /** The result loop. */
    method ReadResults(results: seq<Result>, nextBegin: bool, nextSavepoint: bool)
      returns (ok: bool, pending: bool)
      modifies this
      ensures server == old(server)
      ensures Flags() == P.OnResults(P.Loop(old(Flags()), nextBegin, nextSavepoint, false), results).conn
      ensures pending == P.OnResults(P.Loop(old(Flags()), nextBegin, nextSavepoint, false), results).nextSavepoint
      ensures ok <==> Err !in results
    {
      ghost var goal := P.OnResults(P.Loop(Flags(), nextBegin, nextSavepoint, false), results);
      var begin, release := nextBegin, false;
      ok, pending := true, nextSavepoint;
      var i := 0;
      assert results[0..] == results;
      while i < |results|
        invariant 0 <= i <= |results| && server == old(server)
        invariant P.OnResults(P.Loop(Flags(), begin, pending, release), results[i..]) == goal
        invariant ok <==> Err !in results[..i]
      {
        assert results[i..][0] == results[i] && results[i..][1..] == results[i + 1..];
        assert results[..i + 1] == results[..i] + [results[i]];
        begin, pending, release := HandleResult(results[i], begin, pending, release);
        if results[i] == Err {
          ok := false;
        }
        i := i + 1;
      }
      assert results[..i] == results;
    }

    /** `CC_internal_rollback` with PER_STATEMENT_ROLLBACK */
    method RollbackStatement() returns (ok: bool)
      modifies this
      ensures P.Outcome(Sys(), ok) == P.StatementRollback(old(Sys()))
    {
      if !inError {
        return true;
      }
      var results := Exchange([if internalSvp then RollbackTo(Exec) else Rollback]);
      ok := Err !in results;
      if !ok && inTrans {
        inError := true;
      }
      UpdateTransactionStatus();
    }

    /** `CC_internal_rollback` with PER_QUERY_ROLLBACK */
    method RollbackQuery()
      modifies this
      ensures Sys() == P.QueryRollback(old(Sys()))
    {
      if !inError {
        return;
      }
      var results := Exchange([RollbackTo(PerQuery), Release(PerQuery)]);
      if results[0] == Err {
        HandleError();
      } else if Err in results {
        inTrans := true;
      }
      UpdateTransactionStatus();
    }

    /** The query string of `CC_send_query_append` and the flags of its result loop. */
    method Assemble(f: P.Flags, cmds: seq<Command>, queryRollback: bool)
      returns (query: seq<Command>, nextBegin: bool, nextSavepoint: bool)
      requires queryRollback == P.PerQuerySavepoint(options, Flags(), f, cmds)
      modifies this`internalOp
      ensures query == P.QueryString(options, old(Flags()), f, cmds)
      ensures P.Loop(Flags(), nextBegin, nextSavepoint, false) == P.InitialLoop(options, old(Flags()), f, cmds)
    {
      query, nextBegin, nextSavepoint := cmds, false, false;
      if f.goIntoTransaction && !inTrans {
        query := [Begin(true)] + query;
        nextBegin := true;
      } else if queryRollback {
        query := [Savepoint(PerQuery)] + query;
        nextSavepoint := true;
      } else if internalOp == P.PrependInProgress {
        query := P.SavepointCommands(Flags()) + query;
        internalOp := P.SavepointInProgress;
      }
      if queryRollback {
        query := query + [Release(PerQuery)];
      }
    }

    method CleanUp(rollbackOnError: bool, queryRollback: bool, ghost begin: bool, pending: bool, ghost release: bool)
      modifies this
      ensures Sys() == P.CleanUp(rollbackOnError, queryRollback, P.Loop(old(Flags()), begin, pending, release), old(server))
    {
      if rollbackOnError && inTrans && !pending {
        if queryRollback {
          RollbackQuery();
        } else if inError {
          var results := Exchange([Rollback]);
        }
      }
    }

    /** `CC_send_query_append` from the assembly of the query string on. */
    method Transmit(f: P.Flags, cmds: seq<Command>) returns (ok: bool)
      modifies this
      ensures P.Outcome(Sys(), ok) == P.Transmit(options, old(Sys()), f, cmds)
    {
      var rollbackOnError := f.rollbackOnError && P.ConsiderRollback(Flags(), f, cmds);
      var queryRollback := rollbackOnError && !f.endWithCommit && options.since80;
      var query, nextBegin, nextSavepoint := Assemble(f, cmds, queryRollback);
      var results := Exchange(query);
      ghost var l := P.OnResults(P.Loop(Flags(), nextBegin, nextSavepoint, false), results);
      var pending;
      ok, pending := ReadResults(results, nextBegin, nextSavepoint);
      CleanUp(rollbackOnError, queryRollback, l.nextBegin, pending, l.nextRelease);
      UpdateTransactionStatus();
    }

    /** The branch of `SetStatementSvp` that sends the savepoint by itself. */
    method SendSavepoint() returns (ok: bool)
      modifies this
      ensures P.Outcome(Sys(), ok) == P.SavepointAlone(options, old(Sys()))
    {
      var cmd := P.SavepointCommands(Flags());
      SetOperation(P.SavepointInProgress);
      ok := Transmit(P.NO_FLAGS, cmd);
      SetOperation(P.NoOperation);
    }

    method MarkAccessed()
      modifies this`accessed
      ensures Sys() == P.System(old(Flags()).(accessed := true), old(server))
    {
      accessed := true;
    }

    method SetOperation(op: P.Operation)
      modifies this`internalOp
      ensures Sys() == P.System(old(Flags()).(internalOp := op), old(server))
    {
      internalOp := op;
    }

    /** `SetStatementSvp` */
    method SetStatementSvp(stmt: P.Stmt, readOnly: bool, reduceRoundtrip: bool) returns (ok: bool)
      modifies this
      ensures P.Outcome(Sys(), ok) == P.SetStatementSvp(options, old(Sys()), stmt, readOnly, reduceRoundtrip)
    {
      if inError {
        return true;
      }
      RestrictOptions(readOnly);
      if stmt.special {
        return true;
      }
      ok := TakeSavepoint(stmt, reduceRoundtrip);
      MarkAccessed();
    }

    method RestrictOptions(readOnly: bool)
      modifies this`optInProgress
      ensures Sys() == P.System(old(Flags()).(optInProgress := old(optInProgress) && readOnly), old(server))
    {
      optInProgress := optInProgress && readOnly;
    }

    method TakeSavepoint(stmt: P.Stmt, reduceRoundtrip: bool) returns (ok: bool)
      modifies this
      ensures P.Outcome(Sys(), ok) == P.TakeSavepoint(options, old(Sys()), stmt, reduceRoundtrip)
    {
      ok := true;
      if !started && !optPrevious && stmt.kind == P.StatementRollbackKind && inTrans {
        if reduceRoundtrip {
          SetOperation(P.PrependInProgress);
        } else {
          ok := SendSavepoint();
        }
      }
    }

    /** `CC_send_query_append` for one query string */
    method Send(stmt: Option<P.Stmt>, f: P.Flags, cmds: seq<Command>) returns (ok: bool)
      modifies this
      ensures P.Outcome(Sys(), ok) == P.Send(options, old(Sys()), stmt, f, cmds)
    {
      if cmds == [] {
        return false;
      }
      if P.NeedsStatementSvp(options, Flags(), stmt, f, cmds) {
        ok := SetStatementSvp(stmt.value, f.readOnly, !options.ignoreRoundtrip);
        if !ok {
          UpdateTransactionStatus();
          return false;
        }
      }
      ok := Transmit(f, cmds);
    }

    /** `CC_send_query_append` */
    method SendQueryAppend(stmt: Option<P.Stmt>, f: P.Flags, cmds: seq<Command>, appended: seq<Command>)
      returns (ok: bool)
      modifies this
      ensures P.Outcome(Sys(), ok) == P.SendAppend(options, old(Sys()), stmt, f, cmds, appended)
    {
      if cmds == [] {
        return false;
      }
      if appended != [] && options.ignoreRoundtrip {
        ok := Send(stmt, f, cmds);
        if ok {
          ok := Send(stmt, f.(goIntoTransaction := false), appended);
        }
        return;
      }
      ok := Send(stmt, f, cmds + appended);
    }

    /** `CC_abort` */
    method Abort()
      modifies this
      ensures Sys() == P.Abort(options, old(Sys()))
    {
      if inTrans {
        var ok := Send(None, P.NO_FLAGS, [Rollback]);
      }
    }

    /** `DiscardStatementSvp` */
    method DiscardStatementSvp(stmt: P.Stmt, ret: P.Return, errorOnly: bool)
      modifies this
      ensures Sys() == P.DiscardStatementSvp(options, old(Sys()), stmt, ret, errorOnly)
    {
      if accessed && inTrans && stmt.kind != P.NoRollback {
        if ret == P.Error {
          if started && internalSvp {
            var ok := RollbackStatement();
          } else {
            Abort();
          }
        } else if errorOnly {
          return;
        }
      }
      if ret == P.Error || (ret == P.Done && !errorOnly) {
        if ret != P.Error && accessed {
          optPrevious := optInProgress;
          optInProgress := true;
        }
        accessed, started := false, false;
      }
    }

    /** A session: any sequence of the application's and the driver's actions keeps the invariant. */
    method Replay(actions: seq<R.Action>)
      requires P.Inv(Sys()) && forall i :: 0 <= i < |actions| ==> R.Admissible(options, actions[i])
      modifies this
      ensures P.Inv(Sys())
      ensures Sys() == R.ActAll(options, old(Sys()), actions)
    {
      R.AllKeep(options, Sys(), actions);
      ghost var goal := R.ActAll(options, Sys(), actions);
      var i := 0;
      assert actions[0..] == actions;
      while i < |actions|
        invariant 0 <= i <= |actions|
        invariant R.ActAll(options, Sys(), actions[i..]) == goal
      {
        assert actions[i..][0] == actions[i] && actions[i..][1..] == actions[i + 1..];
        Perform(actions[i]);
        i := i + 1;
      }
    }

    /** One action. */
    method Perform(a: R.Action)
      modifies this
      ensures Sys() == R.Act(options, old(Sys()), a)
    {
      match a
      case Query(stmt, flags, cmds, appended) =>
        var ok := SendQueryAppend(stmt, flags, cmds, appended);
      case Discard(stmt, ret, errorOnly) =>
        DiscardStatementSvp(stmt, ret, errorOnly);
      case BeginTransaction =>
        if !inTrans {
          var ok := Send(None, P.NO_FLAGS, [Begin(true)]);
        }
      case CommitTransaction =>
        if inTrans {
          var ok := Send(None, P.NO_FLAGS, [Commit]);
        }
      case AbortTransaction =>
        Abort();
    }
  }
}
