/**
 Session resolution (`src/nrepl/session.rs`): reuse the session stored for
 the server's address while the server still lists it, and otherwise clone
 a new one, ask which ops it offers, store it and return it. The server is
 given as the outcomes of the three exchanges it may be asked for.
 */
module SessionManager {

  import opened Base
  import opened Bytes
  import opened Nrepl
  import opened Config
  import opened NreplOps

  /** How the server answers each request resolution may send. */
  datatype Server = Server(addr: Text, lsSessions: Result<Status, NreplError>,
                           clone: Result<Status, NreplError>, describe: Result<Status, NreplError>)

  datatype SessionError = StoreError(storeCause: ConfigError) | OpFailed(opCause: OpError)

  /** The session found or made, the store afterwards and the requests sent, in order. */
  datatype Resolution = Resolution(result: Result<Session, SessionError>, db: Db, sent: seq<Op>)

  /** `session_id_exists`: whether the id is among the sessions the server lists. */
  function SessionIdExists(server: Server, id: Text): (r: Result<bool, OpError>)
    ensures r.Ok? <==> LsSessionsResult(server.lsSessions).Ok?
    ensures r.Ok? ==> (r.value <==> id in LsSessionsResult(server.lsSessions).value)
    ensures r.Err? ==> r.error == LsSessionsResult(server.lsSessions).error
  {
    var ids :- LsSessionsResult(server.lsSessions);
    Ok(id in ids)
  }

  /**
   `create_session`: a `clone` without a session, then a non-verbose
   `describe`, which is not sent when the clone failed.
   */
  function CreateSession(server: Server): (r: (Result<Session, OpError>, seq<Op>))
    ensures r.1 == [CloneOp(None)] || r.1 == [CloneOp(None), DescribeOp(false)]
    ensures r.0.Ok? <==> CloneResult(server.clone).Ok? && DescribeResult(server.describe).Ok?
    ensures r.0.Ok? ==> r.1 == [CloneOp(None), DescribeOp(false)]
    ensures r.0.Ok? ==> r.0.value == Session(server.addr, CloneResult(server.clone).value,
                                             DescribeResult(server.describe).value)
  {
    var id := CloneResult(server.clone);
    if id.Err? then (Err(id.error), [CloneOp(None)])
    else
      var ops := DescribeResult(server.describe);
      if ops.Err? then (Err(ops.error), [CloneOp(None), DescribeOp(false)])
      else (Ok(Session(server.addr, id.value, ops.value)), [CloneOp(None), DescribeOp(false)])
  }

  /**
   `get_existing_session_id`: loads the stored session for the server's
   address and returns it when the server still lists its id; otherwise
   creates a session, saves it and returns it. Every failure is passed on
   and leaves the store as it was.
   */
  function GetExistingSession(db: Db, server: Server): (r: Resolution)
    ensures r.result.Err? ==> r.db == db
    ensures r.result.Ok? ==> r.result.value.addr == server.addr
    ensures r.db != db ==> r.result.Ok? && SaveSession(db, r.result.value) == Ok(r.db)
    ensures CloneOp(None) in r.sent && r.result.Ok? ==>
      SaveSession(db, r.result.value) == Ok(r.db)
      && CloneResult(server.clone).Ok? && DescribeResult(server.describe).Ok?
    ensures CloneOp(None) in r.sent && r.result.Ok? ==>
      r.result.value == Session(server.addr, CloneResult(server.clone).value,
                                DescribeResult(server.describe).value)
  {
    var loaded := LoadSession(db, server.addr);
    if loaded.Err? then Resolution(Err(StoreError(loaded.error)), db, [])
    else
      var checked: Result<bool, OpError> :=
        if loaded.value.Some? then SessionIdExists(server, Id(loaded.value.value)) else Ok(false);
      var asked := if loaded.value.Some? then [LsSessionsOp()] else [];
      if checked.Err? then Resolution(Err(OpFailed(checked.error)), db, asked)
      else if checked.value then Resolution(Ok(loaded.value.value), db, asked)
      else
        var (created, sent) := CreateSession(server);
        assert CloneOp(None) !in asked;
        if created.Err? then Resolution(Err(OpFailed(created.error)), db, asked + sent)
        else
          var saved := SaveSession(db, created.value);
          if saved.Err? then Resolution(Err(StoreError(saved.error)), db, asked + sent)
          else Resolution(Ok(created.value), saved.value, asked + sent)
  }

  /**
   A stored session whose id the server still lists is returned as it is:
   only `ls-sessions` is sent and the store is not written.
   */
  lemma ReuseListedSession(db: Db, server: Server, stored: Session, ids: seq<Text>)
    requires LoadSession(db, server.addr) == Ok(Some(stored))
    requires LsSessionsResult(server.lsSessions) == Ok(ids) && Id(stored) in ids
    ensures GetExistingSession(db, server) == Resolution(Ok(stored), db, [LsSessionsOp()])
  {
    assert SessionIdExists(server, Id(stored)) == Ok(true);
  }

  /**
   A stored session the server no longer lists is never returned: a new
   one is cloned, and if resolution succeeds it returns that clone.
   */
  lemma StaleSessionReplaced(db: Db, server: Server, stored: Session, ids: seq<Text>)
    requires LoadSession(db, server.addr) == Ok(Some(stored))
    requires LsSessionsResult(server.lsSessions) == Ok(ids) && Id(stored) !in ids
    ensures var r := GetExistingSession(db, server);
      r.sent == [LsSessionsOp()] + CreateSession(server).1 && CloneOp(None) in r.sent
      && (r.result.Ok? ==> r.result.value.session == CloneResult(server.clone).value)
  {
    assert SessionIdExists(server, Id(stored)) == Ok(false);
    var r := GetExistingSession(db, server);
    assert r.sent[1] == CloneOp(None);
  }

  /** Without a stored session, the server is not asked for its session list. */
  lemma NothingStoredCreates(db: Db, server: Server)
    requires LoadSession(db, server.addr) == Ok(None)
    ensures GetExistingSession(db, server).sent == CreateSession(server).1
  {
    assert [] + CreateSession(server).1 == CreateSession(server).1;
  }

  /**
   After a successful resolution the store holds, for the server's address,
   the session id that was returned.
   */
  lemma ResolvedSessionIsStored(db: Db, server: Server)
    requires GetExistingSession(db, server).result.Ok?
    ensures var r := GetExistingSession(db, server);
      LoadSession(r.db, server.addr).Ok? && LoadSession(r.db, server.addr).value.Some?
      && LoadSession(r.db, server.addr).value.value.session == r.result.value.session
  {
    var r := GetExistingSession(db, server);
    if r.db != db {
      SaveThenLoad(db, r.result.value);
    }
  }
}
