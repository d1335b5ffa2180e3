/** The websocket RPC client: request ids, pending requests, futures, api ids granted by the server,
    and reconnects. Every step below runs on one event loop without interruption. */
module Graphene {
  import opened Wrappers

  datatype Api = DatabaseApi | LoginApi | NetworkApi | NetworkBroadcastApi | OtherApi

  datatype Json = Null | Value(n: int)

  const LOGIN_ID := Value(1)

  function ApiName(api: Api): string {
    match api
    case DatabaseApi => "database_api"
    case LoginApi => "login_api"
    case NetworkApi => "network_node_api"
    case NetworkBroadcastApi => "network_broadcast_api"
    case OtherApi => "??"
  }

  datatype Call = Call(api: Json, name: string, args: seq<string>)

  /** A request waiting for its reply; a future that nobody passed is None. */
  datatype Pending = Pending(future: Option<nat>, call: Call)

  /** What happened on the wire, in order. `api` is the name the caller asked for. */
  datatype Entry =
    | Sent(conn: nat, id: nat, api: string, pending: Pending)
    | Answered(conn: nat, id: nat, result: Json)

  datatype State = State(
    loopUp: bool, protocolUp: bool,
    requestId: nat, requestMap: map<nat, Pending>,
    grants: map<string, Json>, results: map<Call, Json>,
    conn: nat, nextFuture: nat, futures: map<nat, Json>, trace: seq<Entry>)

  datatype Error = NoEventLoop | NoProtocol

  // ---------------------------------------------------------------- the steps

  function Preset(steem: bool): map<string, Json> {
    if steem then map["login_api" := LOGIN_ID] else map["database_api" := Value(0), "login_api" := LOGIN_ID]
  }

  function NewProtocol(steem: bool, s: State): State {
    s.(protocolUp := true, requestId := 0, requestMap := map[], grants := Preset(steem), results := map[],
       conn := s.conn + 1)
  }

  /** A call to an api without an id is dropped after it has used up a request id. */
  function RpcCall(s: State, api: Api, name: string, args: seq<string>, future: Option<nat>): State {
    var id := s.requestId + 1;
    if ApiName(api) !in s.grants then s.(requestId := id)
    else
      var p := Pending(future, Call(s.grants[ApiName(api)], name, args));
      s.(requestId := id, requestMap := s.requestMap[id := p], trace := s.trace + [Sent(s.conn, id, ApiName(api), p)])
  }

  function OnConnect(steem: bool, s: State, user: string, password: string): State {
    var s1 := RpcCall(s, LoginApi, "login", [user, password], None);
    if steem then
      var s2 := RpcCall(s1, LoginApi, "get_api_by_name", ["database_api"], None);
      var s3 := RpcCall(s2, LoginApi, "get_api_by_name", ["network_node_api"], None);
      RpcCall(s3, LoginApi, "get_api_by_name", ["network_broadcast_api"], None)
    else RpcCall(s1, LoginApi, "network_node", [], None)
  }

  function WsRpcCall(s: State, api: Api, name: string, args: seq<string>): State {
    if !s.loopUp || !s.protocolUp then s
    else RpcCall(s.(nextFuture := s.nextFuture + 1), api, name, args, Some(s.nextFuture))
  }

  /** The api name that a call asks the server an id for. */
  function Asks(call: Call): Option<string> {
    if call.api != LOGIN_ID then None
    else if call.name == "network_node" then Some("network_node_api")
    else if call.name == "get_api_by_name" && call.args != [] then Some(call.args[0])
    else None
  }

  /** A reply to an id that is not pending raises and changes nothing. */
  function OnMessage(s: State, id: nat, result: Json): State {
    if !s.protocolUp || id !in s.requestMap then s
    else
      var p := s.requestMap[id];
      s.(requestMap := s.requestMap - {id},
         futures := if p.future.Some? then s.futures[p.future.value := result] else s.futures,
         results := if p.future.Some? then s.results else s.results[p.call := result],
         grants := if Asks(p.call).Some? && result != Null then s.grants[Asks(p.call).value := result] else s.grants,
         trace := s.trace + [Answered(s.conn, id, result)])
  }

  class Endpoint {
    const steem: bool
    var loopUp: bool
    var protocolUp: bool
    var requestId: nat
    var requestMap: map<nat, Pending>
    var grants: map<string, Json>
    var results: map<Call, Json>
    var futures: map<nat, Json>
    var nextFuture: nat
    ghost var conn: nat
    ghost var trace: seq<Entry>

    ghost function Contents(): State
      reads this
    {
      State(loopUp, protocolUp, requestId, requestMap, grants, results, conn, nextFuture, futures, trace)
    }

    constructor (steem: bool)
      ensures this.steem == steem && Contents() == Start()
    {
      this.steem := steem;
      loopUp, protocolUp, requestId, requestMap := false, false, 0, map[];
      grants, results, futures, nextFuture := map[], map[], map[], 0;
      conn, trace := 0, [];
    }

    method LoopUp()
      modifies this
      ensures Contents() == old(Contents()).(loopUp := true)
    {
      loopUp := true;
    }

    method MakeProtocol()
      modifies this
      ensures Contents() == NewProtocol(steem, old(Contents()))
    {
      protocolUp, requestId, requestMap, results, conn := true, 0, map[], map[], conn + 1;
      if steem {
        grants := map["login_api" := LOGIN_ID];
      } else {
        grants := map["database_api" := Value(0), "login_api" := LOGIN_ID];
      }
    }

    /** The connection is lost: both entries go, the cache stays until the next protocol. */
    method Down()
      modifies this
      ensures Contents() == old(Contents()).(loopUp := false, protocolUp := false)
    {
      loopUp, protocolUp := false, false;
    }

    method Rpc(api: Api, name: string, args: seq<string>, future: Option<nat>)
      modifies this
      ensures Contents() == RpcCall(old(Contents()), api, name, args, future)
    {
      requestId := requestId + 1;
      if ApiName(api) in grants {
        var p := Pending(future, Call(grants[ApiName(api)], name, args));
        requestMap := requestMap[requestId := p];
        trace := trace + [Sent(conn, requestId, ApiName(api), p)];
      }
    }

    method Connect(user: string, password: string)
      modifies this
      ensures Contents() == OnConnect(steem, old(Contents()), user, password)
    {
      Rpc(LoginApi, "login", [user, password], None);
      if steem {
        Rpc(LoginApi, "get_api_by_name", ["database_api"], None);
        Rpc(LoginApi, "get_api_by_name", ["network_node_api"], None);
        Rpc(LoginApi, "get_api_by_name", ["network_broadcast_api"], None);
      } else {
        Rpc(LoginApi, "network_node", [], None);
      }
    }

    method Ask(api: Api, name: string, args: seq<string>) returns (r: Result<nat, Error>)
      modifies this
      ensures Contents() == WsRpcCall(old(Contents()), api, name, args)
      ensures r == if !old(loopUp) then Err(NoEventLoop) else if !old(protocolUp) then Err(NoProtocol)
                   else Ok(old(nextFuture))
    {
      if !loopUp { return Err(NoEventLoop); }
      if !protocolUp { return Err(NoProtocol); }
      var future := nextFuture;
      nextFuture := nextFuture + 1;
      Rpc(api, name, args, Some(future));
      return Ok(future);
    }

    method Message(id: nat, result: Json) returns (ok: bool)
      modifies this
      ensures Contents() == OnMessage(old(Contents()), id, result)
      ensures ok == (old(protocolUp) && id in old(requestMap))
    {
      if !protocolUp || id !in requestMap { return false; }
      var p := requestMap[id];
      requestMap := requestMap - {id};
      trace := trace + [Answered(conn, id, result)];
      if p.future.Some? {
        futures := futures[p.future.value := result];
      } else {
        results := results[p.call := result];
      }
      if p.call.api == LOGIN_ID && p.call.name == "network_node" && result != Null {
        grants := grants["network_node_api" := result];
      }
      if p.call.api == LOGIN_ID && p.call.name == "get_api_by_name" && p.call.args != [] && result != Null {
        grants := grants[p.call.args[0] := result];
      }
      return true;
    }
  }

  // ---------------------------------------------------------------- runs

  datatype Event =
    | LoopStarts
    | ProtocolMade
    | Connected(user: string, password: string)
    | Asked(api: Api, name: string, args: seq<string>)
    | Replied(id: nat, result: Json)
    | Lost

  function Step(steem: bool, s: State, e: Event): State {
    match e
    case LoopStarts => s.(loopUp := true)
    case ProtocolMade => NewProtocol(steem, s)
    case Connected(user, password) => if s.protocolUp then OnConnect(steem, s, user, password) else s
    case Asked(api, name, args) => WsRpcCall(s, api, name, args)
    case Replied(id, result) => OnMessage(s, id, result)
    case Lost => s.(loopUp := false, protocolUp := false)
  }

  function Start(): State {
    State(false, false, 0, map[], map[], map[], 0, 0, map[], [])
  }

  function Run(steem: bool, events: seq<Event>): State {
    if events == [] then Start() else Step(steem, Run(steem, events[..|events| - 1]), events[|events| - 1])
  }

  // ---------------------------------------------------------------- the invariant

  ghost predicate IsSent(t: seq<Entry>, i: int, conn: nat, id: nat) {
    0 <= i < |t| && t[i].Sent? && t[i].conn == conn && t[i].id == id
  }

  ghost predicate IsAnswered(t: seq<Entry>, i: int, conn: nat, id: nat) {
    0 <= i < |t| && t[i].Answered? && t[i].conn == conn && t[i].id == id
  }

  ghost predicate IsRequestOf(t: seq<Entry>, i: int, future: nat) {
    0 <= i < |t| && t[i].Sent? && t[i].pending.future == Some(future)
  }

  /** A (connection, id) pair is sent at most once and answered at most once, the answer after the
      request, and no two requests share a future. */
  ghost predicate Orderly(t: seq<Entry>) {
    && (forall i, j, conn: nat, id: nat :: IsSent(t, i, conn, id) && IsSent(t, j, conn, id) ==> i == j)
    && (forall i, j, conn: nat, id: nat :: IsAnswered(t, i, conn, id) && IsAnswered(t, j, conn, id) ==> i == j)
    && (forall j, conn: nat, id: nat :: IsAnswered(t, j, conn, id) ==> exists i :: i < j && IsSent(t, i, conn, id))
    && (forall i, j, f: nat :: IsRequestOf(t, i, f) && IsRequestOf(t, j, f) ==> i == j)
  }

  /** Up to position k, the server answered a login call of this connection that asks for `name` with
      this id. */
  ghost predicate Granted(t: seq<Entry>, k: int, conn: nat, name: string, id: Json) {
    exists i, j ::
      && 0 <= i < j < k && j < |t|
      && t[j].Answered? && t[j].conn == conn && t[j].result == id
      && IsSent(t, i, conn, t[j].id) && Asks(t[i].pending.call) == Some(name)
  }

  /** The id used for an api is the preset one or one granted on this connection. */
  ghost predicate Entitled(steem: bool, t: seq<Entry>, k: int, conn: nat, name: string, id: Json) {
    (name in Preset(steem) && Preset(steem)[name] == id) || Granted(t, k, conn, name, id)
  }

  ghost predicate AllEntitled(steem: bool, t: seq<Entry>) {
    forall k :: 0 <= k < |t| && t[k].Sent? ==> Entitled(steem, t, k, t[k].conn, t[k].api, t[k].pending.call.api)
  }

  /** The value of a future is the result of the one answer to the request that carried it. */
  ghost predicate Resolved(t: seq<Entry>, f: nat, result: Json) {
    exists i, j :: IsRequestOf(t, i, f) && IsAnswered(t, j, t[i].conn, t[i].id) && t[j].result == result
  }

  /** Numbers not used yet do not occur. */
  ghost predicate Fresh(s: State) {
    && (forall k :: 0 <= k < |s.trace| ==> s.trace[k].conn <= s.conn)
    && (forall k :: 0 <= k < |s.trace| && s.trace[k].conn == s.conn ==> s.trace[k].id <= s.requestId)
    && (forall i, f: nat :: IsRequestOf(s.trace, i, f) ==> f < s.nextFuture)
  }

  /** Exactly the requests of this connection without an answer are pending. */
  ghost predicate PendingIsUnanswered(s: State) {
    && (forall id <- s.requestMap :: 1 <= id <= s.requestId)
    && (forall id <- s.requestMap ::
          exists i :: IsSent(s.trace, i, s.conn, id) && s.trace[i].pending == s.requestMap[id])
    && (forall i, id: nat :: IsSent(s.trace, i, s.conn, id) && id !in s.requestMap ==>
          exists j :: IsAnswered(s.trace, j, s.conn, id))
    && (forall j, id: nat :: IsAnswered(s.trace, j, s.conn, id) ==> id !in s.requestMap)
  }

  ghost predicate FuturesAreAnswers(s: State) {
    && (forall f <- s.futures :: Resolved(s.trace, f, s.futures[f]))
    && (forall f: nat, r :: Resolved(s.trace, f, r) ==> f in s.futures && s.futures[f] == r)
  }

  ghost predicate GrantsEntitled(steem: bool, s: State) {
    forall name <- s.grants :: Entitled(steem, s.trace, |s.trace|, s.conn, name, s.grants[name])
  }

  ghost predicate Inv(steem: bool, s: State) {
    && Orderly(s.trace) && AllEntitled(steem, s.trace)
    && Fresh(s) && PendingIsUnanswered(s) && FuturesAreAnswers(s) && GrantsEntitled(steem, s)
  }

  // ---------------------------------------------------------------- every step keeps it

  lemma OneMore(t: seq<Entry>, e: Entry)
    ensures var u := t + [e];
      && (forall i, c: nat, id: nat ::
            IsSent(u, i, c, id) <==> IsSent(t, i, c, id) || (i == |t| && e.Sent? && e.conn == c && e.id == id))
      && (forall i, c: nat, id: nat ::
            IsAnswered(u, i, c, id) <==>
              IsAnswered(t, i, c, id) || (i == |t| && e.Answered? && e.conn == c && e.id == id))
      && (forall i, f: nat ::
            IsRequestOf(u, i, f) <==> IsRequestOf(t, i, f) || (i == |t| && e.Sent? && e.pending.future == Some(f)))
  { }

  /** What was granted stays granted as the trace grows. */
  lemma GrantedGrows(t: seq<Entry>, e: Entry, k: int, m: int, conn: nat, name: string, id: Json)
    requires Granted(t, k, conn, name, id) && k <= m
    ensures Granted(t + [e], m, conn, name, id)
  {
    var i, j :| 0 <= i < j < k && j < |t| && t[j].Answered? && t[j].conn == conn && t[j].result == id
                && IsSent(t, i, conn, t[j].id) && Asks(t[i].pending.call) == Some(name);
    var u := t + [e];
    assert u[j] == t[j] && u[i] == t[i] && IsSent(u, i, conn, u[j].id);
  }

  lemma EntitledGrows(steem: bool, t: seq<Entry>, e: Entry, k: int, m: int, conn: nat, name: string, id: Json)
    requires Entitled(steem, t, k, conn, name, id) && k <= m
    ensures Entitled(steem, t + [e], m, conn, name, id)
  {
    if Granted(t, k, conn, name, id) { GrantedGrows(t, e, k, m, conn, name, id); }
  }

  lemma AllEntitledGrows(steem: bool, t: seq<Entry>, e: Entry)
    requires AllEntitled(steem, t)
    requires e.Sent? ==> Entitled(steem, t, |t|, e.conn, e.api, e.pending.call.api)
    ensures AllEntitled(steem, t + [e])
  {
    var u := t + [e];
    forall k | 0 <= k < |u| && u[k].Sent?
      ensures Entitled(steem, u, k, u[k].conn, u[k].api, u[k].pending.call.api)
    {
      EntitledGrows(steem, t, e, k, k, u[k].conn, u[k].api, u[k].pending.call.api);
    }
  }

  /** A request that goes out under a new id and, if it has one, a new future. */
  lemma SendIsOrderly(t: seq<Entry>, e: Entry)
    requires Orderly(t) && e.Sent?
    requires forall i :: !IsSent(t, i, e.conn, e.id)
    requires e.pending.future.Some? ==> forall i :: !IsRequestOf(t, i, e.pending.future.value)
    ensures Orderly(t + [e])
  {
    OneMore(t, e);
    var u := t + [e];
    forall j, conn: nat, id: nat | IsAnswered(u, j, conn, id) ensures exists i :: i < j && IsSent(u, i, conn, id) {
      var i :| i < j && IsSent(t, i, conn, id);
      assert IsSent(u, i, conn, id);
    }
  }

  lemma AnswerIsOrderly(t: seq<Entry>, e: Entry)
    requires Orderly(t) && e.Answered?
    requires forall j :: !IsAnswered(t, j, e.conn, e.id)
    requires exists i :: IsSent(t, i, e.conn, e.id)
    ensures Orderly(t + [e])
  {
    OneMore(t, e);
    var u := t + [e];
    forall j, conn: nat, id: nat | IsAnswered(u, j, conn, id) ensures exists i :: i < j && IsSent(u, i, conn, id) {
      if j < |t| {
        var i :| i < j && IsSent(t, i, conn, id);
        assert IsSent(u, i, conn, id);
      } else {
        var i :| IsSent(t, i, conn, id);
        assert IsSent(u, i, conn, id);
      }
    }
  }

  lemma SendKeepsResolved(t: seq<Entry>, e: Entry, f: nat, r: Json)
    requires e.Sent? && forall j :: !IsAnswered(t, j, e.conn, e.id)
    ensures Resolved(t + [e], f, r) <==> Resolved(t, f, r)
  {
    OneMore(t, e);
    var u := t + [e];
    if Resolved(t, f, r) {
      var i, j :| IsRequestOf(t, i, f) && IsAnswered(t, j, t[i].conn, t[i].id) && t[j].result == r;
      assert IsRequestOf(u, i, f) && IsAnswered(u, j, u[i].conn, u[i].id) && u[j].result == r;
    }
    if Resolved(u, f, r) {
      var i, j :| IsRequestOf(u, i, f) && IsAnswered(u, j, u[i].conn, u[i].id) && u[j].result == r;
      assert IsAnswered(t, j, u[i].conn, u[i].id);
      assert IsRequestOf(t, i, f) && IsAnswered(t, j, t[i].conn, t[i].id) && t[j].result == r;
    }
  }

  /** Sending under the next request id. */
  lemma SendKeeps(steem: bool, s: State, api: Api, name: string, args: seq<string>, future: Option<nat>)
    requires Inv(steem, s)
    requires future.Some? ==> future.value < s.nextFuture && forall i :: !IsRequestOf(s.trace, i, future.value)
    ensures Inv(steem, RpcCall(s, api, name, args, future))
  {
    var r := RpcCall(s, api, name, args, future);
    var id := s.requestId + 1;
    if ApiName(api) in s.grants {
      var t, u := s.trace, r.trace;
      var p := Pending(future, Call(s.grants[ApiName(api)], name, args));
      var e := Sent(s.conn, id, ApiName(api), p);
      assert u == t + [e];
      forall i ensures !IsSent(t, i, s.conn, id) { }
      forall j ensures !IsAnswered(t, j, s.conn, id) { }
      SendIsOrderly(t, e);
      AllEntitledGrows(steem, t, e);
      SendIsPending(s, r, e);
      SendKeepsFutures(s, r, e);
      forall name <- r.grants ensures Entitled(steem, u, |u|, s.conn, name, r.grants[name]) {
        EntitledGrows(steem, t, e, |t|, |u|, s.conn, name, r.grants[name]);
      }
      SendIsFresh(s, r, e);
    }
  }

  lemma SendIsFresh(s: State, r: State, e: Entry)
    requires Fresh(s) && e.Sent? && e.conn == s.conn && e.id == s.requestId + 1
    requires e.pending.future.Some? ==> e.pending.future.value < s.nextFuture
    requires r.trace == s.trace + [e] && r.conn == s.conn && r.requestId == e.id && r.nextFuture == s.nextFuture
    ensures Fresh(r)
  {
    OneMore(s.trace, e);
  }

  lemma SendIsPending(s: State, r: State, e: Entry)
    requires PendingIsUnanswered(s) && Fresh(s) && e.Sent? && e.conn == s.conn && e.id == s.requestId + 1
    requires r.trace == s.trace + [e] && r.conn == s.conn && r.requestId == e.id
    requires r.requestMap == s.requestMap[e.id := e.pending]
    ensures PendingIsUnanswered(r)
  {
    OneMore(s.trace, e);
    forall id <- r.requestMap
      ensures exists i :: IsSent(r.trace, i, r.conn, id) && r.trace[i].pending == r.requestMap[id]
    {
      if id == e.id {
        assert IsSent(r.trace, |s.trace|, r.conn, id);
      } else {
        var i :| IsSent(s.trace, i, s.conn, id) && s.trace[i].pending == s.requestMap[id];
        assert IsSent(r.trace, i, r.conn, id);
      }
    }
    forall i, id: nat | IsSent(r.trace, i, r.conn, id) && id !in r.requestMap
      ensures exists j :: IsAnswered(r.trace, j, r.conn, id)
    {
      var j :| IsAnswered(s.trace, j, s.conn, id);
      assert IsAnswered(r.trace, j, r.conn, id);
    }
  }

  lemma SendKeepsFutures(s: State, r: State, e: Entry)
    requires FuturesAreAnswers(s) && Fresh(s) && e.Sent? && e.conn == s.conn && e.id == s.requestId + 1
    requires r.trace == s.trace + [e] && r.futures == s.futures
    ensures FuturesAreAnswers(r)
  {
    forall j ensures !IsAnswered(s.trace, j, e.conn, e.id) { }
    forall f: nat, v ensures Resolved(r.trace, f, v) <==> Resolved(s.trace, f, v) {
      SendKeepsResolved(s.trace, e, f, v);
    }
  }

  /** A grant that a reply brings is one of this connection. */
  lemma AnswerGrants(steem: bool, s: State, r: State, e: Entry, i: nat)
    requires GrantsEntitled(steem, s) && e.Answered? && e.conn == s.conn && IsSent(s.trace, i, s.conn, e.id)
    requires r.trace == s.trace + [e] && r.conn == s.conn
    requires var name := Asks(s.trace[i].pending.call);
             r.grants == if name.Some? && e.result != Null then s.grants[name.value := e.result] else s.grants
    ensures GrantsEntitled(steem, r)
  {
    var t, u := s.trace, r.trace;
    forall name <- r.grants ensures Entitled(steem, u, |u|, s.conn, name, r.grants[name]) {
      if Asks(t[i].pending.call) == Some(name) && e.result != Null {
        assert u[|t|] == e && u[i] == t[i] && IsSent(u, i, s.conn, u[|t|].id);
        assert Granted(u, |u|, s.conn, name, e.result);
      } else {
        EntitledGrows(steem, t, e, |t|, |u|, s.conn, name, s.grants[name]);
      }
    }
  }

  lemma AnswerIsFresh(s: State, r: State, e: Entry)
    requires Fresh(s) && e.Answered? && e.conn == s.conn && e.id <= s.requestId
    requires r.trace == s.trace + [e] && r.conn == s.conn && r.requestId == s.requestId && r.nextFuture == s.nextFuture
    ensures Fresh(r)
  {
    OneMore(s.trace, e);
  }

  lemma RequestOfPending(s: State, id: nat) returns (i: nat)
    requires PendingIsUnanswered(s) && id in s.requestMap
    ensures IsSent(s.trace, i, s.conn, id) && s.trace[i].pending == s.requestMap[id]
    ensures forall j :: !IsAnswered(s.trace, j, s.conn, id)
  {
    i :| IsSent(s.trace, i, s.conn, id) && s.trace[i].pending == s.requestMap[id];
  }

  lemma AnswerKeepsTrace(steem: bool, t: seq<Entry>, e: Entry, i: nat)
    requires Orderly(t) && AllEntitled(steem, t) && e.Answered?
    requires IsSent(t, i, e.conn, e.id) && forall j :: !IsAnswered(t, j, e.conn, e.id)
    ensures Orderly(t + [e]) && AllEntitled(steem, t + [e])
  {
    AnswerIsOrderly(t, e);
    AllEntitledGrows(steem, t, e);
  }

  /** The state after a reply, field by field. */
  lemma AfterAnswer(s: State, r: State, e: Entry, i: nat)
    requires s.protocolUp && e.Answered? && e.conn == s.conn && e.id in s.requestMap
    requires r == OnMessage(s, e.id, e.result)
    requires IsSent(s.trace, i, s.conn, e.id) && s.trace[i].pending == s.requestMap[e.id]
    ensures r.trace == s.trace + [e] && r.requestMap == s.requestMap - {e.id}
    ensures r.conn == s.conn && r.requestId == s.requestId && r.nextFuture == s.nextFuture
    ensures var f := s.trace[i].pending.future;
            r.futures == if f.Some? then s.futures[f.value := e.result] else s.futures
    ensures var name := Asks(s.trace[i].pending.call);
            r.grants == if name.Some? && e.result != Null then s.grants[name.value := e.result] else s.grants
  { }

  /** Taking in the reply to a pending request. */
  lemma AnswerKeeps(steem: bool, s: State, id: nat, result: Json)
    requires Inv(steem, s) && s.protocolUp && id in s.requestMap
    ensures Inv(steem, OnMessage(s, id, result))
  {
    var r, e := OnMessage(s, id, result), Answered(s.conn, id, result);
    var i := RequestOfPending(s, id);
    AfterAnswer(s, r, e, i);
    AnswerKeepsWire(steem, s, r, e, i);
    AnswerKeepsLocal(steem, s, r, e, i);
  }

  lemma AnswerKeepsWire(steem: bool, s: State, r: State, e: Entry, i: nat)
    requires Orderly(s.trace) && AllEntitled(steem, s.trace) && PendingIsUnanswered(s) && Fresh(s)
    requires e.Answered? && e.conn == s.conn && e.id in s.requestMap
    requires IsSent(s.trace, i, s.conn, e.id) && forall j :: !IsAnswered(s.trace, j, s.conn, e.id)
    requires r.trace == s.trace + [e] && r.requestMap == s.requestMap - {e.id}
    requires r.conn == s.conn && r.requestId == s.requestId && r.nextFuture == s.nextFuture
    ensures Orderly(r.trace) && AllEntitled(steem, r.trace) && PendingIsUnanswered(r) && Fresh(r)
  {
    assert Orderly(r.trace) && AllEntitled(steem, r.trace) by { AnswerKeepsTrace(steem, s.trace, e, i); }
    assert PendingIsUnanswered(r) by { AnswerIsPending(s, r, e); }
    assert Fresh(r) by { AnswerIsFresh(s, r, e); }
  }

  lemma AnswerKeepsLocal(steem: bool, s: State, r: State, e: Entry, i: nat)
    requires Orderly(s.trace) && FuturesAreAnswers(s) && GrantsEntitled(steem, s)
    requires e.Answered? && e.conn == s.conn
    requires IsSent(s.trace, i, s.conn, e.id) && forall j :: !IsAnswered(s.trace, j, s.conn, e.id)
    requires r.trace == s.trace + [e] && r.conn == s.conn
    requires var f := s.trace[i].pending.future;
             r.futures == if f.Some? then s.futures[f.value := e.result] else s.futures
    requires var name := Asks(s.trace[i].pending.call);
             r.grants == if name.Some? && e.result != Null then s.grants[name.value := e.result] else s.grants
    ensures FuturesAreAnswers(r) && GrantsEntitled(steem, r)
  {
    assert FuturesAreAnswers(r) by { AnswerResolves(s, r, e, i); }
    assert GrantsEntitled(steem, r) by { AnswerGrants(steem, s, r, e, i); }
  }

  lemma AnswerIsPending(s: State, r: State, e: Entry)
    requires PendingIsUnanswered(s) && e.Answered? && e.conn == s.conn && e.id in s.requestMap
    requires r.trace == s.trace + [e] && r.conn == s.conn && r.requestId == s.requestId
    requires r.requestMap == s.requestMap - {e.id}
    ensures PendingIsUnanswered(r)
  {
    OneMore(s.trace, e);
    forall id <- r.requestMap
      ensures exists i :: IsSent(r.trace, i, r.conn, id) && r.trace[i].pending == r.requestMap[id]
    {
      var i :| IsSent(s.trace, i, s.conn, id) && s.trace[i].pending == s.requestMap[id];
      assert IsSent(r.trace, i, r.conn, id);
    }
    forall i, id: nat | IsSent(r.trace, i, r.conn, id) && id !in r.requestMap
      ensures exists j :: IsAnswered(r.trace, j, r.conn, id)
    {
      if id == e.id {
        assert IsAnswered(r.trace, |s.trace|, r.conn, id);
      } else {
        assert IsSent(s.trace, i, s.conn, id);
        var j :| IsAnswered(s.trace, j, s.conn, id);
        assert IsAnswered(r.trace, j, r.conn, id);
      }
    }
  }

  lemma ResolvedByAnswer(t: seq<Entry>, e: Entry, i: nat, f: nat, v: Json)
    requires Orderly(t) && e.Answered? && IsSent(t, i, e.conn, e.id)
    ensures Resolved(t + [e], f, v) <==> Resolved(t, f, v) || (IsRequestOf(t, i, f) && v == e.result)
  {
    var u := t + [e];
    OneMore(t, e);
    if Resolved(t, f, v) {
      var k, j :| IsRequestOf(t, k, f) && IsAnswered(t, j, t[k].conn, t[k].id) && t[j].result == v;
      assert IsRequestOf(u, k, f) && IsAnswered(u, j, u[k].conn, u[k].id) && u[j].result == v;
    }
    if IsRequestOf(t, i, f) && v == e.result {
      assert IsRequestOf(u, i, f) && IsAnswered(u, |t|, u[i].conn, u[i].id) && u[|t|].result == v;
    }
    if Resolved(u, f, v) {
      var k, j :| IsRequestOf(u, k, f) && IsAnswered(u, j, u[k].conn, u[k].id) && u[j].result == v;
      if j < |t| {
        assert IsRequestOf(t, k, f) && IsAnswered(t, j, t[k].conn, t[k].id) && t[j].result == v;
      } else {
        assert IsSent(t, k, e.conn, e.id);
      }
    }
  }

  lemma UnansweredIsUnresolved(t: seq<Entry>, i: nat, f: nat, v: Json)
    requires Orderly(t) && IsRequestOf(t, i, f) && forall j :: !IsAnswered(t, j, t[i].conn, t[i].id)
    ensures !Resolved(t, f, v)
  {
    assert forall k :: IsRequestOf(t, k, f) ==> k == i;
  }

  /** The answer adds the value of exactly the future of its own request, which had none. */
  lemma AnswerResolves(s: State, r: State, e: Entry, i: nat)
    requires Orderly(s.trace) && FuturesAreAnswers(s) && e.Answered?
    requires IsSent(s.trace, i, e.conn, e.id) && forall j :: !IsAnswered(s.trace, j, e.conn, e.id)
    requires r.trace == s.trace + [e]
    requires var f := s.trace[i].pending.future;
             r.futures == if f.Some? then s.futures[f.value := e.result] else s.futures
    ensures FuturesAreAnswers(r)
    ensures s.trace[i].pending.future.Some? ==> s.trace[i].pending.future.value !in s.futures
  {
    forall f: nat, v
      ensures Resolved(r.trace, f, v) <==> Resolved(s.trace, f, v) || (IsRequestOf(s.trace, i, f) && v == e.result)
    {
      ResolvedByAnswer(s.trace, e, i, f, v);
    }
    forall f: nat, v | IsRequestOf(s.trace, i, f) ensures !Resolved(s.trace, f, v) {
      UnansweredIsUnresolved(s.trace, i, f, v);
    }
  }

  lemma NewProtocolKeeps(steem: bool, s: State)
    requires Inv(steem, s)
    ensures Inv(steem, NewProtocol(steem, s))
  {
    var r := NewProtocol(steem, s);
    forall name <- r.grants ensures Entitled(steem, r.trace, |r.trace|, r.conn, name, r.grants[name]) { }
  }

  lemma ConnectKeeps(steem: bool, s: State, user: string, password: string)
    requires Inv(steem, s)
    ensures Inv(steem, OnConnect(steem, s, user, password))
  {
    SendKeeps(steem, s, LoginApi, "login", [user, password], None);
    var s1 := RpcCall(s, LoginApi, "login", [user, password], None);
    if steem {
      SendKeeps(steem, s1, LoginApi, "get_api_by_name", ["database_api"], None);
      var s2 := RpcCall(s1, LoginApi, "get_api_by_name", ["database_api"], None);
      SendKeeps(steem, s2, LoginApi, "get_api_by_name", ["network_node_api"], None);
      var s3 := RpcCall(s2, LoginApi, "get_api_by_name", ["network_node_api"], None);
      SendKeeps(steem, s3, LoginApi, "get_api_by_name", ["network_broadcast_api"], None);
    } else {
      SendKeeps(steem, s1, LoginApi, "network_node", [], None);
    }
  }

  lemma TakeFuture(steem: bool, s: State, r: State)
    requires Inv(steem, s) && r == s.(nextFuture := s.nextFuture + 1)
    ensures Inv(steem, r)
    ensures forall i :: !IsRequestOf(r.trace, i, s.nextFuture)
  {
    assert Fresh(r) && PendingIsUnanswered(r) && FuturesAreAnswers(r) && GrantsEntitled(steem, r);
  }

  lemma AskKeeps(steem: bool, s: State, api: Api, name: string, args: seq<string>)
    requires Inv(steem, s)
    ensures Inv(steem, WsRpcCall(s, api, name, args))
  {
    if s.loopUp && s.protocolUp {
      var r := s.(nextFuture := s.nextFuture + 1);
      TakeFuture(steem, s, r);
      SendKeeps(steem, r, api, name, args, Some(s.nextFuture));
      AskIsRpc(s, r, api, name, args);
    }
  }

  lemma AskIsRpc(s: State, r: State, api: Api, name: string, args: seq<string>)
    requires s.loopUp && s.protocolUp && r == s.(nextFuture := s.nextFuture + 1)
    ensures WsRpcCall(s, api, name, args) == RpcCall(r, api, name, args, Some(s.nextFuture))
  { }

  lemma StepKeeps(steem: bool, s: State, e: Event)
    requires Inv(steem, s)
    ensures Inv(steem, Step(steem, s, e))
  {
    match e
    case LoopStarts =>
    case ProtocolMade => NewProtocolKeeps(steem, s);
    case Connected(user, password) => ConnectKeeps(steem, s, user, password);
    case Asked(api, name, args) => AskKeeps(steem, s, api, name, args);
    case Replied(id, result) => if s.protocolUp && id in s.requestMap { AnswerKeeps(steem, s, id, result); }
    case Lost =>
  }

  /** Safety of every run: sends, replies in any order, repeated or unknown ids, reconnects. */
  lemma {:induction false} RunIsSafe(steem: bool, events: seq<Event>)
    ensures Inv(steem, Run(steem, events))
  {
    if events != [] {
      RunIsSafe(steem, events[..|events| - 1]);
      StepKeeps(steem, Run(steem, events[..|events| - 1]), events[|events| - 1]);
    }
  }

  /** In every run a reply to a pending id resolves the future of the request that was sent under this
      id on this connection, which had no value before, or else the cache entry of its call, and no
      other future or entry. A reply to any other id changes nothing. */
  lemma ReplyReachesItsRequest(steem: bool, events: seq<Event>, id: nat, result: Json)
    ensures var s := Run(steem, events);
            var r := Step(steem, s, Replied(id, result));
            if s.protocolUp && id in s.requestMap then
              var p := s.requestMap[id];
              && (exists i :: IsSent(s.trace, i, s.conn, id) && s.trace[i].pending == p)
              && (p.future.Some? ==> p.future.value !in s.futures
                                     && r.futures == s.futures[p.future.value := result] && r.results == s.results)
              && (p.future.None? ==> r.futures == s.futures && r.results == s.results[p.call := result])
            else r == s
  {
    RunIsSafe(steem, events);
    var s := Run(steem, events);
    if s.protocolUp && id in s.requestMap { ReplyReaches(s, id, result); }
  }

  lemma ReplyReaches(s: State, id: nat, result: Json)
    requires Orderly(s.trace) && PendingIsUnanswered(s) && FuturesAreAnswers(s) && s.protocolUp && id in s.requestMap
    ensures var p, r := s.requestMap[id], OnMessage(s, id, result);
            && (exists i :: IsSent(s.trace, i, s.conn, id) && s.trace[i].pending == p)
            && (p.future.Some? ==> p.future.value !in s.futures
                                   && r.futures == s.futures[p.future.value := result] && r.results == s.results)
            && (p.future.None? ==> r.futures == s.futures && r.results == s.results[p.call := result])
  {
    var i := PendingIsOpen(s, id);
  }

  /** A pending id was sent on this connection, and its future has no value yet. */
  lemma PendingIsOpen(s: State, id: nat) returns (i: nat)
    requires Orderly(s.trace) && PendingIsUnanswered(s) && FuturesAreAnswers(s) && id in s.requestMap
    ensures IsSent(s.trace, i, s.conn, id) && s.trace[i].pending == s.requestMap[id]
    ensures s.requestMap[id].future.Some? ==> s.requestMap[id].future.value !in s.futures
  {
    i := RequestOfPending(s, id);
    var f := s.requestMap[id].future;
    if f.Some? && f.value in s.futures {
      UnansweredIsUnresolved(s.trace, i, f.value, s.futures[f.value]);
    }
  }

  lemma RunSnoc(steem: bool, events: seq<Event>, e: Event)
    ensures Run(steem, events + [e]) == Step(steem, Run(steem, events), e)
  {
    var all := events + [e];
    assert all[..|all| - 1] == events && all[|all| - 1] == e;
  }

  lemma StepKeepsFuture(steem: bool, events: seq<Event>, e: Event, f: nat)
    requires f in Run(steem, events).futures
    ensures var s := Run(steem, events);
            f in Step(steem, s, e).futures && Step(steem, s, e).futures[f] == s.futures[f]
  {
    if e.Replied? { ReplyReachesItsRequest(steem, events, e.id, e.result); }
  }

  /** A future that has a value keeps it through the rest of any run. */
  lemma {:induction false} FuturesAreResolvedOnce(steem: bool, events: seq<Event>, more: seq<Event>, f: nat)
    requires f in Run(steem, events).futures
    ensures f in Run(steem, events + more).futures
            && Run(steem, events + more).futures[f] == Run(steem, events).futures[f]
  {
    if more == [] {
      assert events + more == events;
    } else {
      var init, e := more[..|more| - 1], more[|more| - 1];
      FuturesAreResolvedOnce(steem, events, init, f);
      StepKeepsFuture(steem, events + init, e, f);
      RunSnoc(steem, events + init, e);
      assert events + more == (events + init) + [e];
    }
  }

  /** Every call that was ever sent, other than a login call, used the preset database id or an id the
      server granted before on the same connection. */
  lemma CallsAreEntitled(steem: bool, events: seq<Event>, k: nat)
    requires k < |Run(steem, events).trace| && Run(steem, events).trace[k].Sent?
    requires Run(steem, events).trace[k].api != "login_api"
    ensures var t := Run(steem, events).trace;
            || (!steem && t[k].api == "database_api" && t[k].pending.call.api == Value(0))
            || Granted(t, k, t[k].conn, t[k].api, t[k].pending.call.api)
  {
    RunIsSafe(steem, events);
  }

  // ---------------------------------------------------------------- a call gets its answer

  /** Nothing that ends the connection or answers this id. */
  ghost predicate LeavesPending(e: Event, id: nat) {
    e.LoopStarts? || e.Connected? || e.Asked? || (e.Replied? && e.id != id)
  }

  ghost predicate Waiting(s: State, id: nat, p: Pending) {
    s.protocolUp && id in s.requestMap && s.requestMap[id] == p && id <= s.requestId
  }

  lemma RpcLeavesPending(s: State, api: Api, name: string, args: seq<string>, future: Option<nat>, id: nat, p: Pending)
    requires Waiting(s, id, p)
    ensures Waiting(RpcCall(s, api, name, args, future), id, p)
  { }

  lemma StepLeavesPending(steem: bool, s: State, e: Event, id: nat, p: Pending)
    requires Waiting(s, id, p) && LeavesPending(e, id)
    ensures Waiting(Step(steem, s, e), id, p)
  {
    match e
    case Connected(user, password) =>
      var s1 := RpcCall(s, LoginApi, "login", [user, password], None);
      RpcLeavesPending(s, LoginApi, "login", [user, password], None, id, p);
      if steem {
        var s2 := RpcCall(s1, LoginApi, "get_api_by_name", ["database_api"], None);
        var s3 := RpcCall(s2, LoginApi, "get_api_by_name", ["network_node_api"], None);
        RpcLeavesPending(s1, LoginApi, "get_api_by_name", ["database_api"], None, id, p);
        RpcLeavesPending(s2, LoginApi, "get_api_by_name", ["network_node_api"], None, id, p);
        RpcLeavesPending(s3, LoginApi, "get_api_by_name", ["network_broadcast_api"], None, id, p);
      } else {
        RpcLeavesPending(s1, LoginApi, "network_node", [], None, id, p);
      }
    case Asked(api, name, args) =>
      RpcLeavesPending(s.(nextFuture := s.nextFuture + 1), api, name, args, Some(s.nextFuture), id, p);
    case _ =>
  }

  lemma {:induction false} StaysPending(steem: bool, events: seq<Event>, between: seq<Event>, id: nat, p: Pending)
    requires Waiting(Run(steem, events), id, p)
    requires forall e <- between :: LeavesPending(e, id)
    ensures Waiting(Run(steem, events + between), id, p)
  {
    if between == [] {
      assert events + between == events;
    } else {
      var init, e := between[..|between| - 1], between[|between| - 1];
      assert e in between;
      StaysPending(steem, events, init, id, p);
      StepLeavesPending(steem, Run(steem, events + init), e, id, p);
      RunSnoc(steem, events + init, e);
      assert events + between == (events + init) + [e];
    }
  }

  /** A call to an api the client has an id for goes out under the next request id; whatever else is
      sent or answered meanwhile, its future has no value until the reply to this id, and then has the
      result of that reply. */
  lemma AnsweredCallResolves(steem: bool, events: seq<Event>, call: Event, between: seq<Event>, result: Json)
    requires var s := Run(steem, events);
             s.loopUp && s.protocolUp && call.Asked? && ApiName(call.api) in s.grants
    requires forall e <- between :: LeavesPending(e, Run(steem, events).requestId + 1)
    ensures var id, f := Run(steem, events).requestId + 1, Run(steem, events).nextFuture;
            var waiting := Run(steem, events + [call] + between);
            var done := Step(steem, waiting, Replied(id, result));
            f !in waiting.futures && f in done.futures && done.futures[f] == result
  {
    var s, all := Run(steem, events), events + [call];
    RunSnoc(steem, events, call);
    var p := AskWaits(s, call.api, call.name, call.args);
    StaysPending(steem, all, between, s.requestId + 1, p);
    ReplyResolves(steem, all + between, s.requestId + 1, p, result);
  }

  lemma ReplyResolves(steem: bool, events: seq<Event>, id: nat, p: Pending, result: Json)
    requires Waiting(Run(steem, events), id, p) && p.future.Some?
    ensures var s, f := Run(steem, events), p.future.value;
            var r := Step(steem, s, Replied(id, result));
            f !in s.futures && f in r.futures && r.futures[f] == result
  {
    RunIsSafe(steem, events);
    var i := PendingIsOpen(Run(steem, events), id);
  }

  lemma AskWaits(s: State, api: Api, name: string, args: seq<string>) returns (p: Pending)
    requires s.loopUp && s.protocolUp && ApiName(api) in s.grants
    ensures p.future == Some(s.nextFuture) && Waiting(WsRpcCall(s, api, name, args), s.requestId + 1, p)
  {
    p := Pending(Some(s.nextFuture), Call(s.grants[ApiName(api)], name, args));
  }
}
