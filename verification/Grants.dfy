/** Which api id a call of the websocket client carries: that of the latest grant on its connection. */
module Grants {
  import opened Wrappers
  import opened Graphene

  /** Entry j is the answer that grants `name` on this connection. */
  ghost predicate GrantedAt(t: seq<Entry>, j: int, conn: nat, name: string) {
    && 0 <= j < |t| && t[j].Answered? && t[j].conn == conn && t[j].result != Null
    && exists i :: IsSent(t, i, conn, t[j].id) && Asks(t[i].pending.call) == Some(name)
  }

  function PresetOf(steem: bool, name: string): Option<Json> {
    if name in Preset(steem) then Some(Preset(steem)[name]) else None
  }

  /** The id of the latest grant, or the preset one. */
  ghost function Latest(steem: bool, t: seq<Entry>, conn: nat, name: string): Option<Json> {
    if t == [] then PresetOf(steem, name)
    else if GrantedAt(t, |t| - 1, conn, name) then Some(t[|t| - 1].result)
    else Latest(steem, t[..|t| - 1], conn, name)
  }

  function GrantOf(s: State, name: string): Option<Json> {
    if name in s.grants then Some(s.grants[name]) else None
  }

  /** What the client has for an api is the latest grant. */
  ghost predicate Current(steem: bool, s: State) {
    if s.conn == 0 then s.grants == map[] && !s.protocolUp
    else forall name :: GrantOf(s, name) == Latest(steem, s.trace, s.conn, name)
  }

  /** So was what each call carried, when it was sent. */
  ghost predicate AllLatest(steem: bool, t: seq<Entry>) {
    forall k :: 0 <= k < |t| && t[k].Sent? ==> Latest(steem, t[..k], t[k].conn, t[k].api) == Some(t[k].pending.call.api)
  }

  ghost predicate IsCurrent(steem: bool, s: State) {
    Current(steem, s) && AllLatest(steem, s.trace)
  }

  lemma AllLatestGrows(steem: bool, t: seq<Entry>, e: Entry)
    requires AllLatest(steem, t)
    requires e.Sent? ==> Latest(steem, t, e.conn, e.api) == Some(e.pending.call.api)
    ensures AllLatest(steem, t + [e])
  {
    var u := t + [e];
    forall k | 0 <= k < |u| && u[k].Sent?
      ensures Latest(steem, u[..k], u[k].conn, u[k].api) == Some(u[k].pending.call.api)
    {
      assert u[..k] == t[..k];
      assert t[..|t|] == t;
    }
  }

  lemma LatestAfter(steem: bool, t: seq<Entry>, e: Entry, conn: nat, name: string)
    ensures Latest(steem, t + [e], conn, name) ==
            if GrantedAt(t + [e], |t|, conn, name) then Some(e.result) else Latest(steem, t, conn, name)
  {
    assert (t + [e])[..|t|] == t;
  }

  /** A grant is an answer to the request that was sent under its id. */
  lemma AnswerGrantsWhat(t: seq<Entry>, e: Entry, i: nat, name: string)
    requires Orderly(t) && e.Answered? && IsSent(t, i, e.conn, e.id)
    ensures GrantedAt(t + [e], |t|, e.conn, name) <==> e.result != Null && Asks(t[i].pending.call) == Some(name)
  {
    var u := t + [e];
    OneMore(t, e);
    assert IsSent(u, i, e.conn, e.id) && u[i] == t[i];
    forall k | IsSent(u, k, e.conn, e.id) ensures k == i { assert IsSent(t, k, e.conn, e.id); }
  }

  /** On a new connection nothing was granted yet. */
  lemma {:induction false} LatestOnNew(steem: bool, t: seq<Entry>, conn: nat, name: string)
    requires forall k :: 0 <= k < |t| ==> t[k].conn < conn
    ensures Latest(steem, t, conn, name) == PresetOf(steem, name)
  {
    if t != [] { LatestOnNew(steem, t[..|t| - 1], conn, name); }
  }

  lemma SendKeepsCurrent(steem: bool, s: State, api: Api, name: string, args: seq<string>, future: Option<nat>)
    requires IsCurrent(steem, s)
    ensures IsCurrent(steem, RpcCall(s, api, name, args, future))
  {
    var r := RpcCall(s, api, name, args, future);
    if ApiName(api) in s.grants {
      var e := r.trace[|s.trace|];
      assert r.trace == s.trace + [e];
      assert GrantOf(s, ApiName(api)) == Latest(steem, s.trace, s.conn, ApiName(api));
      AllLatestGrows(steem, s.trace, e);
      forall n ensures GrantOf(r, n) == Latest(steem, r.trace, r.conn, n) { LatestAfter(steem, s.trace, e, s.conn, n); }
    }
  }

  lemma AnswerKeepsCurrent(steem: bool, s: State, id: nat, result: Json)
    requires IsCurrent(steem, s) && Orderly(s.trace) && PendingIsUnanswered(s)
    requires s.protocolUp && id in s.requestMap
    ensures IsCurrent(steem, OnMessage(s, id, result))
  {
    var r, e := OnMessage(s, id, result), Answered(s.conn, id, result);
    var i := RequestOfPending(s, id);
    AllLatestGrows(steem, s.trace, e);
    forall n ensures GrantOf(r, n) == Latest(steem, r.trace, r.conn, n) {
      LatestAfter(steem, s.trace, e, s.conn, n);
      AnswerGrantsWhat(s.trace, e, i, n);
    }
  }

  lemma NewProtocolIsCurrent(steem: bool, s: State)
    requires Fresh(s)
    ensures Current(steem, NewProtocol(steem, s))
  {
    var r := NewProtocol(steem, s);
    forall n ensures GrantOf(r, n) == Latest(steem, r.trace, r.conn, n) { LatestOnNew(steem, s.trace, r.conn, n); }
  }

  lemma ConnectKeepsCurrent(steem: bool, s: State, user: string, password: string)
    requires IsCurrent(steem, s)
    ensures IsCurrent(steem, OnConnect(steem, s, user, password))
  {
    SendKeepsCurrent(steem, s, LoginApi, "login", [user, password], None);
    var s1 := RpcCall(s, LoginApi, "login", [user, password], None);
    if steem {
      SendKeepsCurrent(steem, s1, LoginApi, "get_api_by_name", ["database_api"], None);
      var s2 := RpcCall(s1, LoginApi, "get_api_by_name", ["database_api"], None);
      SendKeepsCurrent(steem, s2, LoginApi, "get_api_by_name", ["network_node_api"], None);
      var s3 := RpcCall(s2, LoginApi, "get_api_by_name", ["network_node_api"], None);
      SendKeepsCurrent(steem, s3, LoginApi, "get_api_by_name", ["network_broadcast_api"], None);
    } else {
      SendKeepsCurrent(steem, s1, LoginApi, "network_node", [], None);
    }
  }

  lemma SameGrants(steem: bool, s: State, r: State)
    requires Current(steem, s) && r.grants == s.grants && r.trace == s.trace && r.conn == s.conn
    requires s.conn == 0 ==> !r.protocolUp
    ensures Current(steem, r)
  {
    assert forall n :: GrantOf(r, n) == GrantOf(s, n);
  }

  lemma AskKeepsCurrent(steem: bool, s: State, api: Api, name: string, args: seq<string>)
    requires IsCurrent(steem, s)
    ensures IsCurrent(steem, WsRpcCall(s, api, name, args))
  {
    if s.loopUp && s.protocolUp {
      var taken := s.(nextFuture := s.nextFuture + 1);
      SameGrants(steem, s, taken);
      SendKeepsCurrent(steem, taken, api, name, args, Some(s.nextFuture));
      assert WsRpcCall(s, api, name, args) == RpcCall(taken, api, name, args, Some(s.nextFuture));
    }
  }

  lemma StepKeepsCurrent(steem: bool, s: State, e: Event)
    requires Inv(steem, s) && IsCurrent(steem, s)
    ensures IsCurrent(steem, Step(steem, s, e))
  {
    match e
    case LoopStarts => SameGrants(steem, s, Step(steem, s, e));
    case ProtocolMade => NewProtocolIsCurrent(steem, s);
    case Connected(user, password) => ConnectKeepsCurrent(steem, s, user, password);
    case Asked(api, name, args) => AskKeepsCurrent(steem, s, api, name, args);
    case Replied(id, result) => if s.protocolUp && id in s.requestMap { AnswerKeepsCurrent(steem, s, id, result); }
    case Lost => SameGrants(steem, s, Step(steem, s, e));
  }

  lemma {:induction false} RunIsCurrent(steem: bool, events: seq<Event>)
    ensures IsCurrent(steem, Run(steem, events))
  {
    if events != [] {
      var init := events[..|events| - 1];
      RunIsCurrent(steem, init);
      RunIsSafe(steem, init);
      StepKeepsCurrent(steem, Run(steem, init), events[|events| - 1]);
    }
  }

  /** Every call that was ever sent carries the id of the latest grant of its api that its connection had
      seen by then, or else the preset one. */
  lemma CallsUseLatestGrant(steem: bool, events: seq<Event>, k: nat)
    requires k < |Run(steem, events).trace| && Run(steem, events).trace[k].Sent?
    ensures var t := Run(steem, events).trace;
            Latest(steem, t[..k], t[k].conn, t[k].api) == Some(t[k].pending.call.api)
  {
    RunIsCurrent(steem, events);
  }

  // ---------------------------------------------------------------- a granted api is used

  /** No new connection, and no other grant of this api. */
  ghost predicate KeepsGrant(s: State, e: Event, name: string) {
    && !e.ProtocolMade?
    && !(e.Replied? && s.protocolUp && e.id in s.requestMap && e.result != Null
         && Asks(s.requestMap[e.id].call) == Some(name))
  }

  lemma SendsKeepGrants(steem: bool, s: State, user: string, password: string)
    ensures OnConnect(steem, s, user, password).grants == s.grants
  {
    var s1 := RpcCall(s, LoginApi, "login", [user, password], None);
    if steem {
      var s2 := RpcCall(s1, LoginApi, "get_api_by_name", ["database_api"], None);
      var s3 := RpcCall(s2, LoginApi, "get_api_by_name", ["network_node_api"], None);
      assert s1.grants == s.grants && s2.grants == s.grants && s3.grants == s.grants;
    } else {
      assert s1.grants == s.grants;
    }
  }

  lemma StepKeepsGrant(steem: bool, s: State, e: Event, name: string)
    requires KeepsGrant(s, e, name)
    ensures GrantOf(Step(steem, s, e), name) == GrantOf(s, name)
  {
    match e
    case Connected(user, password) => SendsKeepGrants(steem, s, user, password);
    case _ =>
  }

  lemma RunStepKeepsGrant(steem: bool, events: seq<Event>, e: Event, name: string)
    requires KeepsGrant(Run(steem, events), e, name)
    ensures GrantOf(Run(steem, events + [e]), name) == GrantOf(Run(steem, events), name)
  {
    RunSnoc(steem, events, e);
    StepKeepsGrant(steem, Run(steem, events), e, name);
  }

  /** So do all events of a run. */
  ghost predicate AllKeepGrant(steem: bool, events: seq<Event>, between: seq<Event>, name: string) {
    between != [] ==>
      var init := between[..|between| - 1];
      AllKeepGrant(steem, events, init, name)
      && KeepsGrant(Run(steem, events + init), between[|between| - 1], name)
  }

  lemma {:induction false} GrantStays(steem: bool, events: seq<Event>, between: seq<Event>, name: string)
    requires AllKeepGrant(steem, events, between, name)
    ensures GrantOf(Run(steem, events + between), name) == GrantOf(Run(steem, events), name)
  {
    if between == [] {
      assert events + between == events;
    } else {
      var init, e := between[..|between| - 1], between[|between| - 1];
      GrantStays(steem, events, init, name);
      RunStepKeepsGrant(steem, events + init, e, name);
      assert events + between == (events + init) + [e];
    }
  }

  lemma GrantHolds(steem: bool, events: seq<Event>, id: nat, result: Json, between: seq<Event>, name: string)
    requires var s := Run(steem, events);
             s.protocolUp && id in s.requestMap && Asks(s.requestMap[id].call) == Some(name) && result != Null
    requires AllKeepGrant(steem, events + [Replied(id, result)], between, name)
    ensures GrantOf(Run(steem, events + [Replied(id, result)] + between), name) == Some(result)
  {
    RunSnoc(steem, events, Replied(id, result));
    ReplyGrants(Run(steem, events), id, result, name);
    GrantStays(steem, events + [Replied(id, result)], between, name);
  }

  /** A login call that asked for an api opens it unless the server answered null: whatever happens in
      between, short of a new connection or another grant of it, the next call to the api goes out with
      the id of the reply. */
  lemma GrantedApiIsUsed(steem: bool, events: seq<Event>, id: nat, result: Json, between: seq<Event>, call: Event)
    requires call.Asked?
    requires var s := Run(steem, events);
             && s.protocolUp && id in s.requestMap && Asks(s.requestMap[id].call) == Some(ApiName(call.api))
             && result != Null && AllKeepGrant(steem, events + [Replied(id, result)], between, ApiName(call.api))
    requires var r := Run(steem, events + [Replied(id, result)] + between); r.loopUp && r.protocolUp
    ensures var past := events + [Replied(id, result)] + between;
            CallGoesOut(Run(steem, past), Run(steem, past + [call]), call, result)
  {
    var past := events + [Replied(id, result)] + between;
    GrantHolds(steem, events, id, result, between, ApiName(call.api));
    RunSnoc(steem, past, call);
    CallCarries(Run(steem, past), call, result);
  }

  /** The call was sent, under the next request id and with this api id. */
  ghost predicate CallGoesOut(s: State, r: State, call: Event, id: Json)
    requires call.Asked?
  {
    r.trace == s.trace + [Sent(s.conn, s.requestId + 1, ApiName(call.api),
                               Pending(Some(s.nextFuture), Call(id, call.name, call.args)))]
  }

  lemma ReplyGrants(s: State, id: nat, result: Json, name: string)
    requires s.protocolUp && id in s.requestMap && Asks(s.requestMap[id].call) == Some(name) && result != Null
    ensures GrantOf(OnMessage(s, id, result), name) == Some(result)
  { }

  lemma CallCarries(s: State, call: Event, id: Json)
    requires call.Asked? && s.loopUp && s.protocolUp && GrantOf(s, ApiName(call.api)) == Some(id)
    ensures CallGoesOut(s, WsRpcCall(s, call.api, call.name, call.args), call, id)
  { }

  // ---------------------------------------------------------------- cached results

  /** Request i was sent for this call on this connection, without a future, and entry j answers it. */
  ghost predicate AnswersCall(t: seq<Entry>, i: int, j: int, conn: nat, call: Call, result: Json) {
    && 0 <= i < |t| && 0 <= j < |t| && t[i].Sent? && t[i].conn == conn
    && t[i].pending == Pending(None, call)
    && IsAnswered(t, j, conn, t[i].id) && t[j].result == result
  }

  /** Everything in the cache was answered on this connection. */
  ghost predicate CacheIsAnswers(s: State) {
    forall call <- s.results :: exists i, j :: AnswersCall(s.trace, i, j, s.conn, call, s.results[call])
  }

  lemma AnswersCallGrows(t: seq<Entry>, e: Entry, i: int, j: int, conn: nat, call: Call, result: Json)
    requires AnswersCall(t, i, j, conn, call, result)
    ensures AnswersCall(t + [e], i, j, conn, call, result)
  {
    var u := t + [e];
    assert u[i] == t[i] && u[j] == t[j];
  }

  lemma CacheGrows(s: State, r: State, e: Entry)
    requires CacheIsAnswers(s) && r.results == s.results && r.conn == s.conn && r.trace == s.trace + [e]
    ensures CacheIsAnswers(r)
  {
    forall call <- r.results ensures exists i, j :: AnswersCall(r.trace, i, j, r.conn, call, r.results[call]) {
      var i, j :| AnswersCall(s.trace, i, j, s.conn, call, s.results[call]);
      AnswersCallGrows(s.trace, e, i, j, s.conn, call, s.results[call]);
    }
  }

  lemma SendKeepsCache(s: State, api: Api, name: string, args: seq<string>, future: Option<nat>)
    requires CacheIsAnswers(s)
    ensures CacheIsAnswers(RpcCall(s, api, name, args, future))
  {
    var r := RpcCall(s, api, name, args, future);
    if ApiName(api) in s.grants { CacheGrows(s, r, r.trace[|s.trace|]); }
  }

  lemma AnswerKeepsCache(s: State, id: nat, result: Json)
    requires CacheIsAnswers(s) && PendingIsUnanswered(s) && s.protocolUp && id in s.requestMap
    ensures CacheIsAnswers(OnMessage(s, id, result))
  {
    var r, e, p := OnMessage(s, id, result), Answered(s.conn, id, result), s.requestMap[id];
    var k := RequestOfPending(s, id);
    forall call <- r.results ensures exists i, j :: AnswersCall(r.trace, i, j, r.conn, call, r.results[call]) {
      if p.future.None? && call == p.call {
        assert r.trace[k] == s.trace[k] && r.trace[|s.trace|] == e;
        assert AnswersCall(r.trace, k, |s.trace|, r.conn, call, result);
      } else {
        var i, j :| AnswersCall(s.trace, i, j, s.conn, call, s.results[call]);
        AnswersCallGrows(s.trace, e, i, j, s.conn, call, s.results[call]);
      }
    }
  }

  lemma ConnectKeepsCache(steem: bool, s: State, user: string, password: string)
    requires CacheIsAnswers(s)
    ensures CacheIsAnswers(OnConnect(steem, s, user, password))
  {
    SendKeepsCache(s, LoginApi, "login", [user, password], None);
    var s1 := RpcCall(s, LoginApi, "login", [user, password], None);
    if steem {
      SendKeepsCache(s1, LoginApi, "get_api_by_name", ["database_api"], None);
      var s2 := RpcCall(s1, LoginApi, "get_api_by_name", ["database_api"], None);
      SendKeepsCache(s2, LoginApi, "get_api_by_name", ["network_node_api"], None);
      var s3 := RpcCall(s2, LoginApi, "get_api_by_name", ["network_node_api"], None);
      SendKeepsCache(s3, LoginApi, "get_api_by_name", ["network_broadcast_api"], None);
    } else {
      SendKeepsCache(s1, LoginApi, "network_node", [], None);
    }
  }

  lemma SameCache(s: State, r: State)
    requires CacheIsAnswers(s) && r.results == s.results && r.conn == s.conn && r.trace == s.trace
    ensures CacheIsAnswers(r)
  {
    forall call <- r.results ensures exists i, j :: AnswersCall(r.trace, i, j, r.conn, call, r.results[call]) {
      var i, j :| AnswersCall(s.trace, i, j, s.conn, call, s.results[call]);
      assert AnswersCall(r.trace, i, j, r.conn, call, r.results[call]);
    }
  }

  lemma AskAddsEntry(s: State, api: Api, name: string, args: seq<string>)
    ensures var r := WsRpcCall(s, api, name, args);
            && r.results == s.results && r.conn == s.conn
            && (r.trace == s.trace || (|r.trace| > |s.trace| && r.trace == s.trace + [r.trace[|s.trace|]]))
  { }

  lemma AskKeepsCache(s: State, api: Api, name: string, args: seq<string>)
    requires CacheIsAnswers(s)
    ensures CacheIsAnswers(WsRpcCall(s, api, name, args))
  {
    var r := WsRpcCall(s, api, name, args);
    AskAddsEntry(s, api, name, args);
    if r.trace == s.trace { SameCache(s, r); } else { CacheGrows(s, r, r.trace[|s.trace|]); }
  }

  lemma StepKeepsCache(steem: bool, s: State, e: Event)
    requires CacheIsAnswers(s) && PendingIsUnanswered(s)
    ensures CacheIsAnswers(Step(steem, s, e))
  {
    match e
    case Connected(user, password) => ConnectKeepsCache(steem, s, user, password);
    case Asked(api, name, args) => AskKeepsCache(s, api, name, args);
    case Replied(id, result) => if s.protocolUp && id in s.requestMap { AnswerKeepsCache(s, id, result); }
    case _ =>
  }

  /** In every run the cache holds only answers of the current connection to calls that nobody waited
      for: those of earlier connections are forgotten. */
  lemma {:induction false} CacheIsOfThisConnection(steem: bool, events: seq<Event>)
    ensures CacheIsAnswers(Run(steem, events))
  {
    if events != [] {
      var init := events[..|events| - 1];
      CacheIsOfThisConnection(steem, init);
      RunIsSafe(steem, init);
      StepKeepsCache(steem, Run(steem, init), events[|events| - 1]);
    }
  }

  // ---------------------------------------------------------------- a lost connection

  /** Once the connection is lost nothing is sent or taken until there is a new one. */
  lemma {:induction false} LostIsSilent(steem: bool, events: seq<Event>, more: seq<Event>)
    requires forall e <- more :: !e.LoopStarts? && !e.ProtocolMade?
    ensures var s, r := Run(steem, events), Run(steem, events + [Lost] + more);
            && !r.loopUp && !r.protocolUp && r.trace == s.trace && r.futures == s.futures && r.requestId == s.requestId
  {
    if more == [] {
      assert events + [Lost] + more == events + [Lost];
      RunSnoc(steem, events, Lost);
    } else {
      var init, e := more[..|more| - 1], more[|more| - 1];
      assert e in more;
      LostIsSilent(steem, events, init);
      RunSnoc(steem, events + [Lost] + init, e);
      assert events + [Lost] + more == (events + [Lost] + init) + [e];
    }
  }
}
