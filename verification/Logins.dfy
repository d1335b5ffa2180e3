/** The login calls made on connecting, and the apis that their answers open, by name. */
module Logins {
  import opened Wrappers
  import opened Graphene
  import opened Grants

  /** A request made on connecting: nobody waits for it. */
  function LoginEntry(conn: nat, id: nat, name: string, args: seq<string>): Entry {
    Sent(conn, id, "login_api", Pending(None, Call(Value(1), name, args)))
  }

  /** The calls of a new connection, under the ids from 1 on. */
  function LoginEntries(steem: bool, conn: nat, user: string, password: string): seq<Entry> {
    [LoginEntry(conn, 1, "login", [user, password])] +
    if steem then
      [LoginEntry(conn, 2, "get_api_by_name", ["database_api"]),
       LoginEntry(conn, 3, "get_api_by_name", ["network_node_api"]),
       LoginEntry(conn, 4, "get_api_by_name", ["network_broadcast_api"])]
    else [LoginEntry(conn, 2, "network_node", [])]
  }

  lemma SendOne(s: State, name: string, args: seq<string>)
    requires "login_api" in s.grants && s.grants["login_api"] == Value(1)
    ensures var e := LoginEntry(s.conn, s.requestId + 1, name, args);
            RpcCall(s, LoginApi, name, args, None) ==
            s.(requestId := s.requestId + 1, requestMap := s.requestMap[s.requestId + 1 := e.pending],
               trace := s.trace + [e])
  { }

  /** Every new connection begins with these calls, and they are pending. */
  lemma ConnectSends(steem: bool, s: State, user: string, password: string)
    ensures var r := OnConnect(steem, NewProtocol(steem, s), user, password);
            var sent := LoginEntries(steem, s.conn + 1, user, password);
            && r.trace == s.trace + sent && r.requestId == |sent| && r.conn == s.conn + 1 && r.protocolUp
            && forall i :: 0 <= i < |sent| ==> i + 1 in r.requestMap && r.requestMap[i + 1] == sent[i].pending
  {
    var s0 := NewProtocol(steem, s);
    var conn := s.conn + 1;
    var e1 := LoginEntry(conn, 1, "login", [user, password]);
    SendOne(s0, "login", [user, password]);
    var s1 := RpcCall(s0, LoginApi, "login", [user, password], None);
    if steem {
      var s2 := RpcCall(s1, LoginApi, "get_api_by_name", ["database_api"], None);
      var s3 := RpcCall(s2, LoginApi, "get_api_by_name", ["network_node_api"], None);
      SendOne(s1, "get_api_by_name", ["database_api"]);
      SendOne(s2, "get_api_by_name", ["network_node_api"]);
      SendOne(s3, "get_api_by_name", ["network_broadcast_api"]);
      assert LoginEntries(steem, conn, user, password) ==
        [e1, LoginEntry(conn, 2, "get_api_by_name", ["database_api"]),
         LoginEntry(conn, 3, "get_api_by_name", ["network_node_api"]),
         LoginEntry(conn, 4, "get_api_by_name", ["network_broadcast_api"])];
    } else {
      SendOne(s1, "network_node", []);
      assert LoginEntries(steem, conn, user, password) == [e1, LoginEntry(conn, 2, "network_node", [])];
    }
  }

  /** The call asks for the id of the api with this name. */
  predicate IsLoginFor(call: Call, name: string) {
    call.api == Value(1) &&
    if call.name == "network_node" then name == "network_node_api"
    else call.name == "get_api_by_name" && call.args != [] && call.args[0] == name
  }

  /** No new connection, and no answer with an id to another call for that of this api. */
  ghost predicate Quiet(steem: bool, events: seq<Event>, more: seq<Event>, name: string) {
    more != [] ==>
      var init, e := more[..|more| - 1], more[|more| - 1];
      var s := Run(steem, events + init);
      && Quiet(steem, events, init, name) && !e.ProtocolMade?
      && !(e.Replied? && s.protocolUp && e.id in s.requestMap && e.result != Null
           && IsLoginFor(s.requestMap[e.id].call, name))
  }

  lemma {:induction false} QuietKeepsGrant(steem: bool, events: seq<Event>, more: seq<Event>, name: string)
    requires Quiet(steem, events, more, name)
    ensures AllKeepGrant(steem, events, more, name)
  {
    if more != [] { QuietKeepsGrant(steem, events, more[..|more| - 1], name); }
  }

  /** The login call that opens an api, by its request id. */
  predicate Opens(steem: bool, id: nat, api: Api, name: string) {
    if steem then
      || (id == 2 && api == DatabaseApi && name == "database_api")
      || (id == 3 && api == NetworkApi && name == "network_node_api")
      || (id == 4 && api == NetworkBroadcastApi && name == "network_broadcast_api")
    else id == 2 && api == NetworkApi && name == "network_node_api"
  }

  lemma OpensAsks(steem: bool, id: nat, api: Api, name: string, conn: nat, user: string, password: string)
    requires Opens(steem, id, api, name)
    ensures var sent := LoginEntries(steem, conn, user, password);
            && ApiName(api) == name && 1 <= id <= |sent| && Asks(sent[id - 1].pending.call) == Some(name)
  { }

  lemma ConnectRun(steem: bool, events: seq<Event>, user: string, password: string)
    ensures Run(steem, events + [ProtocolMade, Connected(user, password)]) ==
            OnConnect(steem, NewProtocol(steem, Run(steem, events)), user, password)
  {
    RunSnoc(steem, events, ProtocolMade);
    RunSnoc(steem, events + [ProtocolMade], Connected(user, password));
    assert events + [ProtocolMade] + [Connected(user, password)] == events + [ProtocolMade, Connected(user, password)];
  }

  /** The call waits for its answer. */
  lemma LoginWaits(steem: bool, events: seq<Event>, user: string, password: string, between: seq<Event>,
      id: nat, api: Api, apiName: string)
    requires Opens(steem, id, api, apiName) && forall e <- between :: LeavesPending(e, id)
    ensures var r := Run(steem, events + [ProtocolMade, Connected(user, password)] + between);
            && ApiName(api) == apiName && r.protocolUp && id in r.requestMap
            && Asks(r.requestMap[id].call) == Some(apiName)
  {
    var connected := events + [ProtocolMade, Connected(user, password)];
    var s := Run(steem, events);
    ConnectRun(steem, events, user, password);
    ConnectSends(steem, s, user, password);
    OpensAsks(steem, id, api, apiName, s.conn + 1, user, password);
    var p := LoginEntries(steem, s.conn + 1, user, password)[id - 1].pending;
    assert Waiting(Run(steem, connected), id, p);
    StaysPending(steem, connected, between, id, p);
  }

  /** From a new connection to a call that goes out: the answer to its second call opens the network api,
      and with Steem those to its second, third and fourth call open the database, the network and the
      broadcast api. The next call to the api is sent with the id in the answer, whatever else happens
      before and after it, short of a new connection or another answer of this kind. */
  lemma LoginOpensApi(steem: bool, events: seq<Event>, user: string, password: string, between: seq<Event>,
      id: nat, result: Json, more: seq<Event>, api: Api, apiName: string, name: string, args: seq<string>)
    requires Opens(steem, id, api, apiName) && result != Null
    requires forall e <- between :: LeavesPending(e, id)
    requires var granted := events + [ProtocolMade, Connected(user, password)] + between + [Replied(id, result)];
             && Quiet(steem, granted, more, apiName)
             && Run(steem, granted + more).loopUp && Run(steem, granted + more).protocolUp
    ensures var past := events + [ProtocolMade, Connected(user, password)] + between + [Replied(id, result)] + more;
            var r := Run(steem, past);
            Run(steem, past + [Asked(api, name, args)]).trace ==
            r.trace + [Sent(r.conn, r.requestId + 1, apiName, Pending(Some(r.nextFuture), Call(result, name, args)))]
  {
    var connected := events + [ProtocolMade, Connected(user, password)];
    LoginWaits(steem, events, user, password, between, id, api, apiName);
    QuietKeepsGrant(steem, connected + between + [Replied(id, result)], more, apiName);
    GrantedApiIsUsed(steem, connected + between, id, result, more, Asked(api, name, args));
  }

  /** A call to an api without an id is not sent, but it uses up a request id: the next one that is sent
      has the id behind it. */
  lemma DroppedCallUsesId(s: State, api: Api, name: string, args: seq<string>, future: Option<nat>)
    requires ApiName(api) !in s.grants
    ensures var r := RpcCall(s, api, name, args, future);
            r.trace == s.trace && r.requestMap == s.requestMap && r.requestId == s.requestId + 1
  { }
}
