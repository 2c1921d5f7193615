/**
 The stdio proxy in front of an arbitrary upstream: which messages it posts, with
 which session, and what it relays back.
 */
module StdioProxy {
  import opened Options
  import opened Json
  import opened StatelessProtocol

  /** One POST: the message, the protocol version of its standard headers if it is
      stateless, and the session id header if it has one. */
  datatype Post = Post(payload: Value, stateless: Option<string>, session: Option<string>)

  /** What reading a response body yields: whether it is blank, whether it is an event
      stream and with which events, and the JSON value it holds. */
  datatype Body = Body(blank: bool, eventStream: bool, events: seq<Value>, json: Option<Value>)

  /** How a POST ends. A body that cannot be read still had its headers read. */
  datatype Reply =
    | SendFailed
    | BodyFailed(session: Option<string>)
    | Replied(session: Option<string>, status: nat, body: Body)

  datatype Result<T> = Ok(value: T) | Err

  const NOT_FOUND := 404

  predicate IsSuccess(status: nat) {
    200 <= status < 300
  }

  predicate IsInitialize(payload: Value) {
    GetStr(payload, "method") == Some("initialize")
  }

  const INITIALIZED: Value := Obj(map["jsonrpc" := Str("2.0"), "method" := Str("notifications/initialized"),
                                      "params" := Obj(map[])])

  function SessionHeader(reply: Reply): Option<string> {
    match reply
    case SendFailed => None
    case BodyFailed(session) => session
    case Replied(session, _, _) => session
  }

  /** The messages that a reply carries for the client. */
  function Messages(status: nat, body: Body): Result<seq<Value>> {
    if !IsSuccess(status) then (match body.json case Some(v) => Ok([v]) case None => Err)
    else if body.blank then Ok([])
    else if body.eventStream then Ok(body.events)
    else match body.json case Some(v) => Ok([v]) case None => Err
  }

  // ---------------------------------------------------------------- session discipline

  /** The session that upstream has given out last, since the last handshake began. */
  function LatestSession(posts: seq<Post>, replies: seq<Reply>): Option<string>
    requires |posts| == |replies|
  {
    if posts == [] then None
    else
      var last := |posts| - 1;
      match SessionHeader(replies[last])
      case Some(session) => Some(session)
      case None => if IsInitialize(posts[last].payload) then None else LatestSession(posts[..last], replies[..last])
  }

  ghost predicate HandshakeSeen(posts: seq<Post>) {
    exists j :: 0 <= j < |posts| && IsInitialize(posts[j].payload)
  }

  /** After a handshake no post is stateless; a handshake carries no session, and
      everything else carries the one given out last. */
  ghost predicate LegacyPostOk(posts: seq<Post>, replies: seq<Reply>, k: nat)
    requires |posts| == |replies| && k < |posts|
  {
    && posts[k].stateless.None?
    && (if IsInitialize(posts[k].payload) then posts[k].session.None?
        else posts[k].session.Some? && posts[k].session == LatestSession(posts[..k], replies[..k]))
  }

  ghost predicate Disciplined(posts: seq<Post>, replies: seq<Reply>) {
    && |posts| == |replies|
    && forall k :: 0 <= k < |posts| && HandshakeSeen(posts[..k + 1]) ==> LegacyPostOk(posts, replies, k)
  }

  lemma DisciplineGrows(posts: seq<Post>, replies: seq<Reply>, post: Post, reply: Reply)
    requires Disciplined(posts, replies)
    requires HandshakeSeen(posts) || IsInitialize(post.payload) ==>
               post.stateless.None?
               && (if IsInitialize(post.payload) then post.session.None?
                   else post.session.Some? && post.session == LatestSession(posts, replies))
    ensures Disciplined(posts + [post], replies + [reply])
    ensures HandshakeSeen(posts + [post]) <==> HandshakeSeen(posts) || IsInitialize(post.payload)
  {
    var posts', replies' := posts + [post], replies + [reply];
    assert posts'[|posts|] == post && forall j :: 0 <= j < |posts| ==> posts'[j] == posts[j];
    if HandshakeSeen(posts) {
      var j :| 0 <= j < |posts| && IsInitialize(posts[j].payload);
      assert IsInitialize(posts'[j].payload);
    }
    forall k | 0 <= k < |posts'| && HandshakeSeen(posts'[..k + 1]) ensures LegacyPostOk(posts', replies', k) {
      if k < |posts| {
        assert posts'[..k + 1] == posts[..k + 1] && posts'[..k] == posts[..k] && replies'[..k] == replies[..k];
        assert LegacyPostOk(posts, replies, k);
      } else {
        assert posts'[..k + 1] == posts' && posts'[..k] == posts && replies'[..k] == replies;
      }
    }
  }

  lemma LatestSessionGrows(posts: seq<Post>, replies: seq<Reply>, post: Post, reply: Reply)
    requires |posts| == |replies|
    ensures LatestSession(posts + [post], replies + [reply])
         == match SessionHeader(reply)
            case Some(session) => Some(session)
            case None => if IsInitialize(post.payload) then None else LatestSession(posts, replies)
  {
    assert (posts + [post])[..|posts|] == posts && (replies + [reply])[..|replies|] == replies;
  }

  /** `session` was given out in reply to POST `k`, and since then neither another session
      was given out nor a handshake begun. */
  ghost predicate GivenOutLast(posts: seq<Post>, replies: seq<Reply>, session: string, k: nat)
    requires |posts| == |replies|
  {
    && k < |posts| && SessionHeader(replies[k]) == Some(session)
    && forall j :: k < j < |posts| ==> SessionHeader(replies[j]).None? && !IsInitialize(posts[j].payload)
  }

  /** A session is the latest one exactly when it was given out last, after any handshake. */
  lemma {:induction false} LatestSessionIsGivenOutLast(posts: seq<Post>, replies: seq<Reply>, session: string)
    requires |posts| == |replies|
    ensures LatestSession(posts, replies) == Some(session) <==> exists k: nat :: GivenOutLast(posts, replies, session, k)
  {
    if posts != [] {
      var n := |posts| - 1;
      LatestSessionIsGivenOutLast(posts[..n], replies[..n], session);
      if SessionHeader(replies[n]) == Some(session) {
        assert GivenOutLast(posts, replies, session, n);
      }
      if k: nat :| GivenOutLast(posts[..n], replies[..n], session, k) {
        assert SessionHeader(replies[n]).None? && !IsInitialize(posts[n].payload) ==>
                 GivenOutLast(posts, replies, session, k);
      }
      if k: nat :| GivenOutLast(posts, replies, session, k) {
        assert k < n ==> GivenOutLast(posts[..n], replies[..n], session, k);
      }
    }
  }

  // ---------------------------------------------------------------- what a message causes

  /** The reply brings these messages: nothing if it succeeded with a blank body, the
      events of an event stream, or the one JSON value of any other body; of a reply that
      did not succeed only the JSON value counts. */
  ghost predicate Carries(reply: Reply, messages: seq<Value>) {
    && reply.Replied?
    && (if 200 <= reply.status < 300 && reply.body.blank then messages == []
        else if 200 <= reply.status < 300 && reply.body.eventStream then messages == reply.body.events
        else reply.body.json.Some? && messages == [reply.body.json.value])
  }

  /** The result is what the reply brings, and an error exactly if it brings nothing. */
  ghost predicate IsOutcome(result: Result<seq<Value>>, reply: Reply) {
    forall messages :: result == Ok(messages) <==> Carries(reply, messages)
  }

  lemma OutcomeIsOutcome(reply: Reply)
    ensures IsOutcome(Outcome(reply), reply)
    ensures Outcome(reply) == Err <==>
              !reply.Replied?
              || (reply.body.json.None? && !(IsSuccess(reply.status) && (reply.body.blank || reply.body.eventStream)))
  {
  }

  /** The session is gone. */
  predicate Lost(reply: Reply) {
    reply.Replied? && reply.status == 404
  }

  /** A handshake that has been answered with a new session. */
  predicate Granted(reply: Reply) {
    reply.Replied? && 200 <= reply.status < 300 && reply.session.Some?
  }

  /** The POSTs from `from` up to `to` replay the handshake and, if a session is granted,
      say that it is complete. */
  ghost predicate Replay(posts: seq<Post>, net: nat -> Reply, handshake: Value, from: nat, to: nat) {
    && from < to <= |posts| && posts[from] == Post(handshake, None, None)
    && (if Granted(net(from)) then to == from + 2 && posts[from + 1] == Post(INITIALIZED, None, net(from).session)
        else to == from + 1)
  }

  /** A replay that leads to a usable session. */
  predicate Recovers(net: nat -> Reply, from: nat) {
    Granted(net(from)) && net(from + 1).Replied?
  }

  /** The POSTs with which a message is sent in a session: one, and if the session is gone
      a replay and, if that recovers, the message again. */
  ghost predicate InSession(posts: seq<Post>, net: nat -> Reply, handshake: Value, payload: Value,
                            result: Result<seq<Value>>, from: nat, to: nat)
  {
    && from < to <= |posts| && posts[from].payload == payload && posts[from].session.Some?
    && (if !Lost(net(from)) then to == from + 1 && IsOutcome(result, net(from))
        else if Recovers(net, from + 1) then
          && to == from + 4 && Replay(posts, net, handshake, from + 1, from + 3)
          && posts[from + 3].payload == payload && posts[from + 3].session.Some? && IsOutcome(result, net(from + 3))
        else Replay(posts, net, handshake, from + 1, to) && result == Err)
  }

  /** The same with a replay first if there is no session; without recovery the message is
      not sent. */
  ghost predicate Legacy(posts: seq<Post>, net: nat -> Reply, handshake: Value, session: Option<string>, payload: Value,
                         result: Result<seq<Value>>, from: nat, to: nat)
  {
    if session.Some? then
      InSession(posts, net, handshake, payload, result, from, to) && posts[from].session == session
    else if Recovers(net, from) then
      Replay(posts, net, handshake, from, from + 2) && InSession(posts, net, handshake, payload, result, from + 2, to)
    else Replay(posts, net, handshake, from, to) && result == Err
  }

  /** What one message of the client causes, and when its result is an error, given the
      handshake seen before it and the session held. */
  ghost predicate Exchange(posts: seq<Post>, net: nat -> Reply, clientInfo: Value, handshake: Option<Value>,
                           session: Option<string>, payload: Value, result: Result<seq<Value>>, from: nat, to: nat)
  {
    if IsInitialize(payload) then
      to == from + 1 <= |posts| && posts[from] == Post(payload, None, None) && IsOutcome(result, net(from))
    else if handshake.Some? then Legacy(posts, net, handshake.value, session, payload, result, from, to)
    else
      var (upstream, version) := PrepareUpstream(payload, false, clientInfo);
      && to == from + 1 <= |posts|
      && posts[from] == Post(upstream, version, if version.Some? then None else session)
      && (if session.Some? && Lost(net(from)) then result == Err else IsOutcome(result, net(from)))
  }

  lemma ExchangeStays(posts: seq<Post>, posts': seq<Post>, net: nat -> Reply, clientInfo: Value,
                      handshake: Option<Value>, session: Option<string>, payload: Value, result: Result<seq<Value>>,
                      from: nat, to: nat)
    requires Exchange(posts, net, clientInfo, handshake, session, payload, result, from, to) && posts <= posts'
    ensures Exchange(posts', net, clientInfo, handshake, session, payload, result, from, to)
  {
  }

  /** The session of a client that has sent no handshake: the one given out last, until
      a message that could have used it is answered with 404. */
  function StatelessSession(posts: seq<Post>, replies: seq<Reply>): Option<string>
    requires |posts| == |replies|
  {
    if posts == [] then None
    else
      var last := |posts| - 1;
      var before := StatelessSession(posts[..last], replies[..last]);
      if before.Some? && Lost(replies[last]) then None
      else if SessionHeader(replies[last]).Some? then SessionHeader(replies[last])
      else before
  }

  lemma StatelessSessionGrows(posts: seq<Post>, replies: seq<Reply>, post: Post, reply: Reply)
    requires |posts| == |replies|
    ensures var before := StatelessSession(posts, replies);
            StatelessSession(posts + [post], replies + [reply])
            == if before.Some? && Lost(reply) then None
               else if SessionHeader(reply).Some? then SessionHeader(reply) else before
  {
    assert (posts + [post])[..|posts|] == posts && (replies + [reply])[..|replies|] == replies;
  }

  function HeldSession(posts: seq<Post>, replies: seq<Reply>, legacy: bool): Option<string>
    requires |posts| == |replies|
  {
    if legacy then LatestSession(posts, replies) else StatelessSession(posts, replies)
  }

  // ---------------------------------------------------------------- the connection

  class Upstream {
    /** Name and version of the adapter, for the metadata it adds. */
    const clientInfo: Value
    var sessionId: Option<string>
    var initialize: Option<Value>
    var posts: seq<Post>
    var replies: seq<Reply>

    /** The posts are disciplined, and the client's handshake is kept once seen. */
    ghost predicate Consistent()
      reads this
    {
      && Disciplined(posts, replies)
      && (initialize.Some? <==> HandshakeSeen(posts))
      && (initialize.Some? ==> IsInitialize(initialize.value))
    }

    ghost predicate Valid()
      reads this
    {
      Consistent() && sessionId == HeldSession(posts, replies, initialize.Some?)
    }

    /** The replies so far are those of the network. */
    ghost predicate Follows(net: nat -> Reply)
      reads this
    {
      forall k :: 0 <= k < |replies| ==> replies[k] == net(k)
    }

    constructor (clientInfo: Value)
      ensures Valid() && posts == [] && initialize.None? && sessionId.None? && this.clientInfo == clientInfo
    {
      this.clientInfo := clientInfo;
      sessionId, initialize, posts, replies := None, None, [], [];
    }

    /** POSTs one message: with standard headers if it is stateless, otherwise with
        the session, if any. `net(n)` is how the n-th POST of the process ends. */
    method Send(payload: Value, stateless: Option<string>, net: nat -> Reply) returns (reply: Reply)
      requires |posts| == |replies|
      modifies this`sessionId, this`posts, this`replies
      ensures reply == net(|old(posts)|)
      ensures posts == old(posts) + [Post(payload, stateless, if stateless.Some? then None else old(sessionId))]
      ensures replies == old(replies) + [reply]
      ensures sessionId == match SessionHeader(reply) case Some(session) => Some(session) case None => old(sessionId)
      ensures old(Follows(net)) ==> Follows(net)
    {
      reply := net(|posts|);
      posts := posts + [Post(payload, stateless, if stateless.Some? then None else sessionId)];
      replies := replies + [reply];
      var header := SessionHeader(reply);
      if header.Some? {
        sessionId := header;
      }
    }

    /** Begins a session: POSTs a handshake without any session id. */
    method Handshake(payload: Value, net: nat -> Reply) returns (reply: Reply)
      requires Consistent() && IsInitialize(payload)
      modifies this
      ensures Valid() && initialize == Some(payload)
      ensures reply == net(|old(posts)|) && posts == old(posts) + [Post(payload, None, None)]
      ensures replies == old(replies) + [reply]
      ensures old(Follows(net)) ==> Follows(net)
    {
      sessionId, initialize := None, Some(payload);
      DisciplineGrows(posts, replies, Post(payload, None, None), net(|posts|));
      LatestSessionGrows(posts, replies, Post(payload, None, None), net(|posts|));
      reply := Send(payload, None, net);
    }

    /** POSTs a message of an established session. */
    method SendInSession(payload: Value, net: nat -> Reply) returns (reply: Reply)
      requires Valid() && initialize.Some? && sessionId.Some? && !IsInitialize(payload)
      modifies this`sessionId, this`posts, this`replies
      ensures Valid() && sessionId.Some?
      ensures reply == net(|old(posts)|) && posts == old(posts) + [Post(payload, None, old(sessionId))]
      ensures replies == old(replies) + [reply]
      ensures old(Follows(net)) ==> Follows(net)
    {
      DisciplineGrows(posts, replies, Post(payload, None, sessionId), net(|posts|));
      LatestSessionGrows(posts, replies, Post(payload, None, sessionId), net(|posts|));
      reply := Send(payload, None, net);
    }

    /** Replays the saved handshake to obtain a new session. */
    method Reestablish(net: nat -> Reply) returns (ok: bool)
      requires Consistent() && (initialize.Some? ==> Valid())
      modifies this
      ensures Consistent() && initialize == old(initialize)
      ensures initialize.Some? ==> Valid()
      ensures ok ==> initialize.Some? && sessionId.Some?
      ensures old(posts) <= posts && old(replies) <= replies && |posts| <= |old(posts)| + 2
      ensures old(initialize).None? ==> !ok && posts == old(posts) && replies == old(replies) && sessionId == None
      ensures old(initialize).Some? ==> Replay(posts, net, initialize.value, |old(posts)|, |posts|)
      ensures old(initialize).Some? ==> (ok <==> Recovers(net, |old(posts)|))
      ensures old(Follows(net)) ==> Follows(net)
    {
      if initialize.None? {
        sessionId := None;
        return false;
      }
      var reply := Handshake(initialize.value, net);
      if !reply.Replied? || !IsSuccess(reply.status) || sessionId.None? {
        return false;
      }
      reply := SendInSession(INITIALIZED, net);
      return reply.Replied?;
    }

    /** Forwards one client message. At most six POSTs; a handshake takes exactly one,
        and so does every message of a client that has never sent one: nothing is
        replayed for it. What is relayed is the reply to the client's own message; it is
        an error exactly if that reply brings nothing or no session could be had. */
    method Forward(payload: Value, net: nat -> Reply) returns (result: Result<seq<Value>>)
      requires Valid()
      modifies this
      ensures Valid()
      ensures old(posts) <= posts && old(replies) <= replies && |posts| <= |old(posts)| + 6
      ensures initialize == if IsInitialize(payload) then Some(payload) else old(initialize)
      ensures IsInitialize(payload) ==> posts == old(posts) + [Post(payload, None, None)]
      ensures !IsInitialize(payload) && old(initialize).None? ==>
                var (upstream, version) := PrepareUpstream(payload, false, clientInfo);
                posts == old(posts) + [Post(upstream, version, if version.Some? then None else old(sessionId))]
      ensures Exchange(posts, net, clientInfo, old(initialize), old(sessionId), payload, result, |old(posts)|, |posts|)
      ensures old(Follows(net)) ==> Follows(net)
    {
      if IsInitialize(payload) {
        var reply := Handshake(payload, net);
        OutcomeIsOutcome(reply);
        return Outcome(reply);
      }
      if initialize.Some? {
        result := ForwardLegacy(payload, net);
        return;
      }
      result := ForwardStateless(payload, net);
    }

    method ForwardStateless(payload: Value, net: nat -> Reply) returns (result: Result<seq<Value>>)
      requires Valid() && initialize.None? && !IsInitialize(payload)
      modifies this
      ensures Valid() && initialize.None? && old(replies) <= replies
      ensures var (upstream, version) := PrepareUpstream(payload, false, clientInfo);
              posts == old(posts) + [Post(upstream, version, if version.Some? then None else old(sessionId))]
      ensures if old(sessionId).Some? && Lost(net(|old(posts)|)) then result == Err
              else IsOutcome(result, net(|old(posts)|))
      ensures old(Follows(net)) ==> Follows(net)
    {
      var (upstream, version) := PrepareUpstream(payload, false, clientInfo);
      var hadSession := sessionId.Some?;
      ghost var post := Post(upstream, version, if version.Some? then None else sessionId);
      PreparingKeepsMethod(payload, clientInfo);
      DisciplineGrows(posts, replies, post, net(|posts|));
      StatelessSessionGrows(posts, replies, post, net(|posts|));
      OutcomeIsOutcome(net(|posts|));
      var reply := Send(upstream, version, net);
      if hadSession && reply.Replied? && reply.status == NOT_FOUND {
        var ok := Reestablish(net);
        return Err;
      }
      return Outcome(reply);
    }

    method ForwardLegacy(payload: Value, net: nat -> Reply) returns (result: Result<seq<Value>>)
      requires Valid() && initialize.Some? && !IsInitialize(payload)
      modifies this
      ensures Valid() && initialize == old(initialize)
      ensures old(posts) <= posts && old(replies) <= replies && |posts| <= |old(posts)| + 6
      ensures Legacy(posts, net, initialize.value, old(sessionId), payload, result, |old(posts)|, |posts|)
      ensures old(Follows(net)) ==> Follows(net)
    {
      if sessionId.None? {
        var ok := Reestablish(net);
        if !ok {
          return Err;
        }
      }
      result := ForwardInSession(payload, net);
    }

    method ForwardInSession(payload: Value, net: nat -> Reply) returns (result: Result<seq<Value>>)
      requires Valid() && initialize.Some? && sessionId.Some? && !IsInitialize(payload)
      modifies this
      ensures Valid() && initialize == old(initialize)
      ensures old(posts) < posts && old(replies) <= replies && |posts| <= |old(posts)| + 4
      ensures posts[|old(posts)|].session == old(sessionId)
      ensures InSession(posts, net, initialize.value, payload, result, |old(posts)|, |posts|)
      ensures old(Follows(net)) ==> Follows(net)
    {
      var reply := SendInSession(payload, net);
      OutcomeIsOutcome(reply);
      if reply.Replied? && reply.status == NOT_FOUND {
        var ok := Reestablish(net);
        if !ok {
          return Err;
        }
        reply := SendInSession(payload, net);
        OutcomeIsOutcome(reply);
      }
      return Outcome(reply);
    }
  }

  function Outcome(reply: Reply): Result<seq<Value>> {
    match reply
    case Replied(_, status, body) => Messages(status, body)
    case _ => Err
  }

  lemma PreparingKeepsMethod(payload: Value, clientInfo: Value)
    ensures IsInitialize(PrepareUpstream(payload, false, clientInfo).0) <==> IsInitialize(payload)
  {
    if CanCarryMeta(payload) {
      InsertPreservesEntries(payload, clientInfo, "method");
    } else {
      InsertedVersionIsReadable(payload, clientInfo);
    }
  }

  // ---------------------------------------------------------------- the relay

  function JsonRpcError(id: Value, code: int): Value {
    Obj(map["jsonrpc" := Str("2.0"), "id" := id, "error" := Obj(map["code" := Number(code)])])
  }

  /** The code of an error message. */
  function ErrorCode(message: Value): Option<Value> {
    match Get(message, "error")
    case None => None
    case Some(error) => Get(error, "code")
  }

  function ErrorFor(payload: Value): Value {
    JsonRpcError(match Get(payload, "id") case Some(id) => id case None => Null, -32000)
  }

  /** What is written for a message: an error if forwarding failed or a request got no
      answer, and for notifications nothing that does not carry an id. */
  function Relayed(payload: Value, result: Result<seq<Value>>): seq<Value> {
    var isRequest := Get(payload, "id").Some?;
    var messages := match result case Ok(m) => m case Err => [ErrorFor(payload)];
    var answered := if messages == [] && isRequest then [ErrorFor(payload)] else messages;
    if isRequest then answered else WithId(answered)
  }

  function WithId(messages: seq<Value>): seq<Value> {
    if messages == [] then []
    else (if Get(messages[0], "id").Some? then [messages[0]] else []) + WithId(messages[1..])
  }

  lemma {:induction false} WithIdSelects(messages: seq<Value>, m: Value)
    ensures m in WithId(messages) <==> m in messages && Get(m, "id").Some?
  {
    if messages != [] {
      WithIdSelects(messages[1..], m);
    }
  }

  /** Every request is answered: by what upstream returned, or else by one error that
      carries the request's id. A notification is never answered with a message that
      has no id, and what upstream returned for it with an id is not dropped. */
  lemma RelayAnswersRequests(payload: Value, result: Result<seq<Value>>)
    ensures Get(payload, "id").Some? ==>
              Relayed(payload, result) != []
              && (result.Err? || result.value == [] ==>
                    |Relayed(payload, result)| == 1 && Get(Relayed(payload, result)[0], "id") == Get(payload, "id")
                    && ErrorCode(Relayed(payload, result)[0]) == Some(Number(-32000)))
              && (result.Ok? && result.value != [] ==> Relayed(payload, result) == result.value)
    ensures Get(payload, "id").None? ==>
              (forall m :: m in Relayed(payload, result) ==> Get(m, "id").Some?)
              && (result.Ok? ==> forall m :: m in result.value && Get(m, "id").Some? ==> m in Relayed(payload, result))
  {
    if Get(payload, "id").None? {
      var messages := match result case Ok(m) => m case Err => [ErrorFor(payload)];
      forall m ensures m in Relayed(payload, result) <==> m in messages && Get(m, "id").Some? {
        WithIdSelects(messages, m);
      }
    }
  }

  /** What is written for one line; one that is not JSON gets a parse error. */
  function RelayedLine(line: Option<Value>, result: Result<seq<Value>>): seq<Value> {
    match line
    case None => [JsonRpcError(Null, -32700)]
    case Some(payload) => Relayed(payload, result)
  }

  /** What is written for the lines of a run, given how forwarding each one ended. */
  function RelayedLines(lines: seq<Option<Value>>, results: seq<Result<seq<Value>>>): seq<Value>
    requires |lines| == |results|
  {
    if lines == [] then []
    else
      var last := |lines| - 1;
      RelayedLines(lines[..last], results[..last]) + RelayedLine(lines[last], results[last])
  }

  lemma RelayedOneMore(lines: seq<Option<Value>>, results: seq<Result<seq<Value>>>, line: Option<Value>,
                       result: Result<seq<Value>>)
    requires |lines| == |results|
    ensures RelayedLines(lines + [line], results + [result]) == RelayedLines(lines, results) + RelayedLine(line, result)
    ensures Parsed(lines + [line]) == Parsed(lines) + if line.Some? then 1 else 0
    ensures NoHandshake(lines + [line]) <==> NoHandshake(lines) && (line.Some? ==> !IsInitialize(line.value))
    ensures LastHandshake(lines + [line]) == if line.Some? && IsInitialize(line.value) then line else LastHandshake(lines)
  {
    var lines' := lines + [line];
    assert lines'[..|lines|] == lines && (results + [result])[..|lines|] == results && lines'[|lines|] == line;
    assert forall i :: 0 <= i < |lines| ==> lines'[i] == lines[i];
  }

  /** Lines that ask for an answer: requests, and what is not even JSON. */
  function Asking(lines: seq<Option<Value>>): nat {
    if lines == [] then 0
    else
      var last := lines[|lines| - 1];
      Asking(lines[..|lines| - 1]) + if last.None? || Get(last.value, "id").Some? then 1 else 0
  }

  lemma {:induction false} EveryRequestIsAnswered(lines: seq<Option<Value>>, results: seq<Result<seq<Value>>>)
    requires |lines| == |results|
    ensures |RelayedLines(lines, results)| >= Asking(lines)
  {
    if lines != [] {
      var last := |lines| - 1;
      EveryRequestIsAnswered(lines[..last], results[..last]);
      if lines[last].Some? {
        RelayAnswersRequests(lines[last].value, results[last]);
      }
    }
  }

  /** The handshake that the client has sent last. */
  function LastHandshake(lines: seq<Option<Value>>): Option<Value> {
    if lines == [] then None
    else
      var last := lines[|lines| - 1];
      if last.Some? && IsInitialize(last.value) then last else LastHandshake(lines[..|lines| - 1])
  }

  /** Line `i` caused the POSTs from `starts[i]` up to `starts[i + 1]`. */
  ghost predicate LineExchanged(lines: seq<Option<Value>>, results: seq<Result<seq<Value>>>, starts: seq<nat>,
                                posts: seq<Post>, replies: seq<Reply>, net: nat -> Reply, clientInfo: Value, i: nat)
    requires |results| == |lines| && |starts| == |lines| + 1 && |posts| == |replies| && i < |lines|
  {
    && starts[i] <= |posts|
    && match lines[i]
       case None => starts[i + 1] == starts[i]
       case Some(payload) =>
         var handshake := LastHandshake(lines[..i]);
         Exchange(posts, net, clientInfo, handshake,
                  HeldSession(posts[..starts[i]], replies[..starts[i]], handshake.Some?), payload, results[i],
                  starts[i], starts[i + 1])
  }

  /** Every line of the run is one exchange, and nothing else is POSTed. */
  ghost predicate AllExchanged(lines: seq<Option<Value>>, results: seq<Result<seq<Value>>>, starts: seq<nat>,
                               posts: seq<Post>, replies: seq<Reply>, net: nat -> Reply, clientInfo: Value)
  {
    && |results| == |lines| && |starts| == |lines| + 1 && |posts| == |replies|
    && starts[0] == 0 && starts[|lines|] == |posts|
    && (forall k :: 0 <= k < |replies| ==> replies[k] == net(k))
    && (forall i :: 0 <= i < |lines| ==> LineExchanged(lines, results, starts, posts, replies, net, clientInfo, i))
  }

  lemma LineStaysExchanged(lines: seq<Option<Value>>, results: seq<Result<seq<Value>>>, starts: seq<nat>,
                           posts: seq<Post>, replies: seq<Reply>, net: nat -> Reply, clientInfo: Value, i: nat,
                           line: Option<Value>, result: Result<seq<Value>>, posts': seq<Post>, replies': seq<Reply>)
    requires AllExchanged(lines, results, starts, posts, replies, net, clientInfo) && i < |lines|
    requires posts <= posts' && replies <= replies' && |posts'| == |replies'|
    ensures LineExchanged(lines + [line], results + [result], starts + [|posts'|], posts', replies', net, clientInfo, i)
  {
    assert LineExchanged(lines, results, starts, posts, replies, net, clientInfo, i);
    assert (lines + [line])[..i] == lines[..i] && (lines + [line])[i] == lines[i];
    assert posts'[..starts[i]] == posts[..starts[i]] && replies'[..starts[i]] == replies[..starts[i]];
    if lines[i].Some? {
      var handshake := LastHandshake(lines[..i]);
      ExchangeStays(posts, posts', net, clientInfo, handshake,
                    HeldSession(posts[..starts[i]], replies[..starts[i]], handshake.Some?), lines[i].value, results[i],
                    starts[i], starts[i + 1]);
    }
  }

  lemma ExchangedOneMore(lines: seq<Option<Value>>, results: seq<Result<seq<Value>>>, starts: seq<nat>,
                         posts: seq<Post>, replies: seq<Reply>, net: nat -> Reply, clientInfo: Value,
                         line: Option<Value>, result: Result<seq<Value>>, posts': seq<Post>, replies': seq<Reply>)
    requires AllExchanged(lines, results, starts, posts, replies, net, clientInfo)
    requires posts <= posts' && replies <= replies' && |posts'| == |replies'|
    requires forall k :: 0 <= k < |replies'| ==> replies'[k] == net(k)
    requires match line
             case None => |posts'| == |posts|
             case Some(payload) =>
               Exchange(posts', net, clientInfo, LastHandshake(lines),
                        HeldSession(posts, replies, LastHandshake(lines).Some?), payload, result, |posts|, |posts'|)
    ensures AllExchanged(lines + [line], results + [result], starts + [|posts'|], posts', replies', net, clientInfo)
  {
    var lines', results', starts' := lines + [line], results + [result], starts + [|posts'|];
    forall i | 0 <= i < |lines'| ensures LineExchanged(lines', results', starts', posts', replies', net, clientInfo, i) {
      if i < |lines| {
        LineStaysExchanged(lines, results, starts, posts, replies, net, clientInfo, i, line, result, posts', replies');
      } else {
        assert lines'[..i] == lines && lines'[i] == line;
        assert posts'[..|posts|] == posts && replies'[..|posts|] == replies;
      }
    }
  }

  /** One turn of the main loop. */
  method RelayLine(upstream: Upstream, line: Option<Value>, net: nat -> Reply)
    returns (written: seq<Value>, ghost result: Result<seq<Value>>)
    requires upstream.Valid() && upstream.Follows(net)
    modifies upstream
    ensures upstream.Valid() && upstream.Follows(net) && written == RelayedLine(line, result)
    ensures old(upstream.posts) <= upstream.posts && old(upstream.replies) <= upstream.replies
    ensures |upstream.posts| <= |old(upstream.posts)| + 6
    ensures line.None? ==> upstream.posts == old(upstream.posts) && upstream.initialize == old(upstream.initialize)
    ensures line.Some? ==>
              && Exchange(upstream.posts, net, upstream.clientInfo, old(upstream.initialize), old(upstream.sessionId),
                          line.value, result, |old(upstream.posts)|, |upstream.posts|)
              && upstream.initialize == if IsInitialize(line.value) then line else old(upstream.initialize)
    ensures old(upstream.initialize).None? && (line.Some? ==> !IsInitialize(line.value)) ==>
              |upstream.posts| == |old(upstream.posts)| + if line.Some? then 1 else 0
  {
    match line {
      case None =>
        written, result := [JsonRpcError(Null, -32700)], Err;
      case Some(payload) =>
        var forwarded := upstream.Forward(payload, net);
        written, result := Relayed(payload, forwarded), forwarded;
    }
  }

  /** The main loop over the lines of the client; a line that is not JSON is answered
      with a parse error. In the whole run the session discipline holds, each message
      causes at most six POSTs, and a client that never sends a handshake causes
      exactly one for each. Line by line, what is POSTed and what is relayed is the
      exchange of that message; `starts` says where each begins. */
  method Run(upstream: Upstream, lines: seq<Option<Value>>, net: nat -> Reply)
    returns (written: seq<Value>, ghost results: seq<Result<seq<Value>>>, ghost starts: seq<nat>)
    requires upstream.Valid() && upstream.posts == [] && upstream.initialize.None?
    modifies upstream
    ensures upstream.Valid()
    ensures Disciplined(upstream.posts, upstream.replies)
    ensures |results| == |lines| && written == RelayedLines(lines, results)
    ensures AllExchanged(lines, results, starts, upstream.posts, upstream.replies, net, upstream.clientInfo)
    ensures |upstream.posts| <= 6 * |lines|
    ensures NoHandshake(lines) ==> |upstream.posts| == Parsed(lines)
  {
    written, results, starts := [], [], [0];
    for i := 0 to |lines|
      invariant upstream.Valid() && upstream.Follows(net) && |results| == i
      invariant upstream.initialize == LastHandshake(lines[..i])
      invariant written == RelayedLines(lines[..i], results)
      invariant AllExchanged(lines[..i], results, starts, upstream.posts, upstream.replies, net, upstream.clientInfo)
      invariant |upstream.posts| <= 6 * i
      invariant NoHandshake(lines[..i]) ==> upstream.initialize.None? && |upstream.posts| == Parsed(lines[..i])
    {
      assert lines[..i + 1] == lines[..i] + [lines[i]];
      ghost var posts, replies := upstream.posts, upstream.replies;
      var more;
      ghost var result;
      more, result := RelayLine(upstream, lines[i], net);
      ExchangedOneMore(lines[..i], results, starts, posts, replies, net, upstream.clientInfo, lines[i], result,
                       upstream.posts, upstream.replies);
      RelayedOneMore(lines[..i], results, lines[i], result);
      written, results, starts := written + more, results + [result], starts + [|upstream.posts|];
    }
    assert lines[..|lines|] == lines;
  }

  predicate NoHandshake(lines: seq<Option<Value>>) {
    forall i :: 0 <= i < |lines| && lines[i].Some? ==> !IsInitialize(lines[i].value)
  }

  /** How many lines are messages. */
  function Parsed(lines: seq<Option<Value>>): nat {
    if lines == [] then 0
    else Parsed(lines[..|lines| - 1]) + if lines[|lines| - 1].Some? then 1 else 0
  }
}
