/** What the attachable registry and relay of backend/routes/callSignaling.js guarantee,
    stated over the functions that specify the Signaling object's methods. */
module AttachedProperties {
  import opened JsValues
  import opened OrderedSets
  import opened AttachedSignaling

  /** Registering the same user and socket twice leaves the Maps as registering once. */
  lemma AddedIdempotent(r: Registry, userId: Value, socketId: string)
    ensures Added(Added(r, userId, socketId), userId, socketId) == Added(r, userId, socketId)
  {
  }

  /** Registering a socket under a truthy user keeps the two Maps in agreement, as long
      as the socket is not already registered under some other user. */
  lemma AddedKeepsConsistent(r: Registry, userId: Value, socketId: string)
    requires Consistent(r) && Truthy(userId)
    requires socketId in r.socketIdToUser ==> r.socketIdToUser[socketId] == userId
    ensures Consistent(Added(r, userId, socketId))
  {
    var a := Added(r, userId, socketId);
    forall u, s | u in a.userToSockets && s in a.userToSockets[u]
      ensures s in a.socketIdToUser && a.socketIdToUser[s] == u
    {
      if u != userId {
        assert s in r.userToSockets[u];
      } else if s != socketId {
        assert s in r.userToSockets[u];
      }
    }
  }

  /** Disconnecting keeps the two Maps in agreement and leaves no trace of the socket. */
  lemma RemovedKeepsConsistent(r: Registry, socketId: string)
    requires Consistent(r)
    ensures Consistent(Removed(r, socketId))
    ensures socketId !in Removed(r, socketId).socketIdToUser
    ensures forall u :: u in Removed(r, socketId).userToSockets ==> socketId !in Removed(r, socketId).userToSockets[u]
  {
    if socketId in r.socketIdToUser {
      RemovedRegisteredKeepsConsistent(r, socketId);
    } else {
      assert forall u :: u in r.userToSockets ==> socketId !in r.userToSockets[u];
    }
  }

  lemma RemovedRegisteredKeepsConsistent(r: Registry, socketId: string)
    requires Consistent(r) && socketId in r.socketIdToUser
    ensures Consistent(Removed(r, socketId))
    ensures socketId !in Removed(r, socketId).socketIdToUser
    ensures forall u :: u in Removed(r, socketId).userToSockets ==> socketId !in Removed(r, socketId).userToSockets[u]
  {
    RemovedForwardAgrees(r, socketId);
    RemovedInverseAgrees(r, socketId);
  }

  /** After removing a registered socket, every Set member still names its user. */
  lemma RemovedForwardAgrees(r: Registry, socketId: string)
    requires Consistent(r) && socketId in r.socketIdToUser
    ensures var d := Removed(r, socketId);
            forall u, s :: u in d.userToSockets && s in d.userToSockets[u] ==>
              s in d.socketIdToUser && d.socketIdToUser[s] == u
  {
    var d := Removed(r, socketId);
    forall u, s | u in d.userToSockets && s in d.userToSockets[u]
      ensures s in d.socketIdToUser && d.socketIdToUser[s] == u
    {
      assert s in r.userToSockets[u] && s != socketId;
    }
  }

  /** After removing a registered socket, every remaining socket is still in its user's Set. */
  lemma RemovedInverseAgrees(r: Registry, socketId: string)
    requires Consistent(r) && socketId in r.socketIdToUser
    ensures var d := Removed(r, socketId);
            forall s :: s in d.socketIdToUser ==>
              d.socketIdToUser[s] in d.userToSockets && s in d.userToSockets[d.socketIdToUser[s]]
  {
    var d := Removed(r, socketId);
    var owner := r.socketIdToUser[socketId];
    forall s | s in d.socketIdToUser
      ensures d.socketIdToUser[s] in d.userToSockets && s in d.userToSockets[d.socketIdToUser[s]]
    {
      var u := r.socketIdToUser[s];
      assert s in r.userToSockets[u] && s != socketId;
      if u == owner {
        assert s in Erase(r.userToSockets[u], socketId);
      }
    }
  }

  /** Disconnecting a socket right after registering it, when it was not registered
      before, restores both Maps exactly. */
  lemma RemovedUndoesAdded(r: Registry, userId: Value, socketId: string)
    requires Consistent(r) && Truthy(userId) && socketId !in r.socketIdToUser
    ensures Removed(Added(r, userId, socketId), socketId) == r
  {
    if userId in r.userToSockets {
      RemovedUndoesAddedToKnownUser(r, userId, socketId);
    } else {
      RemovedUndoesAddedToNewUser(r, userId, socketId);
    }
  }

  lemma RemovedUndoesAddedToKnownUser(r: Registry, userId: Value, socketId: string)
    requires Consistent(r) && Truthy(userId) && socketId !in r.socketIdToUser
    requires userId in r.userToSockets
    ensures Removed(Added(r, userId, socketId), socketId) == r
  {
    var sockets := r.userToSockets[userId];
    assert socketId !in sockets;
    var a := Registry(r.socketIdToUser[socketId := userId], r.userToSockets[userId := sockets + [socketId]]);
    assert Added(r, userId, socketId) == a;
    assert OwnerOf(a, socketId) == userId;
    EraseInsert(sockets, socketId);
    assert Erase(sockets + [socketId], socketId) == sockets != [];
    assert a.socketIdToUser - {socketId} == r.socketIdToUser;
    assert a.userToSockets[userId := sockets] == r.userToSockets;
  }

  lemma RemovedUndoesAddedToNewUser(r: Registry, userId: Value, socketId: string)
    requires Truthy(userId) && socketId !in r.socketIdToUser
    requires userId !in r.userToSockets
    ensures Removed(Added(r, userId, socketId), socketId) == r
  {
    assert Insert([], socketId) == [socketId];
    var a := Registry(r.socketIdToUser[socketId := userId], r.userToSockets[userId := [socketId]]);
    assert Added(r, userId, socketId) == a;
    assert OwnerOf(a, socketId) == userId;
    assert Erase([socketId], socketId) == [];
    assert a.socketIdToUser - {socketId} == r.socketIdToUser;
    assert a.userToSockets - {userId} == r.userToSockets;
  }

  /** Registering one socket under a second user overwrites only the inverse entry: the
      first user's Set keeps the socket, the Maps disagree, and the disconnect that
      follows clears the second user's entry while the first user's stays. */
  lemma ReRegisterLeavesStaleEntry(r: Registry, first: Value, second: Value, socketId: string)
    requires Consistent(r) && Truthy(first) && Truthy(second) && first != second
    requires socketId !in r.socketIdToUser
    ensures var twice := Added(Added(r, first, socketId), second, socketId);
            && !Consistent(twice)
            && socketId in SocketsOf(Removed(twice, socketId), first)
            && socketId !in SocketsOf(Removed(twice, socketId), second)
            && socketId !in Removed(twice, socketId).socketIdToUser
  {
    var once := Added(r, first, socketId);
    var twice := Added(once, second, socketId);
    assert socketId in twice.userToSockets[first];
    assert twice.socketIdToUser[socketId] == second;
    var d := Removed(twice, socketId);
    assert socketId !in Erase(twice.userToSockets[second], socketId);
  }

  /** A registry operation as the `register` and `disconnect` listeners perform it. */
  datatype RegistryOp = Register(userId: Value, socketId: string) | Disconnect(socketId: string)

  /** The registry after one operation: a falsy user id registers nothing. */
  function Apply(r: Registry, op: RegistryOp): (r': Registry)
    ensures op.Register? && !Truthy(op.userId) ==> r' == r
    ensures op.Register? && Truthy(op.userId) ==> op.socketId in SocketsOf(r', op.userId)
    ensures WellFormed(r) ==> WellFormed(r')
    ensures WellFormed(r) && op.Disconnect? ==> op.socketId !in r'.socketIdToUser
  {
    match op
    case Register(userId, socketId) =>
      if Truthy(userId) then Added(r, userId, socketId) else r
    case Disconnect(socketId) =>
      Removed(r, socketId)
  }

  /** Each operation is what `Step` does on the matching event. */
  lemma ApplyIsStep(r: Registry, op: RegistryOp)
    ensures op.Register? ==> Apply(r, op) == Step(r, op.socketId, "register", Object(map["userId" := op.userId])).0
    ensures op.Disconnect? ==> Apply(r, op) == Step(r, op.socketId, "disconnect", Undefined).0
  {
  }

  function Run(r: Registry, ops: seq<RegistryOp>): Registry
    decreases |ops|
  {
    if ops == [] then r else Run(Apply(r, ops[0]), ops[1..])
  }

  /** Along any sequence of registrations and disconnects, re-registrations that leave
      the two Maps in disagreement included, every Set stays non-empty and duplicate-free
      and every stored user id stays truthy. */
  lemma {:induction false} RunKeepsWellFormed(r: Registry, ops: seq<RegistryOp>)
    requires WellFormed(r)
    ensures WellFormed(Run(r, ops))
    decreases |ops|
  {
    if ops != [] {
      RunKeepsWellFormed(Apply(r, ops[0]), ops[1..]);
    }
  }

  /** No operation registers a socket that is still registered under another user. */
  predicate NoReassignment(r: Registry, ops: seq<RegistryOp>)
    decreases |ops|
  {
    ops == [] ||
    (&& (ops[0].Register? && Truthy(ops[0].userId) && ops[0].socketId in r.socketIdToUser ==>
           r.socketIdToUser[ops[0].socketId] == ops[0].userId)
     && NoReassignment(Apply(r, ops[0]), ops[1..]))
  }

  /** Along any sequence of registrations and disconnects that never moves a live socket
      to another user, the two Maps stay in agreement. */
  lemma {:induction false} RunKeepsConsistent(r: Registry, ops: seq<RegistryOp>)
    requires Consistent(r) && NoReassignment(r, ops)
    ensures Consistent(Run(r, ops))
    decreases |ops|
  {
    if ops != [] {
      match ops[0] {
        case Register(userId, socketId) =>
          if Truthy(userId) {
            AddedKeepsConsistent(r, userId, socketId);
          }
        case Disconnect(socketId) =>
          RemovedKeepsConsistent(r, socketId);
      }
      RunKeepsConsistent(Apply(r, ops[0]), ops[1..]);
    }
  }

  /** `call-user` throws before sending anything when its log line meets a value it cannot
      convert, the caller's own stored user id included. Otherwise, to an online user it
      reaches each of that user's sockets exactly once with `incoming-call`, naming the
      caller by the user id its socket registered as; to an offline user it sends exactly
      one `user-offline` back to the caller. */
  lemma CallUserRouting(r: Registry, sender: string, data: Value)
    requires WellFormed(r) && !Nullish(data)
    ensures CallLogThrows(r, sender, data) ==> CallUser(r, sender, data) == TypeError([])
    ensures var targets := SocketsOf(r, Get(data, "toUserId"));
            var out := CallUser(r, sender, data).Out();
            && Get(IncomingCall(r, sender, data), "fromUser") == OwnerOf(r, sender)
            && (!CallLogThrows(r, sender, data) && targets != [] ==>
                  && (forall s :: multiset(out)[Emission(Str(s), "incoming-call", IncomingCall(r, sender, data))]
                                  == if s in targets then 1 else 0)
                  && (forall e :: e in out ==>
                        e.event == "incoming-call" && e.payload == IncomingCall(r, sender, data) &&
                        e.target.Str? && e.target.s in targets))
            && (!CallLogThrows(r, sender, data) && targets == [] ==>
                  out == [Emission(Str(sender), "user-offline", UserOffline(Get(data, "toUserId")))])
  {
    var targets := SocketsOf(r, Get(data, "toUserId"));
    assert Distinct(targets);
    FanoutExactlyOnce(targets, "incoming-call", IncomingCall(r, sender, data));
    if !CallLogThrows(r, sender, data) && targets != [] {
      assert CallUser(r, sender, data).Out() == Fanout(targets, "incoming-call", IncomingCall(r, sender, data));
    }
  }

  /** `accept-call` and `reject-call` leave the registry alone. They throw, before sending,
      on a null or undefined argument or when their log line meets a value it cannot convert;
      otherwise they send one event to whatever `toSocketId` names, registered or not,
      carrying the sender's socket id. */
  lemma AnswerRelayed(r: Registry, sender: string, event: string, data: Value)
    requires event == "accept-call" || event == "reject-call"
    ensures Step(r, sender, event, data).0 == r
    ensures var logThrows := StringThrows(Get(data, "toSocketId"))
                             || (event == "accept-call" && StringThrows(Get(data, "roomId")));
            && (Step(r, sender, event, data).1.TypeError? <==> Nullish(data) || logThrows)
            && (Nullish(data) || logThrows ==> Step(r, sender, event, data).1.Out() == [])
    ensures Step(r, sender, event, data).1.Emitted? ==>
      var reply := if event == "accept-call" then "call-accepted" else "call-rejected";
      var extra := if event == "accept-call" then map["roomId" := Get(data, "roomId")] else map[];
      Step(r, sender, event, data).1.Out() ==
        [Emission(Get(data, "toSocketId"), reply, Object(map["fromSocket" := Str(sender)] + extra))]
  {
    if event == "accept-call" {
      assert map["fromSocket" := Str(sender)] + map["roomId" := Get(data, "roomId")]
          == map["fromSocket" := Str(sender), "roomId" := Get(data, "roomId")];
    } else {
      assert map["fromSocket" := Str(sender)] + map[] == map["fromSocket" := Str(sender)];
    }
  }

  /** `offer`, `answer` and `ice-candidate` leave the registry alone and pass the one
      negotiation field on, under the same event name, to whatever `toSocketId` names.
      `offer` and `answer` log the target first and throw on one that cannot be converted;
      `ice-candidate` logs nothing. */
  lemma SignalRelayed(r: Registry, sender: string, event: string, data: Value)
    requires event == "offer" || event == "answer" || event == "ice-candidate"
    ensures Step(r, sender, event, data).0 == r
    ensures Step(r, sender, event, data).1.TypeError? <==>
      Nullish(data) || (event != "ice-candidate" && StringThrows(Get(data, "toSocketId")))
    ensures Step(r, sender, event, data).1.TypeError? ==> Step(r, sender, event, data).1.Out() == []
    ensures Step(r, sender, event, data).1.Emitted? ==>
      var out := Step(r, sender, event, data).1.Out();
      && |out| == 1
      && out[0].target == Get(data, "toSocketId") && out[0].event == event
      && out[0].payload.Object?
      && out[0].payload.fields.Keys == {"fromSocket", SignalField(event)}
      && Get(out[0].payload, "fromSocket") == Str(sender)
      && Get(out[0].payload, SignalField(event)) == Get(data, SignalField(event))
  {
  }

  /** `end_call` sends one `call-ended` to a truthy `toSocketId` and nothing back to the
      sender, unlike the inline relay. The log line after it throws on a target it cannot
      convert, but the event has already gone out. */
  lemma EndCallNotEchoed(r: Registry, sender: string, data: Value)
    requires !Nullish(data)
    ensures var out := Step(r, sender, "end_call", data).1.Out();
            && Step(r, sender, "end_call", data).0 == r
            && (Step(r, sender, "end_call", data).1.TypeError? <==> StringThrows(Get(data, "toSocketId")))
            && |out| == (if Truthy(Get(data, "toSocketId")) then 1 else 0)
            && (forall e :: e in out ==>
                  e == Emission(Get(data, "toSocketId"), "call-ended", Object(map["fromSocket" := Str(sender)])))
  {
  }

  /** A `userId` that the log line cannot convert is stored and acknowledged before the
      listener throws; from then on every `call-user` from that socket throws at its own
      log line, before ringing anyone. */
  lemma UnconvertibleIdSilencesCaller(r: Registry, sender: string, id: Value, call: Value)
    requires WellFormed(r) && StringThrows(id)
    ensures Step(r, sender, "register", Object(map["userId" := id]))
            == (Added(r, id, sender), TypeError([Acknowledgement(sender)]))
    ensures Step(Added(r, id, sender), sender, "call-user", call) == (Added(r, id, sender), TypeError([]))
  {
    assert OwnerOf(Added(r, id, sender), sender) == id;
  }

  /** Two users that each registered one socket, in the state `register` builds. */
  lemma TwoUsersRegistered(bob: Value, carol: Value, c1: string, c2: string)
    requires Truthy(bob) && Truthy(carol) && bob != carol && c1 != c2
    ensures Added(Added(Empty, bob, c1), carol, c2) == TwoUsers(bob, carol, c1, c2)
    ensures Consistent(TwoUsers(bob, carol, c1, c2))
  {
    assert Insert([], c1) == [c1] && Insert([], c2) == [c2];
    var r1 := Registry(map[c1 := bob], map[bob := [c1]]);
    assert Added(Empty, bob, c1) == r1;
  }

  function TwoUsers(bob: Value, carol: Value, c1: string, c2: string): Registry {
    Registry(map[c1 := bob, c2 := carol], map[bob := [c1], carol := [c2]])
  }

  /** Caller and callee online: the call rings the callee's one socket, naming the
      caller by the user id its socket registered as, unless the log line meets a caller
      id, callee id or room it cannot convert. */
  lemma CallRings(bob: Value, carol: Value, c1: string, c2: string, room: Value)
    requires Truthy(bob) && Truthy(carol) && bob != carol && c1 != c2
    ensures var call := Object(map["toUserId" := carol, "roomId" := room]);
            var reaction := Step(TwoUsers(bob, carol, c1, c2), c1, "call-user", call).1;
            && (!StringThrows(bob) && !StringThrows(carol) && !StringThrows(room) ==>
                  reaction == Emitted([Emission(Str(c2), "incoming-call",
                    Object(map["fromUser" := bob, "fromSocket" := Str(c1), "roomId" := room, "callType" := Undefined]))]))
            && (StringThrows(bob) || StringThrows(carol) || StringThrows(room) ==> reaction == TypeError([]))
  {
    var r := TwoUsers(bob, carol, c1, c2);
    var call := Object(map["toUserId" := carol, "roomId" := room]);
    var payload := Object(map["fromUser" := bob, "fromSocket" := Str(c1), "roomId" := room, "callType" := Undefined]);
    assert OwnerOf(r, c1) == bob;
    assert SocketsOf(r, carol) == [c2];
    assert IncomingCall(r, c1, call) == payload;
    assert Fanout([c2], "incoming-call", payload) == [Emission(Str(c2), "incoming-call", payload)];
    assert Step(r, c1, "call-user", call).1 == CallUser(r, c1, call);
  }

  /** The callee's acceptance goes straight back to the calling socket, unless the log
      line meets a room it cannot convert. */
  lemma CallAccepted(bob: Value, carol: Value, c1: string, c2: string, room: Value)
    requires bob != carol
    ensures var accept := Object(map["toSocketId" := Str(c1), "roomId" := room]);
            var reaction := Step(TwoUsers(bob, carol, c1, c2), c2, "accept-call", accept).1;
            && (!StringThrows(room) ==>
                  reaction == Emitted([Emission(Str(c1), "call-accepted", Object(map["fromSocket" := Str(c2), "roomId" := room]))]))
            && (StringThrows(room) ==> reaction == TypeError([]))
  {
    var accept := Object(map["toSocketId" := Str(c1), "roomId" := room]);
    assert Step(TwoUsers(bob, carol, c1, c2), c2, "accept-call", accept).1 == AcceptCall(c2, accept);
  }

  /** Once the callee's only socket disconnects, calling them is answered `user-offline`
      and the caller stays registered, unless the log line meets a caller or callee id it
      cannot convert. */
  lemma CallAfterCalleeLeft(bob: Value, carol: Value, c1: string, c2: string)
    requires Truthy(bob) && Truthy(carol) && bob != carol && c1 != c2
    ensures var r := Removed(TwoUsers(bob, carol, c1, c2), c2);
            var reaction := Step(r, c1, "call-user", Object(map["toUserId" := carol])).1;
            && SocketsOf(r, carol) == [] && SocketsOf(r, bob) == [c1]
            && (!StringThrows(bob) && !StringThrows(carol) ==>
                  reaction == Emitted([Emission(Str(c1), "user-offline", Object(map["toUserId" := carol]))]))
            && (StringThrows(bob) || StringThrows(carol) ==> reaction == TypeError([]))
  {
    assert Erase([c2], c2) == [];
    var r := Registry(map[c1 := bob], map[bob := [c1]]);
    assert Removed(TwoUsers(bob, carol, c1, c2), c2) == r;
    var call := Object(map["toUserId" := carol]);
    assert OwnerOf(r, c1) == bob;
    assert SocketsOf(r, carol) == [];
    assert Step(r, c1, "call-user", call).1 == CallUser(r, c1, call);
  }
}
