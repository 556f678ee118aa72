/** The attachable registry and relay of backend/routes/callSignaling.js: the two Maps
    that attachSignaling keeps, its helpers addUserSocket, removeSocket and emitToUser,
    and the listeners every connection gets. */
module AttachedSignaling {
  import opened JsValues
  import opened OrderedSets

  /** `socketIdToUser` (socket id to the user id it registered as) and `userToSockets`
      (user id to the Set of its socket ids). User ids are whatever the client sent.
      Neither Map is ever iterated, so their key order is not kept. */
  datatype Registry = Registry(socketIdToUser: map<string, Value>, userToSockets: map<Value, seq<string>>)

  const Empty := Registry(map[], map[])

  /** What every reachable registry satisfies: each Set is duplicate-free and none is
      empty, and every user id the inverse Map stores is truthy. */
  ghost predicate WellFormed(r: Registry) {
    && (forall u :: u in r.userToSockets ==> r.userToSockets[u] != [] && Distinct(r.userToSockets[u]))
    && (forall s :: s in r.socketIdToUser ==> Truthy(r.socketIdToUser[s]))
  }

  /** The two Maps describe the same relation: a socket is in a user's Set exactly when
      the inverse Map names that user for it. */
  ghost predicate Consistent(r: Registry) {
    && WellFormed(r)
    && (forall u, s :: u in r.userToSockets && s in r.userToSockets[u] ==>
          s in r.socketIdToUser && r.socketIdToUser[s] == u)
    && (forall s :: s in r.socketIdToUser ==>
          r.socketIdToUser[s] in r.userToSockets && s in r.userToSockets[r.socketIdToUser[s]])
  }

  /** `userToSockets.get(userId)` as emitToUser reads it, an absent entry read as no socket. */
  function SocketsOf(r: Registry, userId: Value): (sockets: seq<string>)
    ensures WellFormed(r) ==> Distinct(sockets)
    ensures WellFormed(r) ==> (sockets != [] <==> userId in r.userToSockets)
  {
    if userId in r.userToSockets then r.userToSockets[userId] else []
  }

  /** `socketIdToUser.get(socketId)`: `undefined` for a socket that never registered. */
  function OwnerOf(r: Registry, socketId: string): (owner: Value)
    ensures WellFormed(r) ==> (Truthy(owner) <==> socketId in r.socketIdToUser)
    ensures Consistent(r) && Truthy(owner) ==> socketId in SocketsOf(r, owner)
  {
    if socketId in r.socketIdToUser then r.socketIdToUser[socketId] else Undefined
  }

  /** addUserSocket(userId, socketId): the inverse entry is overwritten and the socket
      joins the user's Set; a previous owner's Set is not touched. */
  function Added(r: Registry, userId: Value, socketId: string): (r': Registry)
    ensures r'.socketIdToUser == r.socketIdToUser[socketId := userId]
    ensures userId in r'.userToSockets
    ensures forall s :: s in r'.userToSockets[userId] <==>
              s == socketId || (userId in r.userToSockets && s in r.userToSockets[userId])
    ensures forall u :: u != userId ==> (u in r'.userToSockets <==> u in r.userToSockets)
    ensures forall u :: u != userId && u in r.userToSockets ==> r'.userToSockets[u] == r.userToSockets[u]
    ensures WellFormed(r) && Truthy(userId) ==> WellFormed(r')
  {
    var current := if userId in r.userToSockets then r.userToSockets[userId] else [];
    Registry(r.socketIdToUser[socketId := userId], r.userToSockets[userId := Insert(current, socketId)])
  }

  /** removeSocket(socketId): the inverse entry goes, the socket leaves the Set of the
      user that entry names, and that user's key goes when its Set becomes empty. */
  function Removed(r: Registry, socketId: string): (r': Registry)
    ensures !Truthy(OwnerOf(r, socketId)) ==> r' == r
    ensures Truthy(OwnerOf(r, socketId)) ==>
      var u := OwnerOf(r, socketId);
      && r'.socketIdToUser == r.socketIdToUser - {socketId}
      && (u in r'.userToSockets <==> u in r.userToSockets && Erase(r.userToSockets[u], socketId) != [])
      && (u in r'.userToSockets ==> r'.userToSockets[u] == Erase(r.userToSockets[u], socketId))
      && (forall v :: v != u ==>
            && (v in r'.userToSockets <==> v in r.userToSockets)
            && (v in r.userToSockets ==> r'.userToSockets[v] == r.userToSockets[v]))
    ensures WellFormed(r) ==> WellFormed(r')
    ensures WellFormed(r) ==> socketId !in r'.socketIdToUser
  {
    var userId := OwnerOf(r, socketId);
    if !Truthy(userId) then r
    else
      var inverse := r.socketIdToUser - {socketId};
      if userId !in r.userToSockets then Registry(inverse, r.userToSockets)
      else
        var rest := Erase(r.userToSockets[userId], socketId);
        if rest == [] then Registry(inverse, r.userToSockets - {userId})
        else Registry(inverse, r.userToSockets[userId := rest])
  }

  /** emitToUser(userId, event, payload): the fan-out over the user's Set. For a user with
      no socket it logs the id instead, and that log line throws on an id `${}` cannot convert. */
  function EmitTo(r: Registry, userId: Value, event: string, payload: Value): (result: Reaction)
    ensures result.TypeError? <==> SocketsOf(r, userId) == [] && StringThrows(userId)
    ensures result.emissions == Fanout(SocketsOf(r, userId), event, payload)
  {
    var sockets := SocketsOf(r, userId);
    if sockets == [] && StringThrows(userId) then TypeError([])
    else Emitted(Fanout(sockets, event, payload))
  }

  /** The acknowledgement the `register` listener sends back to the sender. */
  function Acknowledgement(sender: string): Emission {
    Emission(Str(sender), "registered", Object(map["socketId" := Str(sender)]))
  }

  /** The `register` listener: destructuring `{ userId }` throws on a null or undefined
      argument; a falsy id does nothing; otherwise the socket is stored and acknowledged,
      and only then does the log line interpolate the id, and maybe throw. */
  function Registered(r: Registry, sender: string, data: Value): (result: (Registry, Reaction))
    ensures Nullish(data) ==> result == (r, TypeError([]))
    ensures !Nullish(data) && !Truthy(Get(data, "userId")) ==> result == (r, Emitted([]))
    ensures !Nullish(data) && Truthy(Get(data, "userId")) ==>
      && result.0 == Added(r, Get(data, "userId"), sender)
      && result.1.emissions == [Acknowledgement(sender)]
      && (result.1.TypeError? <==> StringThrows(Get(data, "userId")))
      && OwnerOf(result.0, sender) == Get(data, "userId")
      && sender in SocketsOf(result.0, Get(data, "userId"))
  {
    if Nullish(data) then (r, TypeError([]))
    else
      var userId := Get(data, "userId");
      if !Truthy(userId) then (r, Emitted([]))
      else
        var ack := [Acknowledgement(sender)];
        (Added(r, userId, sender), if StringThrows(userId) then TypeError(ack) else Emitted(ack))
  }

  /** The `incoming-call` payload: the caller's user id comes from the inverse Map. */
  function IncomingCall(r: Registry, sender: string, data: Value): (p: Value)
    ensures p.Object? && p.fields.Keys == {"fromUser", "fromSocket", "roomId", "callType"}
    ensures Get(p, "fromUser") == OwnerOf(r, sender) && Get(p, "fromSocket") == Str(sender)
    ensures Get(p, "roomId") == Get(data, "roomId") && Get(p, "callType") == Get(data, "callType")
  {
    Object(map[
      "fromUser" := OwnerOf(r, sender),
      "fromSocket" := Str(sender),
      "roomId" := Get(data, "roomId"),
      "callType" := Get(data, "callType")])
  }

  function UserOffline(toUserId: Value): Value {
    Object(map["toUserId" := toUserId])
  }

  /** The log line that opens the `call-user` listener interpolates the caller's stored
      user id and three fields of the argument. */
  predicate CallLogThrows(r: Registry, sender: string, data: Value) {
    || StringThrows(OwnerOf(r, sender))
    || StringThrows(Get(data, "toUserId"))
    || StringThrows(Get(data, "roomId"))
    || StringThrows(Get(data, "callType"))
  }

  /** The `call-user` listener. */
  function CallUser(r: Registry, sender: string, data: Value): (result: Reaction)
    ensures result.TypeError? <==> Nullish(data) || CallLogThrows(r, sender, data)
    ensures result.TypeError? ==> result.emissions == []
    ensures result.Emitted? && SocketsOf(r, Get(data, "toUserId")) == [] ==>
      result.emissions == [Emission(Str(sender), "user-offline", UserOffline(Get(data, "toUserId")))]
    ensures result.Emitted? && SocketsOf(r, Get(data, "toUserId")) != [] ==>
      var targets := SocketsOf(r, Get(data, "toUserId"));
      && |result.emissions| == |targets|
      && forall i :: 0 <= i < |targets| ==>
           result.emissions[i] == Emission(Str(targets[i]), "incoming-call", IncomingCall(r, sender, data))
  {
    if Nullish(data) || CallLogThrows(r, sender, data) then TypeError([])
    else
      var targets := SocketsOf(r, Get(data, "toUserId"));
      if targets != [] then Emitted(Fanout(targets, "incoming-call", IncomingCall(r, sender, data)))
      else Emitted([Emission(Str(sender), "user-offline", UserOffline(Get(data, "toUserId")))])
  }

  /** The `accept-call` listener: after its log line, always one emission, to whatever
      `toSocketId` is. */
  function AcceptCall(sender: string, data: Value): (result: Reaction)
    ensures result.TypeError? <==>
      Nullish(data) || StringThrows(Get(data, "toSocketId")) || StringThrows(Get(data, "roomId"))
    ensures result.TypeError? ==> result.emissions == []
    ensures result.Emitted? ==>
      && |result.emissions| == 1
      && result.emissions[0].target == Get(data, "toSocketId") && result.emissions[0].event == "call-accepted"
      && result.emissions[0].payload.Object? && result.emissions[0].payload.fields.Keys == {"fromSocket", "roomId"}
      && Get(result.emissions[0].payload, "fromSocket") == Str(sender)
      && Get(result.emissions[0].payload, "roomId") == Get(data, "roomId")
  {
    if Nullish(data) || StringThrows(Get(data, "toSocketId")) || StringThrows(Get(data, "roomId")) then TypeError([])
    else Emitted([Emission(Get(data, "toSocketId"), "call-accepted",
                           Object(map["fromSocket" := Str(sender), "roomId" := Get(data, "roomId")]))])
  }

  /** The `reject-call` listener: after its log line, always one emission. */
  function RejectCall(sender: string, data: Value): (result: Reaction)
    ensures result.TypeError? <==> Nullish(data) || StringThrows(Get(data, "toSocketId"))
    ensures result.TypeError? ==> result.emissions == []
    ensures result.Emitted? ==>
      && |result.emissions| == 1
      && result.emissions[0].target == Get(data, "toSocketId") && result.emissions[0].event == "call-rejected"
      && result.emissions[0].payload.Object? && result.emissions[0].payload.fields.Keys == {"fromSocket"}
      && Get(result.emissions[0].payload, "fromSocket") == Str(sender)
  {
    if Nullish(data) || StringThrows(Get(data, "toSocketId")) then TypeError([])
    else Emitted([Emission(Get(data, "toSocketId"), "call-rejected", Object(map["fromSocket" := Str(sender)]))])
  }

  /** The `offer` and `answer` listeners log the target first; `ice-candidate` does not. */
  predicate SignalLogged(event: string) {
    event != "ice-candidate"
  }

  /** The `offer`, `answer` and `ice-candidate` listeners: `field` is the part of the
      payload passed on. */
  function Forwarded(sender: string, event: string, field: string, data: Value): (result: Reaction)
    ensures result.TypeError? <==>
      Nullish(data) || (SignalLogged(event) && StringThrows(Get(data, "toSocketId")))
    ensures result.TypeError? ==> result.emissions == []
    ensures result.Emitted? ==>
      && |result.emissions| == 1
      && result.emissions[0].target == Get(data, "toSocketId") && result.emissions[0].event == event
      && Get(result.emissions[0].payload, field) == Get(data, field)
      && (field != "fromSocket" ==> Get(result.emissions[0].payload, "fromSocket") == Str(sender))
  {
    if Nullish(data) then TypeError([])
    else if SignalLogged(event) && StringThrows(Get(data, "toSocketId")) then TypeError([])
    else Emitted([Emission(Get(data, "toSocketId"), event,
                           Object(map["fromSocket" := Str(sender), field := Get(data, field)]))])
  }

  /** The `end_call` listener: one `call-ended` to a truthy `toSocketId`, nothing back to
      the sender; the log line after the emission interpolates the target. */
  function EndCall(sender: string, data: Value): (result: Reaction)
    ensures Nullish(data) ==> result == TypeError([])
    ensures !Nullish(data) ==> (result.TypeError? <==> StringThrows(Get(data, "toSocketId")))
    ensures !Nullish(data) ==> |result.emissions| == (if Truthy(Get(data, "toSocketId")) then 1 else 0)
    ensures forall e :: e in result.emissions ==>
      e.target == Get(data, "toSocketId") && e.event == "call-ended" && Get(e.payload, "fromSocket") == Str(sender)
  {
    if Nullish(data) then TypeError([])
    else
      var toSocketId := Get(data, "toSocketId");
      if Truthy(toSocketId) then
        var sent := [Emission(toSocketId, "call-ended", Object(map["fromSocket" := Str(sender)]))];
        if StringThrows(toSocketId) then TypeError(sent) else Emitted(sent)
      else Emitted([])
  }

  /** One event arriving on the connection `sender`: the registry afterwards and what the
      listener did. An event with no listener does nothing. */
  function Step(r: Registry, sender: string, event: string, data: Value): (result: (Registry, Reaction))
    ensures WellFormed(r) ==> WellFormed(result.0)
    ensures event != "register" && event != "disconnect" ==> result.0 == r
    ensures event == "disconnect" ==> result.1 == Emitted([])
    ensures result.1.TypeError? ==>
      Nullish(data) || CarriesStringThrow(data) || (event == "call-user" && StringThrows(OwnerOf(r, sender)))
  {
    if event == "register" then Registered(r, sender, data)
    else if event == "disconnect" then (Removed(r, sender), Emitted([]))
    else if event == "call-user" then (r, CallUser(r, sender, data))
    else if event == "accept-call" then (r, AcceptCall(sender, data))
    else if event == "reject-call" then (r, RejectCall(sender, data))
    else if event == "offer" then (r, Forwarded(sender, "offer", "offer", data))
    else if event == "answer" then (r, Forwarded(sender, "answer", "answer", data))
    else if event == "ice-candidate" then (r, Forwarded(sender, "ice-candidate", "candidate", data))
    else if event == "end_call" then (r, EndCall(sender, data))
    else (r, Emitted([]))
  }

  /** The state attachSignaling creates: its own Socket.IO server, both Maps, and
      everything emitted so far. */
  class Signaling {
    var socketIdToUser: map<string, Value>
    var userToSockets: map<Value, seq<string>>
    var outbox: seq<Emission>

    function State(): Registry
      reads this
    {
      Registry(socketIdToUser, userToSockets)
    }

    ghost predicate Valid()
      reads this
    {
      WellFormed(State())
    }

    constructor ()
      ensures Valid() && State() == Empty && outbox == []
    {
      socketIdToUser := map[];
      userToSockets := map[];
      outbox := [];
    }

    /** Called only with a truthy user id, and only then does it keep `Valid()`. */
    method AddUserSocket(userId: Value, socketId: string)
      modifies this
      ensures old(Valid()) && Truthy(userId) ==> Valid()
      ensures State() == Added(old(State()), userId, socketId) && outbox == old(outbox)
    {
      socketIdToUser := socketIdToUser[socketId := userId];
      if userId !in userToSockets {
        userToSockets := userToSockets[userId := []];
      }
      var sockets := userToSockets[userId];
      userToSockets := userToSockets[userId := Insert(sockets, socketId)];
    }

    method RemoveSocket(socketId: string)
      requires Valid()
      modifies this
      ensures Valid()
      ensures State() == Removed(old(State()), socketId) && outbox == old(outbox)
    {
      var userId := if socketId in socketIdToUser then socketIdToUser[socketId] else Undefined;
      if !Truthy(userId) {
        return;
      }
      socketIdToUser := socketIdToUser - {socketId};
      if userId in userToSockets {
        var remaining := Erase(userToSockets[userId], socketId);
        if remaining == [] {
          userToSockets := userToSockets - {userId};
        } else {
          userToSockets := userToSockets[userId := remaining];
        }
      }
    }

    method EmitToUser(userId: Value, event: string, payload: Value) returns (sent: bool, threw: bool)
      modifies this
      ensures State() == old(State())
      ensures sent <==> SocketsOf(State(), userId) != []
      ensures threw == EmitTo(State(), userId, event, payload).TypeError?
      ensures outbox == old(outbox) + EmitTo(State(), userId, event, payload).Out()
    {
      var sockets := if userId in userToSockets then userToSockets[userId] else [];
      if sockets == [] {
        return false, StringThrows(userId);
      }
      for i := 0 to |sockets|
        invariant State() == old(State())
        invariant outbox == old(outbox) + Fanout(sockets[..i], event, payload)
      {
        assert sockets[..i + 1][..i] == sockets[..i];
        outbox := outbox + [Emission(Str(sockets[i]), event, payload)];
      }
      assert sockets[..|sockets|] == sockets;
      return true, false;
    }

    method OnRegister(sender: string, data: Value) returns (threw: bool)
      requires Valid()
      modifies this
      ensures Valid()
      ensures State() == Registered(old(State()), sender, data).0
      ensures threw == Registered(old(State()), sender, data).1.TypeError?
      ensures outbox == old(outbox) + Registered(old(State()), sender, data).1.Out()
    {
      if Nullish(data) {
        return true;
      }
      var userId := Get(data, "userId");
      if !Truthy(userId) {
        return false;
      }
      AddUserSocket(userId, sender);
      outbox := outbox + [Acknowledgement(sender)];
      return StringThrows(userId);
    }

    method OnCallUser(sender: string, data: Value) returns (threw: bool)
      modifies this
      ensures State() == old(State())
      ensures threw == CallUser(old(State()), sender, data).TypeError?
      ensures outbox == old(outbox) + CallUser(old(State()), sender, data).Out()
    {
      if Nullish(data) {
        return true;
      }
      var toUserId := Get(data, "toUserId");
      var fromUserId := if sender in socketIdToUser then socketIdToUser[sender] else Undefined;
      if StringThrows(fromUserId) || StringThrows(toUserId)
         || StringThrows(Get(data, "roomId")) || StringThrows(Get(data, "callType")) {
        return true;
      }
      var payload := Object(map[
        "fromUser" := fromUserId,
        "fromSocket" := Str(sender),
        "roomId" := Get(data, "roomId"),
        "callType" := Get(data, "callType")]);
      var sent, emitThrew := EmitToUser(toUserId, "incoming-call", payload);
      assert !emitThrew;
      if !sent {
        outbox := outbox + [Emission(Str(sender), "user-offline", UserOffline(toUserId))];
      }
      return false;
    }

    method OnAcceptCall(sender: string, data: Value) returns (threw: bool)
      modifies this
      ensures State() == old(State())
      ensures threw == AcceptCall(sender, data).TypeError?
      ensures outbox == old(outbox) + AcceptCall(sender, data).Out()
    {
      if Nullish(data) || StringThrows(Get(data, "toSocketId")) || StringThrows(Get(data, "roomId")) {
        return true;
      }
      outbox := outbox + [Emission(Get(data, "toSocketId"), "call-accepted",
                                   Object(map["fromSocket" := Str(sender), "roomId" := Get(data, "roomId")]))];
      return false;
    }

    method OnRejectCall(sender: string, data: Value) returns (threw: bool)
      modifies this
      ensures State() == old(State())
      ensures threw == RejectCall(sender, data).TypeError?
      ensures outbox == old(outbox) + RejectCall(sender, data).Out()
    {
      if Nullish(data) || StringThrows(Get(data, "toSocketId")) {
        return true;
      }
      outbox := outbox + [Emission(Get(data, "toSocketId"), "call-rejected", Object(map["fromSocket" := Str(sender)]))];
      return false;
    }

    /** The `offer`, `answer` and `ice-candidate` listeners. */
    method OnForward(sender: string, event: string, field: string, data: Value) returns (threw: bool)
      modifies this
      ensures State() == old(State())
      ensures threw == Forwarded(sender, event, field, data).TypeError?
      ensures outbox == old(outbox) + Forwarded(sender, event, field, data).Out()
    {
      if Nullish(data) {
        return true;
      }
      if SignalLogged(event) && StringThrows(Get(data, "toSocketId")) {
        return true;
      }
      outbox := outbox + [Emission(Get(data, "toSocketId"), event,
                                   Object(map["fromSocket" := Str(sender), field := Get(data, field)]))];
      return false;
    }

    method OnEndCall(sender: string, data: Value) returns (threw: bool)
      modifies this
      ensures State() == old(State())
      ensures threw == EndCall(sender, data).TypeError?
      ensures outbox == old(outbox) + EndCall(sender, data).Out()
    {
      if Nullish(data) {
        return true;
      }
      var toSocketId := Get(data, "toSocketId");
      if Truthy(toSocketId) {
        outbox := outbox + [Emission(toSocketId, "call-ended", Object(map["fromSocket" := Str(sender)]))];
        return StringThrows(toSocketId);
      }
      return false;
    }

    method OnDisconnect(sender: string)
      requires Valid()
      modifies this
      ensures Valid()
      ensures State() == Removed(old(State()), sender) && outbox == old(outbox)
    {
      RemoveSocket(sender);
    }

    /** Dispatch of one event on the connection `sender` to its listener. */
    method Receive(sender: string, event: string, data: Value) returns (threw: bool)
      requires Valid()
      modifies this
      ensures Valid()
      ensures State() == Step(old(State()), sender, event, data).0
      ensures threw == Step(old(State()), sender, event, data).1.TypeError?
      ensures outbox == old(outbox) + Step(old(State()), sender, event, data).1.Out()
    {
      threw := false;
      if event == "register" {
        threw := OnRegister(sender, data);
      } else if event == "disconnect" {
        OnDisconnect(sender);
      } else if event == "call-user" {
        threw := OnCallUser(sender, data);
      } else if event == "accept-call" {
        threw := OnAcceptCall(sender, data);
      } else if event == "reject-call" {
        threw := OnRejectCall(sender, data);
      } else if event == "offer" {
        threw := OnForward(sender, "offer", "offer", data);
      } else if event == "answer" {
        threw := OnForward(sender, "answer", "answer", data);
      } else if event == "ice-candidate" {
        threw := OnForward(sender, "ice-candidate", "candidate", data);
      } else if event == "end_call" {
        threw := OnEndCall(sender, data);
      }
    }
  }
}
