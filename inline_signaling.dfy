/** The presence registry and call-signaling relay written inline in backend/index.js:
    the process-wide `userSockets` Map, its helpers addUserSocket, removeUserSocket and
    emitToUser, and the listeners every connection gets. */
module InlineSignaling {
  import opened JsValues
  import opened OrderedSets

  /** The `userSockets` Map from user id to the Set of that user's socket ids. `order`
      holds the keys in insertion order, the order in which `entries()` visits them. */
  datatype UserSockets = UserSockets(order: seq<string>, sets: map<string, seq<string>>)

  const Empty := UserSockets([], map[])

  /** `m` is a Map of Sets as JavaScript has it, and no user is left with an empty Set. */
  ghost predicate WellFormed(m: UserSockets) {
    && Distinct(m.order)
    && (forall u :: u in m.sets <==> u in m.order)
    && (forall u :: u in m.sets ==> Distinct(m.sets[u]))
    && NoEmptySet(m)
  }

  ghost predicate NoEmptySet(m: UserSockets) {
    forall u :: u in m.sets ==> m.sets[u] != []
  }

  /** `userSockets.get(userId)` as emitToUser reads it, an absent entry read as no socket.
      Every key is a string, so an id of another type finds nothing. */
  function SocketsOf(m: UserSockets, userId: Value): (r: seq<string>)
    ensures !userId.Str? ==> r == []
    ensures WellFormed(m) ==> Distinct(r)
    ensures WellFormed(m) ==> (r != [] <==> userId.Str? && userId.s in m.order)
  {
    if userId.Str? && userId.s in m.sets then m.sets[userId.s] else []
  }

  /** addUserSocket(userId, socketId) */
  function Added(m: UserSockets, userId: string, socketId: string): (r: UserSockets)
    ensures userId == "" ==> r == m
    ensures userId != "" ==> userId in r.sets
    ensures userId != "" ==> forall s :: s in r.sets[userId] <==> s == socketId || (userId in m.sets && s in m.sets[userId])
    ensures forall u :: u != userId ==> (u in r.sets <==> u in m.sets) && (u in m.sets ==> r.sets[u] == m.sets[u])
    ensures WellFormed(m) ==> WellFormed(r)
  {
    if userId == "" then m
    else
      var order := if userId in m.sets then m.order else m.order + [userId];
      var current := if userId in m.sets then m.sets[userId] else [];
      assert WellFormed(m) && userId !in m.sets ==> Distinct(order);
      UserSockets(order, m.sets[userId := Insert(current, socketId)])
  }

  /** The scan of removeUserSocket from position `from` of the key order on: the first
      position whose user's Set holds socketId. */
  function FirstOwnerFrom(m: UserSockets, socketId: string, from: nat): (r: Option<nat>)
    requires WellFormed(m) && from <= |m.order|
    ensures r.Some? ==> from <= r.value < |m.order| && socketId in m.sets[m.order[r.value]]
    ensures forall j :: from <= j < (if r.Some? then r.value else |m.order|) ==>
              socketId !in m.sets[m.order[j]]
    decreases |m.order| - from
  {
    if from == |m.order| then None
    else if socketId in m.sets[m.order[from]] then Some(from)
    else FirstOwnerFrom(m, socketId, from + 1)
  }

  /** The position in the key order of the first user whose Set holds socketId. */
  function FirstOwner(m: UserSockets, socketId: string): (r: Option<nat>)
    requires WellFormed(m)
    ensures r.None? <==> forall u :: u in m.sets ==> socketId !in m.sets[u]
    ensures r.Some? ==> r.value < |m.order| && socketId in m.sets[m.order[r.value]]
    ensures r.Some? ==> forall j :: 0 <= j < r.value ==> socketId !in m.sets[m.order[j]]
  {
    var r := FirstOwnerFrom(m, socketId, 0);
    assert r.None? ==> forall u :: u in m.sets ==> socketId !in m.sets[u] by {
      if r.None? {
        forall u | u in m.sets ensures socketId !in m.sets[u] {
          var j :| 0 <= j < |m.order| && m.order[j] == u;
        }
      }
    }
    r
  }

  /** removeUserSocket(socketId): only the first user, in key order, whose Set holds the
      socket loses it, and that user's key goes when its Set becomes empty. */
  function Removed(m: UserSockets, socketId: string): (r: UserSockets)
    requires WellFormed(m)
    ensures WellFormed(r)
    ensures FirstOwner(m, socketId).None? ==> r == m
    ensures FirstOwner(m, socketId).Some? ==>
      var u := m.order[FirstOwner(m, socketId).value];
      && (u in r.sets <==> |m.sets[u]| > 1)
      && (u in r.sets ==> r.sets[u] == Erase(m.sets[u], socketId) && r.order == m.order)
      && (u !in r.sets ==> r.order == Erase(m.order, u))
      && (forall v :: v != u ==> (v in r.sets <==> v in m.sets) && (v in m.sets ==> r.sets[v] == m.sets[v]))
  {
    match FirstOwner(m, socketId)
    case None => m
    case Some(i) =>
      var u := m.order[i];
      var rest := Erase(m.sets[u], socketId);
      if rest == [] then UserSockets(Erase(m.order, u), m.sets - {u})
      else UserSockets(m.order, m.sets[u := rest])
  }

  /** The id the `register` listener takes from its argument: the `userId` field of an
      object, the argument itself otherwise (`typeof null` is "object" but null is excluded). */
  function RegisterId(arg: Value): (id: Value)
    ensures Nullish(arg) ==> !Truthy(id)
    ensures arg.Object? ==> id == Get(arg, "userId")
    ensures !arg.Object? ==> id == arg
  {
    if arg.Object? then Get(arg, "userId") else arg
  }

  /** `String(id)` in the `register` listener throws, before the Map is touched. */
  predicate RegisterThrows(arg: Value) {
    StringThrows(RegisterId(arg))
  }

  /** The `register` listener: a truthy id is stored under `String(id)`. */
  function Registered(m: UserSockets, sender: string, arg: Value): (r: UserSockets)
    ensures !Truthy(RegisterId(arg)) || RegisterThrows(arg) ==> r == m
    ensures Truthy(RegisterId(arg)) && !RegisterThrows(arg) ==>
      var key := ToJsString(RegisterId(arg)).value;
      && r == Added(m, key, sender)
      && forall s :: s in SocketsOf(r, Str(key)) <==> s == sender || s in SocketsOf(m, Str(key))
    ensures Truthy(RegisterId(arg)) && !RegisterThrows(arg) ==>
      var key := ToJsString(RegisterId(arg)).value;
      forall u :: u != key ==> (u in r.sets <==> u in m.sets) && (u in m.sets ==> r.sets[u] == m.sets[u])
    ensures WellFormed(m) ==> WellFormed(r)
  {
    var id := RegisterId(arg);
    if !Truthy(id) then m
    else
      match ToJsString(id)
      case None => m
      case Some(key) => Added(m, key, sender)
  }

  /** emitToUser(userId, event, payload): the fan-out over the user's Set. For a user with
      no socket it logs the id instead, and that log line throws on an id `${}` cannot
      convert. Such an id is an object, never a key, so it always takes that path. */
  function EmitTo(m: UserSockets, userId: Value, event: string, payload: Value): (r: Reaction)
    ensures StringThrows(userId) ==> r == TypeError([])
    ensures !StringThrows(userId) ==> r == Emitted(Fanout(SocketsOf(m, userId), event, payload))
  {
    var sockets := SocketsOf(m, userId);
    if sockets == [] && StringThrows(userId) then TypeError([])
    else Emitted(Fanout(sockets, event, payload))
  }

  /** The `incoming-call` payload built by the `call-user` listener. */
  function IncomingCall(data: Value): (p: Value)
    ensures p.Object? && p.fields.Keys == {"fromUserId", "callerName", "roomId", "isVideo"}
    ensures Get(p, "fromUserId") == Get(data, "fromUserId") && Get(p, "roomId") == Get(data, "roomId")
    ensures Get(p, "isVideo") == Get(data, "isVideo")
    ensures Truthy(Get(p, "callerName"))
    ensures Get(p, "callerName") ==
      if Truthy(Get(data, "callerName")) then Get(data, "callerName")
      else if Truthy(Get(data, "fromUserId")) then Get(data, "fromUserId")
      else Str("Unknown")
  {
    Object(map[
      "fromUserId" := Get(data, "fromUserId"),
      "callerName" := Or(Or(Get(data, "callerName"), Get(data, "fromUserId")), Str("Unknown")),
      "roomId" := Get(data, "roomId"),
      "isVideo" := Get(data, "isVideo")])
  }

  function UserOffline(toUserId: Value): Value {
    Object(map["toUserId" := toUserId])
  }

  /** The log line that opens the `call-user` listener interpolates five values; `||`
      leaves an object as it is, so each of them throws exactly as the field does. */
  predicate CallLogThrows(data: Value) {
    || StringThrows(Or(Get(data, "fromUserId"), Str("undefined")))
    || StringThrows(Get(data, "toUserId"))
    || StringThrows(Get(data, "roomId"))
    || StringThrows(Get(data, "isVideo"))
    || StringThrows(Or(Get(data, "callerName"), Str("Unknown")))
  }

  /** The `call-user` listener. Reading `data.fromUserId` for the log line throws when
      `data` is null or undefined, and so does the log line itself on a value it cannot
      convert; either way before anything is sent. */
  function CallUser(m: UserSockets, sender: string, data: Value): (r: Reaction)
    ensures r.TypeError? <==> Nullish(data) || CallLogThrows(data)
    ensures r.TypeError? ==> r.emissions == []
    ensures r.Emitted? && SocketsOf(m, Get(data, "toUserId")) == [] ==>
      r.emissions == [Emission(Str(sender), "user-offline", UserOffline(Get(data, "toUserId")))]
    ensures r.Emitted? && SocketsOf(m, Get(data, "toUserId")) != [] ==>
      var targets := SocketsOf(m, Get(data, "toUserId"));
      && |r.emissions| == |targets|
      && forall i :: 0 <= i < |targets| ==>
           r.emissions[i] == Emission(Str(targets[i]), "incoming-call", IncomingCall(data))
  {
    if Nullish(data) || CallLogThrows(data) then TypeError([])
    else
      var targets := SocketsOf(m, Get(data, "toUserId"));
      if targets != [] then Emitted(Fanout(targets, "incoming-call", IncomingCall(data)))
      else Emitted([Emission(Str(sender), "user-offline", UserOffline(Get(data, "toUserId")))])
  }

  /** The `new-message` payload. */
  function NewMessage(fromUserId: Value, message: Value): Value {
    Object(map["fromUserId" := fromUserId, "message" := message])
  }

  /** The guard both `send-message` listeners apply to `data || {}`. */
  predicate ValidMessage(data: Value) {
    var d := OrEmpty(data);
    Truthy(Get(d, "toUserId")) && Truthy(Get(d, "message")) && Truthy(Get(d, "fromUserId"))
  }

  /** The first `send-message` listener, at lines 131-149. Its log line interpolates the
      sender and the recipient before anything is sent. */
  function MessageRelay(m: UserSockets, data: Value): (r: Reaction)
    ensures !ValidMessage(data) ==> r == Emitted([])
    ensures ValidMessage(data) ==>
      (r.TypeError? <==> StringThrows(Get(data, "fromUserId")) || StringThrows(Get(data, "toUserId")))
    ensures r.TypeError? ==> r.emissions == []
    ensures ValidMessage(data) && r.Emitted? ==>
      var targets := SocketsOf(m, Get(data, "toUserId"));
      && |r.emissions| == |targets|
      && forall i :: 0 <= i < |targets| ==>
           r.emissions[i] == Emission(Str(targets[i]), "new-message", NewMessage(Get(data, "fromUserId"), Get(data, "message")))
  {
    var d := OrEmpty(data);
    var toUserId, message, fromUserId := Get(d, "toUserId"), Get(d, "message"), Get(d, "fromUserId");
    if !ValidMessage(data) then Emitted([])
    else if StringThrows(fromUserId) || StringThrows(toUserId) then TypeError([])
    else Emitted(Fanout(SocketsOf(m, toUserId), "new-message", NewMessage(fromUserId, message)))
  }

  /** The second `send-message` listener, at lines 188-192: no log line of its own, only
      emitToUser's. */
  function MessageDelivery(m: UserSockets, data: Value): (r: Reaction)
    ensures !ValidMessage(data) ==> r == Emitted([])
    ensures ValidMessage(data) ==> (r.TypeError? <==> StringThrows(Get(data, "toUserId")))
    ensures ValidMessage(data) && !StringThrows(Get(data, "fromUserId")) ==> r.emissions == MessageRelay(m, data).emissions
  {
    var d := OrEmpty(data);
    var toUserId, message, fromUserId := Get(d, "toUserId"), Get(d, "message"), Get(d, "fromUserId");
    if !ValidMessage(data) then Emitted([])
    else EmitTo(m, toUserId, "new-message", NewMessage(fromUserId, message))
  }

  /** A `send-message` event: both listeners run, one after the other, unless the first throws. */
  function SendMessage(m: UserSockets, data: Value): (r: Reaction)
    ensures r.TypeError? <==> MessageRelay(m, data).TypeError?
    ensures r.TypeError? ==> r.emissions == []
    ensures r.Emitted? ==> |r.emissions| == 2 * |MessageRelay(m, data).emissions|
    ensures r.Emitted? ==> forall i :: 0 <= i < |r.emissions| / 2 ==>
      r.emissions[i] == r.emissions[i + |r.emissions| / 2] == MessageRelay(m, data).emissions[i]
  {
    MessageRelay(m, data).Then(MessageDelivery(m, data))
  }

  /** The `accept-call` listener. Its log line renders the payload with `JSON.stringify`,
      which does not throw on decoded data. */
  function AcceptCall(sender: string, payload: Value): (r: seq<Emission>)
    ensures |r| == if Truthy(Get(OrEmpty(payload), "toSocketId")) then 1 else 0
    ensures forall e :: e in r ==>
      && e.target == Get(payload, "toSocketId") && e.event == "call-accepted"
      && e.payload.Object? && e.payload.fields.Keys == {"fromSocket", "roomId"}
      && Get(e.payload, "fromSocket") == Str(sender) && Get(e.payload, "roomId") == Get(payload, "roomId")
  {
    var p := OrEmpty(payload);
    var toSocketId := Get(p, "toSocketId");
    if Truthy(toSocketId) then
      [Emission(toSocketId, "call-accepted", Object(map["fromSocket" := Str(sender), "roomId" := Get(p, "roomId")]))]
    else []
  }

  /** The `reject-call` listener. */
  function RejectCall(sender: string, payload: Value): (r: seq<Emission>)
    ensures |r| == if Truthy(Get(OrEmpty(payload), "toSocketId")) then 1 else 0
    ensures forall e :: e in r ==>
      && e.target == Get(payload, "toSocketId") && e.event == "call-rejected"
      && e.payload.Object? && e.payload.fields.Keys == {"fromSocket"} && Get(e.payload, "fromSocket") == Str(sender)
  {
    var p := OrEmpty(payload);
    var toSocketId := Get(p, "toSocketId");
    if Truthy(toSocketId) then [Emission(toSocketId, "call-rejected", Object(map["fromSocket" := Str(sender)]))]
    else []
  }

  /** The `offer`, `answer` and `ice-candidate` listeners: `field` is the part of the
      payload passed on. Destructuring a null or undefined argument throws; nothing is logged. */
  function Forwarded(sender: string, event: string, field: string, data: Value): (r: Reaction)
    ensures r.TypeError? <==> Nullish(data)
    ensures r.TypeError? ==> r.emissions == []
    ensures r.Emitted? ==>
      && |r.emissions| == 1
      && r.emissions[0].target == Get(data, "toSocketId") && r.emissions[0].event == event
      && Get(r.emissions[0].payload, field) == Get(data, field)
      && (field != "fromSocket" ==> Get(r.emissions[0].payload, "fromSocket") == Str(sender))
  {
    if Nullish(data) then TypeError([])
    else Emitted([Emission(Get(data, "toSocketId"), event,
                           Object(map["fromSocket" := Str(sender), field := Get(data, field)]))])
  }

  /** The `end_call` listener: the fan-out to the other user, a log line interpolating
      `toUserId` and `roomId`, then the echo to the sender. */
  function EndCall(m: UserSockets, sender: string, data: Value): (r: Reaction)
    ensures !Truthy(Get(OrEmpty(data), "toUserId")) || !Truthy(Get(OrEmpty(data), "roomId")) ==> r == Emitted([])
    ensures Truthy(Get(OrEmpty(data), "toUserId")) && Truthy(Get(OrEmpty(data), "roomId")) ==>
      var targets := SocketsOf(m, Get(data, "toUserId"));
      && (r.TypeError? <==> StringThrows(Get(data, "toUserId")) || StringThrows(Get(data, "roomId")))
      && |r.emissions| == (if r.TypeError? then |targets| else |targets| + 1)
      && (forall i :: 0 <= i < |targets| ==> r.emissions[i].target == Str(targets[i]))
      && (r.Emitted? ==> r.emissions[|targets|].target == Str(sender))
      && forall e :: e in r.emissions ==>
           e.event == "call_ended" && e.payload == Object(map["roomId" := Get(data, "roomId")])
  {
    var d := OrEmpty(data);
    var toUserId, roomId := Get(d, "toUserId"), Get(d, "roomId");
    if !Truthy(toUserId) || !Truthy(roomId) then Emitted([])
    else
      var p := Object(map["roomId" := roomId]);
      var sent := EmitTo(m, toUserId, "call_ended", p);
      if sent.TypeError? then sent
      else if StringThrows(toUserId) || StringThrows(roomId) then TypeError(sent.emissions)
      else Emitted(sent.emissions + [Emission(Str(sender), "call_ended", p)])
  }

  /** One event arriving on the connection `sender`: the Map afterwards and what the
      listeners did. An event with no listener does nothing. */
  function Step(m: UserSockets, sender: string, event: string, data: Value): (r: (UserSockets, Reaction))
    requires WellFormed(m)
    ensures WellFormed(r.0)
    ensures event != "register" && event != "disconnect" ==> r.0 == m
    ensures r.1.TypeError? ==>
      event in {"register", "call-user", "send-message", "offer", "answer", "ice-candidate", "end_call"}
    ensures r.1.TypeError? ==> Nullish(data) || CarriesStringThrow(data)
  {
    if event == "register" then
      (Registered(m, sender, data), if RegisterThrows(data) then TypeError([]) else Emitted([]))
    else if event == "disconnect" then (Removed(m, sender), Emitted([]))
    else if event == "call-user" then (m, CallUser(m, sender, data))
    else if event == "send-message" then (m, SendMessage(m, data))
    else if event == "accept-call" then (m, Emitted(AcceptCall(sender, data)))
    else if event == "reject-call" then (m, Emitted(RejectCall(sender, data)))
    else if event == "offer" then (m, Forwarded(sender, "offer", "offer", data))
    else if event == "answer" then (m, Forwarded(sender, "answer", "answer", data))
    else if event == "ice-candidate" then (m, Forwarded(sender, "ice-candidate", "candidate", data))
    else if event == "end_call" then (m, EndCall(m, sender, data))
    else (m, Emitted([]))
  }

  /** The process's Socket.IO state: the registry and everything emitted so far. */
  class Server {
    var userSockets: UserSockets
    var outbox: seq<Emission>

    ghost predicate Valid()
      reads this
    {
      WellFormed(userSockets)
    }

    constructor ()
      ensures Valid() && userSockets == Empty && outbox == []
    {
      userSockets := Empty;
      outbox := [];
    }

    method AddUserSocket(userId: string, socketId: string)
      requires Valid()
      modifies this
      ensures Valid()
      ensures userSockets == Added(old(userSockets), userId, socketId) && outbox == old(outbox)
    {
      if userId == "" {
        return;
      }
      ghost var before := userSockets;
      if userId !in userSockets.sets {
        userSockets := UserSockets(userSockets.order + [userId], userSockets.sets[userId := []]);
      }
      var sockets := userSockets.sets[userId];
      assert sockets == if userId in before.sets then before.sets[userId] else [];
      userSockets := userSockets.(sets := userSockets.sets[userId := Insert(sockets, socketId)]);
      assert userSockets.sets == before.sets[userId := Insert(sockets, socketId)];
    }

    method RemoveUserSocket(socketId: string)
      requires Valid()
      modifies this
      ensures Valid()
      ensures userSockets == Removed(old(userSockets), socketId) && outbox == old(outbox)
    {
      var entries := userSockets.order;
      for i := 0 to |entries|
        invariant userSockets == old(userSockets) && outbox == old(outbox)
        invariant forall j :: 0 <= j < i ==> socketId !in userSockets.sets[entries[j]]
      {
        var userId := entries[i];
        var sset := userSockets.sets[userId];
        if socketId in sset {
          assert FirstOwner(userSockets, socketId) == Some(i);
          sset := Erase(sset, socketId);
          if sset == [] {
            userSockets := UserSockets(Erase(userSockets.order, userId), userSockets.sets - {userId});
          } else {
            userSockets := userSockets.(sets := userSockets.sets[userId := sset]);
          }
          return;
        }
      }
      assert FirstOwner(userSockets, socketId).None?;
    }

    method EmitToUser(userId: Value, event: string, payload: Value) returns (sent: bool, threw: bool)
      modifies this
      ensures userSockets == old(userSockets)
      ensures sent <==> SocketsOf(userSockets, userId) != []
      ensures threw == EmitTo(userSockets, userId, event, payload).TypeError?
      ensures outbox == old(outbox) + EmitTo(userSockets, userId, event, payload).Out()
    {
      var sockets := SocketsOf(userSockets, userId);
      if sockets == [] {
        return false, StringThrows(userId);
      }
      for i := 0 to |sockets|
        invariant userSockets == old(userSockets)
        invariant outbox == old(outbox) + Fanout(sockets[..i], event, payload)
      {
        assert sockets[..i + 1][..i] == sockets[..i];
        outbox := outbox + [Emission(Str(sockets[i]), event, payload)];
      }
      assert sockets[..|sockets|] == sockets;
      return true, false;
    }

    method OnRegister(sender: string, arg: Value) returns (threw: bool)
      requires Valid()
      modifies this
      ensures Valid()
      ensures userSockets == Registered(old(userSockets), sender, arg) && outbox == old(outbox)
      ensures threw == RegisterThrows(arg)
    {
      var id := if arg.Object? then Get(arg, "userId") else arg;
      if !Truthy(id) {
        return false;
      }
      var key := ToJsString(id);
      if key.None? {
        return true;
      }
      AddUserSocket(key.value, sender);
      return false;
    }

    method OnDisconnect(sender: string)
      requires Valid()
      modifies this
      ensures Valid()
      ensures userSockets == Removed(old(userSockets), sender) && outbox == old(outbox)
    {
      RemoveUserSocket(sender);
    }

    method OnCallUser(sender: string, data: Value) returns (threw: bool)
      requires Valid()
      modifies this
      ensures Valid() && userSockets == old(userSockets)
      ensures threw == CallUser(old(userSockets), sender, data).TypeError?
      ensures outbox == old(outbox) + CallUser(old(userSockets), sender, data).Out()
    {
      if Nullish(data) || CallLogThrows(data) {
        return true;
      }
      var sent, emitThrew := EmitToUser(Get(data, "toUserId"), "incoming-call", IncomingCall(data));
      assert !emitThrew;
      if !sent {
        outbox := outbox + [Emission(Str(sender), "user-offline", UserOffline(Get(data, "toUserId")))];
      }
      return false;
    }

    /** The first `send-message` listener. */
    method RelayMessage(data: Value) returns (threw: bool)
      requires Valid()
      modifies this
      ensures Valid() && userSockets == old(userSockets)
      ensures threw == MessageRelay(old(userSockets), data).TypeError?
      ensures outbox == old(outbox) + MessageRelay(old(userSockets), data).Out()
    {
      var d := OrEmpty(data);
      var toUserId, message, fromUserId := Get(d, "toUserId"), Get(d, "message"), Get(d, "fromUserId");
      if !Truthy(toUserId) || !Truthy(message) || !Truthy(fromUserId) {
        return false;
      }
      if StringThrows(fromUserId) || StringThrows(toUserId) {
        return true;
      }
      var _, emitThrew := EmitToUser(toUserId, "new-message", NewMessage(fromUserId, message));
      assert !emitThrew;
      return false;
    }

    /** The second `send-message` listener. */
    method DeliverMessage(data: Value) returns (threw: bool)
      requires Valid()
      modifies this
      ensures Valid() && userSockets == old(userSockets)
      ensures threw == MessageDelivery(old(userSockets), data).TypeError?
      ensures outbox == old(outbox) + MessageDelivery(old(userSockets), data).Out()
    {
      var d := OrEmpty(data);
      var toUserId, message, fromUserId := Get(d, "toUserId"), Get(d, "message"), Get(d, "fromUserId");
      if !Truthy(toUserId) || !Truthy(message) || !Truthy(fromUserId) {
        return false;
      }
      var _, emitThrew := EmitToUser(toUserId, "new-message", NewMessage(fromUserId, message));
      return emitThrew;
    }

    method OnSendMessage(data: Value) returns (threw: bool)
      requires Valid()
      modifies this
      ensures Valid() && userSockets == old(userSockets)
      ensures threw == SendMessage(old(userSockets), data).TypeError?
      ensures outbox == old(outbox) + SendMessage(old(userSockets), data).Out()
    {
      threw := RelayMessage(data);
      if threw {
        return;
      }
      threw := DeliverMessage(data);
    }

    method OnAcceptCall(sender: string, payload: Value)
      modifies this
      ensures userSockets == old(userSockets)
      ensures outbox == old(outbox) + AcceptCall(sender, payload)
    {
      var p := OrEmpty(payload);
      var toSocketId, roomId := Get(p, "toSocketId"), Get(p, "roomId");
      if Truthy(toSocketId) {
        outbox := outbox + [Emission(toSocketId, "call-accepted", Object(map["fromSocket" := Str(sender), "roomId" := roomId]))];
      }
    }

    method OnRejectCall(sender: string, payload: Value)
      modifies this
      ensures userSockets == old(userSockets)
      ensures outbox == old(outbox) + RejectCall(sender, payload)
    {
      var p := OrEmpty(payload);
      var toSocketId := Get(p, "toSocketId");
      if Truthy(toSocketId) {
        outbox := outbox + [Emission(toSocketId, "call-rejected", Object(map["fromSocket" := Str(sender)]))];
      }
    }

    /** The `offer`, `answer` and `ice-candidate` listeners. */
    method OnForward(sender: string, event: string, field: string, data: Value) returns (threw: bool)
      modifies this
      ensures userSockets == old(userSockets)
      ensures threw == Forwarded(sender, event, field, data).TypeError?
      ensures outbox == old(outbox) + Forwarded(sender, event, field, data).Out()
    {
      if Nullish(data) {
        return true;
      }
      outbox := outbox + [Emission(Get(data, "toSocketId"), event,
                                   Object(map["fromSocket" := Str(sender), field := Get(data, field)]))];
      return false;
    }

    method OnEndCall(sender: string, data: Value) returns (threw: bool)
      requires Valid()
      modifies this
      ensures Valid() && userSockets == old(userSockets)
      ensures threw == EndCall(old(userSockets), sender, data).TypeError?
      ensures outbox == old(outbox) + EndCall(old(userSockets), sender, data).Out()
    {
      var d := OrEmpty(data);
      var toUserId, roomId := Get(d, "toUserId"), Get(d, "roomId");
      if !Truthy(toUserId) || !Truthy(roomId) {
        return false;
      }
      var p := Object(map["roomId" := roomId]);
      var _, emitThrew := EmitToUser(toUserId, "call_ended", p);
      if emitThrew {
        return true;
      }
      if StringThrows(toUserId) || StringThrows(roomId) {
        return true;
      }
      outbox := outbox + [Emission(Str(sender), "call_ended", p)];
      return false;
    }

    /** Dispatch of one event on the connection `sender` to its listeners. */
    method Receive(sender: string, event: string, data: Value) returns (threw: bool)
      requires Valid()
      modifies this
      ensures Valid()
      ensures userSockets == Step(old(userSockets), sender, event, data).0
      ensures threw == Step(old(userSockets), sender, event, data).1.TypeError?
      ensures outbox == old(outbox) + Step(old(userSockets), sender, event, data).1.Out()
    {
      threw := false;
      if event == "register" {
        threw := OnRegister(sender, data);
      } else if event == "disconnect" {
        OnDisconnect(sender);
      } else if event == "call-user" {
        threw := OnCallUser(sender, data);
      } else if event == "send-message" {
        threw := OnSendMessage(data);
      } else if event == "accept-call" {
        OnAcceptCall(sender, data);
      } else if event == "reject-call" {
        OnRejectCall(sender, data);
      } else if event == "offer" {
        threw := OnForward(sender, "offer", "offer", data);
      } else if event == "answer" {
        threw := OnForward(sender, "answer", "answer", data);
      } else if event == "ice-candidate" {
        threw := OnForward(sender, "ice-candidate", "candidate", data);
      } else if event == "end_call" {
        threw := OnEndCall(sender, data);
      }
    }
  }
}
