/** What the inline registry and relay of backend/index.js guarantee, stated over the
    functions that specify the Server's methods. */
module InlineProperties {
  import opened JsValues
  import opened OrderedSets
  import opened InlineSignaling

  /** Registering the same user and socket twice leaves the Map as registering once. */
  lemma AddedIdempotent(m: UserSockets, userId: string, socketId: string)
    requires WellFormed(m)
    ensures Added(Added(m, userId, socketId), userId, socketId) == Added(m, userId, socketId)
  {
  }

  /** Disconnecting a socket that no user held, right after registering it, restores the
      Map exactly, key order included. */
  lemma RemovedUndoesAdded(m: UserSockets, userId: string, socketId: string)
    requires WellFormed(m) && userId != ""
    requires forall u :: u in m.sets ==> socketId !in m.sets[u]
    ensures Removed(Added(m, userId, socketId), socketId) == m
  {
    if userId in m.sets {
      RemovedUndoesAddedToKnownUser(m, userId, socketId);
    } else {
      RemovedUndoesAddedToNewUser(m, userId, socketId);
    }
  }

  lemma RemovedUndoesAddedToKnownUser(m: UserSockets, userId: string, socketId: string)
    requires WellFormed(m) && userId != "" && userId in m.sets
    requires forall u :: u in m.sets ==> socketId !in m.sets[u]
    ensures Removed(Added(m, userId, socketId), socketId) == m
  {
    var a := Added(m, userId, socketId);
    assert a == UserSockets(m.order, m.sets[userId := Insert(m.sets[userId], socketId)]);
    var i := FirstOwner(a, socketId).value;
    assert a.order[i] == userId;
    EraseInsert(m.sets[userId], socketId);
    var rest := Erase(a.sets[userId], socketId);
    assert rest == m.sets[userId] != [];
    assert Removed(a, socketId) == UserSockets(a.order, a.sets[userId := rest]);
    assert a.sets[userId := rest] == m.sets;
  }

  lemma RemovedUndoesAddedToNewUser(m: UserSockets, userId: string, socketId: string)
    requires WellFormed(m) && userId != "" && userId !in m.sets
    requires forall u :: u in m.sets ==> socketId !in m.sets[u]
    ensures Removed(Added(m, userId, socketId), socketId) == m
  {
    var a := UserSockets(m.order + [userId], m.sets[userId := [socketId]]);
    AddedNewUser(m, userId, socketId);
    calc {
      Removed(Added(m, userId, socketId), socketId);
      Removed(a, socketId);
      { RemovedSoleSocket(a, userId, socketId); }
      UserSockets(Erase(m.order + [userId], userId), m.sets[userId := [socketId]] - {userId});
      { EraseInsert(m.order, userId);
        assert m.sets[userId := [socketId]] - {userId} == m.sets; }
      UserSockets(m.order, m.sets);
    }
  }

  /** Registering a user with no entry yet appends it to the key order with a Set
      holding only the new socket. */
  lemma AddedNewUser(m: UserSockets, userId: string, socketId: string)
    requires WellFormed(m) && userId != "" && userId !in m.sets
    ensures Added(m, userId, socketId) == UserSockets(m.order + [userId], m.sets[userId := [socketId]])
    ensures WellFormed(UserSockets(m.order + [userId], m.sets[userId := [socketId]]))
    ensures userId !in m.order
  {
    assert Insert([], socketId) == [socketId];
  }

  /** Disconnecting the one socket of a user that no other user holds drops that user. */
  lemma RemovedSoleSocket(m: UserSockets, userId: string, socketId: string)
    requires WellFormed(m) && userId in m.sets && m.sets[userId] == [socketId]
    requires forall u :: u in m.sets && u != userId ==> socketId !in m.sets[u]
    ensures Removed(m, socketId) == UserSockets(Erase(m.order, userId), m.sets - {userId})
  {
    var i := FirstOwner(m, socketId).value;
    assert m.order[i] == userId;
    assert Erase([socketId], socketId) == [];
  }

  /** `call-user` throws before sending anything when its log line meets a value it cannot
      convert. Otherwise, to an online user it reaches each of that user's sockets exactly
      once with `incoming-call` and reaches nothing else; to an offline user it sends exactly
      one `user-offline` back to the caller. */
  lemma CallUserRouting(m: UserSockets, sender: string, data: Value)
    requires WellFormed(m) && !Nullish(data)
    ensures CallLogThrows(data) ==> CallUser(m, sender, data) == TypeError([])
    ensures var targets := SocketsOf(m, Get(data, "toUserId"));
            var out := CallUser(m, sender, data).Out();
            && (!CallLogThrows(data) && targets != [] ==>
                  && (forall s :: multiset(out)[Emission(Str(s), "incoming-call", IncomingCall(data))]
                                  == if s in targets then 1 else 0)
                  && (forall e :: e in out ==>
                        e.event == "incoming-call" && e.payload == IncomingCall(data) && e.target.Str? && e.target.s in targets))
            && (!CallLogThrows(data) && targets == [] ==>
                  out == [Emission(Str(sender), "user-offline", UserOffline(Get(data, "toUserId")))])
  {
    var targets := SocketsOf(m, Get(data, "toUserId"));
    assert Distinct(targets);
    FanoutExactlyOnce(targets, "incoming-call", IncomingCall(data));
    if !CallLogThrows(data) && targets != [] {
      assert CallUser(m, sender, data).Out() == Fanout(targets, "incoming-call", IncomingCall(data));
    }
  }

  /** Because two `send-message` listeners are registered, a valid message reaches every
      socket of the recipient twice and nothing else. When the first listener's log line
      cannot convert the sender or the recipient, it throws, the second listener never runs,
      and nothing is sent. An invalid message, or one to an offline user, sends nothing. */
  lemma SendMessageDeliveredTwice(m: UserSockets, data: Value)
    requires WellFormed(m)
    ensures var d := OrEmpty(data);
            var toUserId, message, fromUserId := Get(d, "toUserId"), Get(d, "message"), Get(d, "fromUserId");
            var reaction := SendMessage(m, data);
            var out := reaction.Out();
            var throws := StringThrows(fromUserId) || StringThrows(toUserId);
            && (!ValidMessage(data) || SocketsOf(m, toUserId) == [] ==> out == [])
            && (reaction.TypeError? <==> ValidMessage(data) && throws)
            && (reaction.TypeError? ==> out == [])
            && (forall s :: multiset(out)[Emission(Str(s), "new-message", NewMessage(fromUserId, message))]
                            == if s in SocketsOf(m, toUserId) && ValidMessage(data) && !throws then 2 else 0)
            && (forall e :: e in out ==>
                  e.event == "new-message" && e.payload == NewMessage(fromUserId, message)
                  && e.target.Str? && e.target.s in SocketsOf(m, toUserId))
  {
    var d := OrEmpty(data);
    var toUserId, message, fromUserId := Get(d, "toUserId"), Get(d, "message"), Get(d, "fromUserId");
    var targets := SocketsOf(m, toUserId);
    var payload := NewMessage(fromUserId, message);
    assert Distinct(targets);
    FanoutExactlyOnce(targets, "new-message", payload);
    var first := MessageRelay(m, data);
    if first.Emitted? && ValidMessage(data) {
      assert first.emissions == Fanout(targets, "new-message", payload);
      assert SendMessage(m, data).Out() == first.emissions + first.emissions;
    }
  }

  /** A valid `end_call` sends `call_ended` once to each socket of the other user and, after
      the log line, once more back to the sender, whether or not the other user is online.
      A `toUserId` the log lines cannot convert throws before anything is sent; such a
      `roomId` throws after the fan-out and loses the echo. Without `toUserId` or `roomId`
      nothing is sent. */
  lemma EndCallEchoesToSender(m: UserSockets, sender: string, data: Value)
    requires WellFormed(m)
    ensures var d := OrEmpty(data);
            var toUserId, roomId := Get(d, "toUserId"), Get(d, "roomId");
            var p := Object(map["roomId" := roomId]);
            var reaction := EndCall(m, sender, data);
            var out := reaction.Out();
            var valid := Truthy(toUserId) && Truthy(roomId);
            && (!valid ==> reaction == Emitted([]))
            && (valid && StringThrows(toUserId) ==> reaction == TypeError([]))
            && (valid && !StringThrows(toUserId) ==>
                  && (reaction.TypeError? <==> StringThrows(roomId))
                  && (forall s :: multiset(out)[Emission(Str(s), "call_ended", p)]
                                  == (if s in SocketsOf(m, toUserId) then 1 else 0)
                                     + (if s == sender && !StringThrows(roomId) then 1 else 0))
                  && (forall e :: e in out ==> e.event == "call_ended" && e.payload == p))
            && (valid && !StringThrows(toUserId) && !StringThrows(roomId) ==>
                  && out[|out| - 1] == Emission(Str(sender), "call_ended", p)
                  && (SocketsOf(m, toUserId) == [] ==> out == [Emission(Str(sender), "call_ended", p)]))
  {
    var d := OrEmpty(data);
    var toUserId, roomId := Get(d, "toUserId"), Get(d, "roomId");
    if Truthy(toUserId) && Truthy(roomId) && !StringThrows(toUserId) {
      EndCallDelivered(m, sender, data);
    }
  }

  /** The valid case of `EndCallEchoesToSender`, when `toUserId` can be converted. */
  lemma EndCallDelivered(m: UserSockets, sender: string, data: Value)
    requires WellFormed(m)
    requires Truthy(Get(OrEmpty(data), "toUserId")) && Truthy(Get(OrEmpty(data), "roomId"))
    requires !StringThrows(Get(OrEmpty(data), "toUserId"))
    ensures var toUserId, roomId := Get(OrEmpty(data), "toUserId"), Get(OrEmpty(data), "roomId");
            var p := Object(map["roomId" := roomId]);
            var reaction := EndCall(m, sender, data);
            var out := reaction.Out();
            && (reaction.TypeError? <==> StringThrows(roomId))
            && (forall s :: multiset(out)[Emission(Str(s), "call_ended", p)]
                            == (if s in SocketsOf(m, toUserId) then 1 else 0)
                               + (if s == sender && !StringThrows(roomId) then 1 else 0))
            && (forall e :: e in out ==> e.event == "call_ended" && e.payload == p)
            && (!StringThrows(roomId) ==>
                  && out[|out| - 1] == Emission(Str(sender), "call_ended", p)
                  && (SocketsOf(m, toUserId) == [] ==> out == [Emission(Str(sender), "call_ended", p)]))
  {
    var toUserId, roomId := Get(OrEmpty(data), "toUserId"), Get(OrEmpty(data), "roomId");
    var p := Object(map["roomId" := roomId]);
    var targets := SocketsOf(m, toUserId);
    assert Distinct(targets);
    FanoutExactlyOnce(targets, "call_ended", p);
    EndCallEmissions(m, sender, data);
  }

  /** A valid `end_call` whose `toUserId` can be converted: the fan-out, then the echo
      unless the log line between them throws on the room. */
  lemma EndCallEmissions(m: UserSockets, sender: string, data: Value)
    requires Truthy(Get(OrEmpty(data), "toUserId")) && Truthy(Get(OrEmpty(data), "roomId"))
    requires !StringThrows(Get(OrEmpty(data), "toUserId"))
    ensures var toUserId, roomId := Get(OrEmpty(data), "toUserId"), Get(OrEmpty(data), "roomId");
            var p := Object(map["roomId" := roomId]);
            EndCall(m, sender, data).emissions
              == Fanout(SocketsOf(m, toUserId), "call_ended", p)
                 + (if StringThrows(roomId) then [] else [Emission(Str(sender), "call_ended", p)])
  {
    var toUserId, roomId := Get(OrEmpty(data), "toUserId"), Get(OrEmpty(data), "roomId");
    var p := Object(map["roomId" := roomId]);
    assert EmitTo(m, toUserId, "call_ended", p).emissions == Fanout(SocketsOf(m, toUserId), "call_ended", p);
  }

  /** `accept-call` and `reject-call` never throw, even on a value no log line could
      convert, and leave the Map alone; they send one event to a truthy `toSocketId`, with
      exactly the sender's socket id (and, for `accept-call`, the room), and nothing otherwise. */
  lemma AnswerRelayed(m: UserSockets, sender: string, event: string, payload: Value)
    requires WellFormed(m) && (event == "accept-call" || event == "reject-call")
    ensures Step(m, sender, event, payload).0 == m
    ensures Step(m, sender, event, payload).1.Emitted?
    ensures var out := Step(m, sender, event, payload).1.Out();
            var toSocketId := Get(OrEmpty(payload), "toSocketId");
            && (!Truthy(toSocketId) ==> out == [])
            && (Truthy(toSocketId) && event == "accept-call" ==>
                  out == [Emission(toSocketId, "call-accepted",
                                   Object(map["fromSocket" := Str(sender), "roomId" := Get(OrEmpty(payload), "roomId")]))])
            && (Truthy(toSocketId) && event == "reject-call" ==>
                  out == [Emission(toSocketId, "call-rejected", Object(map["fromSocket" := Str(sender)]))])
  {
  }

  /** `offer`, `answer` and `ice-candidate` leave the Map alone, throw on a null or
      undefined argument, and otherwise pass the one negotiation field on, under the same
      event name, to whatever `toSocketId` names. */
  lemma SignalRelayed(m: UserSockets, sender: string, event: string, data: Value)
    requires WellFormed(m) && (event == "offer" || event == "answer" || event == "ice-candidate")
    ensures Step(m, sender, event, data).0 == m
    ensures Step(m, sender, event, data).1.TypeError? <==> Nullish(data)
    ensures !Nullish(data) ==>
      var out := Step(m, sender, event, data).1.Out();
      && |out| == 1
      && out[0].target == Get(data, "toSocketId") && out[0].event == event
      && out[0].payload.Object?
      && out[0].payload.fields.Keys == {"fromSocket", SignalField(event)}
      && Get(out[0].payload, "fromSocket") == Str(sender)
      && Get(out[0].payload, SignalField(event)) == Get(data, SignalField(event))
  {
  }

  /** Registering a string id with no entry yet appends a key holding only the sender. */
  lemma RegisteredNewUser(m: UserSockets, sender: string, name: string)
    requires WellFormed(m) && name != "" && name !in m.sets
    ensures Registered(m, sender, Str(name)) == UserSockets(m.order + [name], m.sets[name := [sender]])
  {
    assert Insert([], sender) == [sender];
  }

  /** A `userId` that `String()` cannot convert throws in the `register` listener and
      stores nothing. */
  lemma UnconvertibleIdRegistersNothing(m: UserSockets, sender: string, id: Value)
    requires WellFormed(m) && StringThrows(id)
    ensures Step(m, sender, "register", Object(map["userId" := id])) == (m, TypeError([]))
  {
    assert RegisterId(Object(map["userId" := id])) == id;
  }

  /** Two sockets registered, one after the other, under two distinct users. */
  lemma TwoUsersRegistered(u1: string, s1: string, u2: string, s2: string)
    requires u1 != "" && u2 != "" && u1 != u2
    ensures Registered(Registered(Empty, s1, Str(u1)), s2, Str(u2))
            == UserSockets([u1, u2], map[u1 := [s1], u2 := [s2]])
  {
    FirstUserRegistered(u1, s1);
    SecondUserRegistered(u1, s1, u2, s2);
  }

  lemma FirstUserRegistered(u: string, s: string)
    requires u != ""
    ensures Registered(Empty, s, Str(u)) == UserSockets([u], map[u := [s]])
    ensures WellFormed(UserSockets([u], map[u := [s]]))
  {
    RegisteredNewUser(Empty, s, u);
    assert Empty.order + [u] == [u];
  }

  lemma SecondUserRegistered(u1: string, s1: string, u2: string, s2: string)
    requires u1 != "" && u2 != "" && u1 != u2
    requires WellFormed(UserSockets([u1], map[u1 := [s1]]))
    ensures Registered(UserSockets([u1], map[u1 := [s1]]), s2, Str(u2))
            == UserSockets([u1, u2], map[u1 := [s1], u2 := [s2]])
  {
    RegisteredNewUser(UserSockets([u1], map[u1 := [s1]]), s2, u2);
    assert [u1] + [u2] == [u1, u2];
  }

  /** A socket registered under two users stays with the second after it disconnects:
      the scan stops at the first Set that holds it. */
  lemma DisconnectStopsAtFirstOwner(socketId: string, first: string, second: string)
    requires first != "" && second != "" && first != second
    ensures var m := Registered(Registered(Empty, socketId, Str(first)), socketId, Str(second));
            && m.sets == map[first := [socketId], second := [socketId]]
            && Removed(m, socketId) == UserSockets([second], map[second := [socketId]])
  {
    TwoUsersRegistered(first, socketId, second, socketId);
    var m := UserSockets([first, second], map[first := [socketId], second := [socketId]]);
    assert FirstOwner(m, socketId) == Some(0);
    assert Erase([socketId], socketId) == [];
    assert Erase(m.order, first) == [second] by {
      assert m.order[1..] == [second];
    }
    assert m.sets - {first} == map[second := [socketId]];
  }

  /** A numeric id is stored under its decimal string, so `call-user` finds the user only
      when `toUserId` is that string. */
  lemma NumericIdStoredAsString(socketId: string)
    ensures var m := Registered(Empty, socketId, Object(map["userId" := Num(42)]));
            && m == UserSockets(["42"], map["42" := [socketId]])
            && SocketsOf(m, Str("42")) == [socketId]
            && SocketsOf(m, Num(42)) == []
  {
    assert Decimal(42) == "42" by {
      assert DigitChar(4) == '4' && DigitChar(2) == '2';
      assert Decimal(4) == "4";
    }
    assert Insert([], socketId) == [socketId];
  }

  /** bob on c1 and carol on c2, registered through the `register` listener. */
  lemma RegisteredThroughStep(bob: string, carol: string, c1: string, c2: string)
    requires bob != "" && carol != "" && bob != carol
    ensures Step(Step(Empty, c1, "register", Str(bob)).0, c2, "register", Str(carol)).0
            == UserSockets([bob, carol], map[bob := [c1], carol := [c2]])
  {
    TwoUsersRegistered(bob, c1, carol, c2);
    assert Step(Empty, c1, "register", Str(bob)).0 == Registered(Empty, c1, Str(bob));
  }

  /** bob on c1 and carol on c2, the Map the end-to-end call below starts from. */
  lemma TwoUserMapWellFormed(bob: string, carol: string, c1: string, c2: string)
    requires bob != carol
    ensures WellFormed(UserSockets([bob, carol], map[bob := [c1], carol := [c2]]))
  {
  }

  /** The end-to-end call between `bob` on c1 and `carol` on c2, first half: bob calls
      carol, whose one socket rings with bob's name as the caller. */
  lemma CallScenarioRing(bob: string, carol: string, c1: string, c2: string, room: string)
    requires bob != "" && carol != "" && bob != carol
    ensures var m := UserSockets([bob, carol], map[bob := [c1], carol := [c2]]);
            var call := Object(map["fromUserId" := Str(bob), "toUserId" := Str(carol), "roomId" := Str(room), "isVideo" := Bool(true)]);
            && Step(m, c1, "call-user", call).1 == Emitted([Emission(Str(c2), "incoming-call", IncomingCall(call))])
            && Get(IncomingCall(call), "callerName") == Str(bob)
  {
    TwoUserMapWellFormed(bob, carol, c1, c2);
    var m := UserSockets([bob, carol], map[bob := [c1], carol := [c2]]);
    var call := Object(map["fromUserId" := Str(bob), "toUserId" := Str(carol), "roomId" := Str(room), "isVideo" := Bool(true)]);
    assert SocketsOf(m, Str(carol)) == [c2];
    assert Step(m, c1, "call-user", call).1 == CallUser(m, c1, call);
  }

  /** carol accepts on c2, and `call-accepted` goes straight to bob's socket c1. */
  lemma CallScenarioAccept(bob: string, carol: string, c1: string, c2: string, room: string)
    requires bob != carol && c1 != ""
    ensures var m := UserSockets([bob, carol], map[bob := [c1], carol := [c2]]);
            var accept := Object(map["toSocketId" := Str(c1), "roomId" := Str(room)]);
            Step(m, c2, "accept-call", accept).1
              == Emitted([Emission(Str(c1), "call-accepted", Object(map["fromSocket" := Str(c2), "roomId" := Str(room)]))])
  {
    TwoUserMapWellFormed(bob, carol, c1, c2);
  }

  /** Second half: carol hangs up, and `call_ended` reaches bob's socket and comes back
      to carol's. */
  lemma CallScenarioHangUp(bob: string, carol: string, c1: string, c2: string, room: string)
    requires bob != "" && carol != "" && bob != carol && room != ""
    ensures var m := UserSockets([bob, carol], map[bob := [c1], carol := [c2]]);
            var hangUp := Object(map["toUserId" := Str(bob), "roomId" := Str(room)]);
            var ended := Object(map["roomId" := Str(room)]);
            Step(m, c2, "end_call", hangUp).1
              == Emitted([Emission(Str(c1), "call_ended", ended), Emission(Str(c2), "call_ended", ended)])
  {
    TwoUserMapWellFormed(bob, carol, c1, c2);
    var m := UserSockets([bob, carol], map[bob := [c1], carol := [c2]]);
    var hangUp := Object(map["toUserId" := Str(bob), "roomId" := Str(room)]);
    assert SocketsOf(m, Str(bob)) == [c1];
    assert Step(m, c2, "end_call", hangUp).1 == EndCall(m, c2, hangUp);
  }

  /** A call to a user nobody registered rings nothing and comes back as `user-offline`. */
  lemma CallToUnregisteredUser(bob: string, carol: string, c1: string, c2: string, nobody: string, room: string)
    requires bob != "" && carol != "" && bob != carol && nobody != bob && nobody != carol
    ensures var m := UserSockets([bob, carol], map[bob := [c1], carol := [c2]]);
            var call := Object(map["fromUserId" := Str(bob), "toUserId" := Str(nobody), "roomId" := Str(room)]);
            Step(m, c1, "call-user", call).1 == Emitted([Emission(Str(c1), "user-offline", UserOffline(Str(nobody)))])
  {
    TwoUserMapWellFormed(bob, carol, c1, c2);
    var m := UserSockets([bob, carol], map[bob := [c1], carol := [c2]]);
    var call := Object(map["fromUserId" := Str(bob), "toUserId" := Str(nobody), "roomId" := Str(room)]);
    assert SocketsOf(m, Str(nobody)) == [];
    assert Step(m, c1, "call-user", call).1 == CallUser(m, c1, call);
  }
}
