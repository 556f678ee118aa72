# Presence registry and call-signaling relay

This project models the part of the backend that records which users are reachable on which
live Socket.IO connections, and that relays call set-up and WebRTC negotiation events between
those connections. The repository has two separate implementations of it, and the model
keeps them separate:

- **the inline relay** in `backend/index.js`. It keeps one Map from a user id (always a string)
  to the Set of that user's socket ids. It has no inverse Map: a disconnect scans the Map
  in insertion order and stops at the first user whose Set holds the socket. This is module
  `InlineSignaling`, with class `Server`, and its properties are in `InlineProperties`.
- **the attachable relay** in `backend/routes/callSignaling.js`, returned by `attachSignaling`.
  It keeps `socketIdToUser` and `userToSockets`, and its user ids are whatever value the
  client sent. This is module `AttachedSignaling`, with class `Signaling`, and its
  properties are in `AttachedProperties`. Every registry it can reach is well-formed: each
  Set is non-empty and duplicate-free, and each user id in `socketIdToUser` is truthy. It is
  consistent as well while no live socket is registered under a second user: then the two
  Maps describe the same relation.

The two relays share the model of values, in module `JsValues`:

- event payloads are a small JavaScript value type;
- the model includes truthiness, `a || b`, `data || {}` and `String(v)`, and two kinds of
  `TypeError`: the one thrown by destructuring `null` or `undefined`, and the one thrown by
  `String(v)` or a template literal `${v}` when `v` is a decoded object with an own
  `toString` field. Such a field is data, not a function, and the inherited `valueOf` gives
  back the object itself, so no primitive can be found (`StringThrows`).

Each `io.to(x).emit(e, p)` and each `socket.emit(e, p)` is recorded as an `Emission` appended
to the object's `outbox`. A JavaScript `Set` is modelled as a duplicate-free sequence in
insertion order (module `OrderedSets`). That keeps exact both the order of
`for (const sId of sockets)` and the scan of `removeUserSocket`.

Each class method changes its fields step by step, as the source does: the registry helpers
use loops and updates in place. Each method is proved equal to a pure function of the old
state, such as `Added`, `Removed`, `Registered` or `Step`. The properties are then proved as
lemmas about those functions.

Some behaviour of the code is easy to miss, and the model keeps it as written:

- **Event names and payloads.** The end-call event is `end_call`. The inline relay answers it
  with `call_ended`, sent to every socket of `toUserId` and echoed to the sender. The
  attachable relay answers with `call-ended{fromSocket}`, sent to `toSocketId` only, with no
  echo. The inline `incoming-call` carries `fromUserId`, `callerName`, `roomId` and `isVideo`.
  The attachable one carries `fromUser` (looked up from the caller's socket), `fromSocket`,
  `roomId` and `callType`.
- **Malformed events are not always dropped.** The code throws when a handler destructures a
  null or undefined argument:
  - in the inline relay, `call-user`, `offer`, `answer` and `ice-candidate`;
  - in the attachable relay, every destructuring listener.
- **Log lines can throw.** Each template literal in a log line converts the values it
  interpolates, and throws on one that cannot be converted. Its position in the listener
  decides what has already happened:
  - before any emission: the inline `register` (`String(id)`), `call-user` and the first
    `send-message` listener, and the attachable `call-user`, `accept-call`, `reject-call`,
    `offer` and `answer`;
  - after the emissions: the inline `end_call`, which then loses its echo to the sender, and
    the attachable `end_call`;
  - after the registry was updated and the acknowledgement sent: the attachable `register`;
  - inside `emitToUser`, when the user has no socket: in both files the offline log line
    interpolates the user id.

  The inline `accept-call` and `reject-call` log with `JSON.stringify`, which does not throw
  on decoded data, and `ice-candidate` logs nothing.
- **What a throw leaves behind.** The model records a throw as `Reaction.TypeError(sent)`:
  `sent` is what the listener emitted before it threw, and whatever it changed in the
  registry stays changed. A throw also stops the remaining listeners for the same event, so
  the second inline `send-message` listener runs only when the first did not throw. Nothing
  in either file catches the exception, so in Node it ends the process; that is not
  modelled (see "Left out").
- **Direct routing is not checked against the registry.** `offer`, `answer`, `ice-candidate`
  and the attachable `accept-call` and `reject-call` emit to whatever `toSocketId` names,
  even an unknown or missing socket, once their log line (if any) has run. In the inline
  relay, `accept-call` and `reject-call` emit only to a truthy `toSocketId`.
- **`send-message` is delivered twice.** The inline relay registers two `send-message`
  listeners with the same guard, so every socket of the recipient gets `new-message` twice.
- **The two Maps can disagree.** Registering a live socket under a second user makes
  `callSignaling.js` overwrite only the inverse entry, so the first user's Set keeps the
  socket even after the disconnect (`ReRegisterLeavesStaleEntry`). `index.js` has no inverse
  Map at all: a socket registered under two users is removed from the first one only.
- **Acknowledgement of `register`.** Only `callSignaling.js` acknowledges a registration,
  with `registered{socketId}`. `index.js` stores `String(id)`, so the numeric id `42` is
  found only as the string `"42"`.

## Model

| member | source | states |
|---|---|---|
| `OrderedSets.Insert` | backend/index.js:64-65 | `set.add`: membership becomes the old members plus `x`; distinctness is kept; an existing member changes nothing; the size grows by at most one |
| `OrderedSets.Erase` | backend/index.js:72 | `set.delete`: membership becomes the old members minus `x`; distinctness is kept; the size drops by exactly one when `x` was a member; an absent `x` changes nothing |
| `OrderedSets.EraseInsert` | backend/index.js:62-78 | deleting a member that was just added restores the Set, order included |
| `JsValues.Or` | backend/index.js:116 | JavaScript's logical or is truthy iff either operand is; it is one of the two operands, and the first one when that is truthy |
| `JsValues.OrEmpty` | backend/index.js:132 | `data` or-ed with `{}` is never nullish, and every field read from it is the field of `data` when `data` is truthy, `undefined` otherwise |
| `JsValues.Truthy` | backend/index.js:100 | the test `if (!id)` passes no nullish value, and every object passes it |
| `JsValues.Nullish` | backend/routes/callSignaling.js:46 | the values whose destructuring throws, `null` and `undefined`, are neither objects nor strings |
| `JsValues.Get` | backend/index.js:99 | a property read gives something other than `undefined` only from an object's own field of that name, and always `undefined` on a non-object |
| `JsValues.StringThrows` | backend/index.js:101 | a value that `String()` or a template literal cannot convert is truthy and is not a string, so the `if (!id)` guards let it through |
| `JsValues.Decimal` | backend/index.js:101 | the numeral `String(n)` gives for a natural number `n` is non-empty and all digits; it starts with `0` exactly when `n` is zero; and reading its digits back (`DecimalValue`) gives `n` again |
| `JsValues.ToJsString` | backend/index.js:101 | `String(v)` throws exactly on the values of `StringThrows`; for any other value it gives a string, which is non-empty when `v` is truthy and is `v` itself when `v` is a string |
| `JsValues.NumericKeysDistinct` | backend/index.js:101 | distinct numeric ids are stored under distinct `String()` keys, negative ones included |
| `JsValues.Fanout` | backend/index.js:86-88 | the loop over a Set makes one emission per socket, in Set order, all with the same event and payload |
| `JsValues.FanoutExactlyOnce` | backend/routes/callSignaling.js:36-38 | a fan-out over a Set reaches each member exactly once and reaches nothing else |
| `JsValues.Reaction.Then` | backend/index.js:131-192 | a listener that runs after one that threw does not run: the event throws exactly when either listener does, keeps the first one's throw as it is, and otherwise sends the first one's emissions followed by the second one's |
| `InlineSignaling.Added` | backend/index.js:62-67 | an empty user id changes nothing; otherwise the user holds exactly its old sockets plus the new one, every other user is untouched, and well-formedness is kept |
| `InlineSignaling.SocketsOf` | backend/index.js:81 | `userSockets.get(userId)` gives no socket for a non-string id; on a well-formed Map it gives a duplicate-free Set, which is non-empty exactly when the id is a key |
| `InlineSignaling.FirstOwner` | backend/index.js:70-71 | there is no result iff no Set holds the socket; otherwise the result is the first position in Map order whose Set holds it |
| `InlineSignaling.Removed` | backend/index.js:69-78 | an unowned socket changes nothing, and the first owner in Map order loses the socket; that owner's key goes iff the socket was its last one, every other user is untouched, and well-formedness is kept |
| `InlineSignaling.RegisterId` | backend/index.js:99 | an object argument gives its own `userId` field; any other argument is the id itself; null and undefined give a falsy id |
| `InlineSignaling.Registered` | backend/index.js:96-102 | a falsy id changes nothing, and neither does one that `String()` cannot convert (the listener throws first); otherwise the Map becomes `Added` of the old one under `String(id)`: the sender joins that Set, no other socket does, and every other user is untouched; well-formedness is kept |
| `InlineSignaling.EmitTo` | backend/index.js:80-90 | a user id that the offline log line cannot convert throws before anything is sent; any other id gets exactly the fan-out over that user's Set, which is empty for an offline user |
| `InlineSignaling.IncomingCall` | backend/index.js:114-119 | the payload has exactly `fromUserId`, `callerName`, `roomId` and `isVideo`; three are copied; `callerName` is the first truthy of `callerName`, `fromUserId` and `"Unknown"`, so it is always truthy |
| `InlineSignaling.CallUser` | backend/index.js:109-128 | throws, before sending anything, exactly on a nullish argument or when the opening log line meets a value it cannot convert; otherwise it sends exactly one `user-offline{toUserId}` to the caller when the callee has no socket, and else one `incoming-call` per socket of the callee, in Set order |
| `InlineSignaling.MessageRelay` | backend/index.js:131-149 | without a truthy `toUserId`, `message` and `fromUserId` nothing is sent; with them, it throws and sends nothing exactly when its log line cannot convert the sender or the recipient; otherwise it sends exactly one `new-message{fromUserId, message}` to each socket of the recipient, in Set order, and nothing else |
| `InlineSignaling.MessageDelivery` | backend/index.js:188-192 | without a truthy `toUserId`, `message` and `fromUserId` nothing is sent; with them, it throws exactly when the offline log line cannot convert the recipient, and with a convertible sender it sends exactly what the first listener sends |
| `InlineSignaling.SendMessage` | backend/index.js:131-192 | the event throws exactly when the first listener does, and then sends nothing; otherwise it sends twice as much as the first listener, and each half is exactly the first listener's emissions |
| `InlineSignaling.AcceptCall` | backend/index.js:151-155 | never throws (its log line uses `JSON.stringify`); one emission exactly when `toSocketId` is truthy: `call-accepted` to that socket, whose payload is exactly `fromSocket`, the sender, and the given `roomId` |
| `InlineSignaling.RejectCall` | backend/index.js:157-161 | never throws; one emission exactly when `toSocketId` is truthy: `call-rejected` to that socket, whose payload is only `fromSocket`, the sender |
| `InlineSignaling.Forwarded` | backend/index.js:164-172 | throws exactly on a nullish argument; otherwise one emission of the event to `toSocketId`, passing the signalling field on unchanged and naming the sender as `fromSocket` |
| `InlineSignaling.EndCall` | backend/index.js:174-184 | without a truthy `toUserId` and `roomId` nothing is sent; with them, it throws exactly when `toUserId` or `roomId` cannot be converted. Otherwise it sends `call_ended{roomId}` to each socket of `toUserId`, in Set order, and then one copy to the sender, `|targets| + 1` emissions in all. An unconvertible `roomId` throws after the fan-out, so the echo is lost |
| `InlineSignaling.Step` | backend/index.js:92-194 | only `register` and `disconnect` change the Map, and well-formedness is kept; only `register`, `call-user`, `send-message`, `offer`, `answer`, `ice-candidate` and `end_call` can throw, and only with a nullish argument or one holding a field that cannot be converted to a string |
| `InlineSignaling.Server.constructor` | backend/index.js:57-60 | a new server has an empty Map and has emitted nothing |
| `InlineSignaling.Server.AddUserSocket` | backend/index.js:62-67 | the new Map is `Added` of the old one; nothing is emitted |
| `InlineSignaling.Server.RemoveUserSocket` | backend/index.js:69-78 | the loop's result is `Removed` of the old Map; the loop stops at the first owner; nothing is emitted |
| `InlineSignaling.Server.EmitToUser` | backend/index.js:80-90 | returns `sent` true exactly when the user has a socket, and `threw` exactly when `EmitTo` throws; appends exactly `EmitTo`'s emissions; leaves the Map unchanged |
| `InlineSignaling.Server.OnRegister` | backend/index.js:96-102 | the new Map is `Registered` of the old one, and the listener throws exactly when `String(id)` does; nothing is emitted |
| `InlineSignaling.Server.OnDisconnect` | backend/index.js:104-107 | the new Map is `Removed` of the old one |
| `InlineSignaling.Server.OnCallUser` | backend/index.js:109-128 | throws exactly when `CallUser` does; otherwise appends the `CallUser` emissions; leaves the Map unchanged |
| `InlineSignaling.Server.RelayMessage` | backend/index.js:131-149 | the first `send-message` listener throws exactly when `MessageRelay` does, appends its emissions, and leaves the Map unchanged |
| `InlineSignaling.Server.DeliverMessage` | backend/index.js:188-192 | the second `send-message` listener throws exactly when `MessageDelivery` does, appends its emissions, and leaves the Map unchanged |
| `InlineSignaling.Server.OnSendMessage` | backend/index.js:131-192 | the first `send-message` listener runs, then the second unless the first threw; the outbox grows by `SendMessage`, and the event throws exactly when `SendMessage` does |
| `InlineSignaling.Server.OnAcceptCall` | backend/index.js:151-155 | appends the `AcceptCall` emissions, never throws, and leaves the Map unchanged |
| `InlineSignaling.Server.OnRejectCall` | backend/index.js:157-161 | appends the `RejectCall` emissions, never throws, and leaves the Map unchanged |
| `InlineSignaling.Server.OnForward` | backend/index.js:164-172 | throws exactly when `Forwarded` does, that is on a nullish argument; otherwise appends the `Forwarded` emission |
| `InlineSignaling.Server.OnEndCall` | backend/index.js:174-184 | throws exactly when `EndCall` does, appends its emissions, sent before the throw included, and leaves the Map unchanged |
| `InlineSignaling.Server.Receive` | backend/index.js:92-194 | dispatching one event changes the state exactly as `Step` says |
| `InlineProperties.AddedIdempotent` | backend/index.js:62-67 | registering the same pair twice is the same as registering it once |
| `InlineProperties.RemovedUndoesAdded` | backend/index.js:62-78 | disconnecting a socket that no user held, right after registering it, restores the Map exactly, key order included |
| `InlineProperties.RemovedSoleSocket` | backend/index.js:69-78 | disconnecting the only socket of a user that no other user holds drops that user from the key order and from the Map |
| `InlineProperties.AddedNewUser` | backend/index.js:63-65 | a new user is appended to the key order with a Set holding only its socket |
| `InlineProperties.CallUserRouting` | backend/index.js:109-128 | a call whose log line meets a value it cannot convert throws and sends nothing; otherwise a call to an online user reaches each of its sockets exactly once with `incoming-call` and reaches nothing else, and a call to an offline user sends exactly one `user-offline{toUserId}` to the caller |
| `InlineProperties.SendMessageDeliveredTwice` | backend/index.js:131-192 | a valid message whose sender and recipient can be converted reaches every socket of the recipient exactly twice and nothing else; one that cannot throws and sends nothing, and the second listener never runs; an invalid message, or one to an offline user, sends nothing |
| `InlineProperties.EndCallEchoesToSender` | backend/index.js:174-184 | without `toUserId` or `roomId` nothing is sent; an unconvertible `toUserId` throws before sending; otherwise each socket of the other user gets exactly one `call_ended{roomId}`, and the sender gets one more, the last one, unless `roomId` cannot be converted, which throws instead; an offline user leaves only the echo |
| `InlineProperties.AnswerRelayed` | backend/index.js:151-161 | `accept-call` and `reject-call` never throw and never change the Map; to a truthy `toSocketId` they send exactly `call-accepted{fromSocket: sender, roomId}` or `call-rejected{fromSocket: sender}`, and nothing otherwise |
| `InlineProperties.SignalRelayed` | backend/index.js:164-172 | offer, answer and ICE candidate throw exactly on a nullish argument; otherwise they send one event with exactly `fromSocket` and the one negotiation field to `toSocketId` |
| `InlineProperties.RegisteredNewUser` | backend/index.js:96-102 | registering a string id that has no entry appends a key holding only the sender |
| `InlineProperties.UnconvertibleIdRegistersNothing` | backend/index.js:96-102 | `register` with a `userId` that `String()` cannot convert throws, stores nothing and sends nothing |
| `InlineProperties.TwoUsersRegistered` | backend/index.js:96-102 | two registrations of distinct users give a Map with those two keys, in that order, one socket each |
| `InlineProperties.DisconnectStopsAtFirstOwner` | backend/index.js:69-78 | a socket registered under two users is, after its disconnect, still held by the second user |
| `InlineProperties.NumericIdStoredAsString` | backend/index.js:99-101 | `{userId: 42}` is stored under `"42"`, so a call to `"42"` finds the user and a call to the number `42` does not |
| `InlineProperties.RegisteredThroughStep` | backend/index.js:96-102 | registering bob on c1 and then carol on c2, through the listener, gives the two-user Map |
| `InlineProperties.CallScenarioRing` | backend/index.js:109-128 | bob calls carol: carol's one socket receives `incoming-call`, naming bob as the caller |
| `InlineProperties.CallScenarioAccept` | backend/index.js:151-155 | carol accepts: bob's socket receives `call-accepted{fromSocket: c2, roomId}` |
| `InlineProperties.CallScenarioHangUp` | backend/index.js:174-184 | carol ends the call: bob's socket and carol's own socket both receive `call_ended{roomId}` |
| `InlineProperties.CallToUnregisteredUser` | backend/index.js:121-127 | a call to a user nobody registered yields exactly one `user-offline` to the caller |
| `AttachedSignaling.Added` | backend/routes/callSignaling.js:13-17 | the inverse entry is overwritten with the user; the user's Set becomes its old members plus the socket; every other user's Set is untouched; registering a truthy id keeps well-formedness |
| `AttachedSignaling.SocketsOf` | backend/routes/callSignaling.js:31 | on a well-formed registry `userToSockets.get(userId)` is a duplicate-free Set, non-empty exactly when the id is a key |
| `AttachedSignaling.OwnerOf` | backend/routes/callSignaling.js:55 | on a well-formed registry the looked-up owner is truthy exactly when the socket has an inverse entry; on a consistent one that owner's Set holds the socket |
| `AttachedSignaling.Removed` | backend/routes/callSignaling.js:19-28 | a socket without a truthy owner changes nothing; else its inverse entry goes and the owner's Set loses it; an owner whose Set empties is pruned; other users are untouched; well-formedness is kept; on a well-formed registry, consistent or not, the socket has no inverse entry afterwards |
| `AttachedSignaling.EmitTo` | backend/routes/callSignaling.js:30-40 | the emissions are exactly the fan-out over the user's Set, none for an offline user; it throws exactly when the user has no socket and the offline log line cannot convert the id |
| `AttachedSignaling.Registered` | backend/routes/callSignaling.js:46-51 | a nullish argument throws with nothing done; a falsy id does nothing; otherwise the registry becomes `Added` of the old one, the socket is owned by the id and in its Set, `registered{socketId}` goes to the sender, and the log line after that throws exactly when it cannot convert the id |
| `AttachedSignaling.IncomingCall` | backend/routes/callSignaling.js:58-63 | the payload has exactly `fromUser` (the caller's looked-up owner), `fromSocket` (the caller's socket), `roomId` and `callType` |
| `AttachedSignaling.CallUser` | backend/routes/callSignaling.js:54-71 | throws, before sending anything, exactly on a nullish argument or when the log line cannot convert the caller's stored user id, `toUserId`, `roomId` or `callType`; otherwise it sends exactly one `user-offline{toUserId}` to the caller when the callee has no socket, and else one `incoming-call` per socket of the callee |
| `AttachedSignaling.AcceptCall` | backend/routes/callSignaling.js:74-77 | throws, before sending, exactly on a nullish argument or when the log line cannot convert `toSocketId` or `roomId`; otherwise exactly one `call-accepted` to `toSocketId`, whatever it is, whose payload is exactly the sender as `fromSocket` and the given `roomId` |
| `AttachedSignaling.RejectCall` | backend/routes/callSignaling.js:80-83 | throws, before sending, exactly on a nullish argument or when the log line cannot convert `toSocketId`; otherwise exactly one `call-rejected` to `toSocketId`, whose payload is only `fromSocket`, the sender |
| `AttachedSignaling.Forwarded` | backend/routes/callSignaling.js:86-100 | throws, before sending, exactly on a nullish argument or, for `offer` and `answer` (`ice-candidate` logs nothing), when the log line cannot convert `toSocketId`; otherwise one emission of the event to `toSocketId`, passing the signalling field on unchanged and naming the sender as `fromSocket` |
| `AttachedSignaling.EndCall` | backend/routes/callSignaling.js:103-108 | a nullish argument throws with nothing sent; otherwise `call-ended{fromSocket}` goes to `toSocketId` exactly when it is truthy, and nothing else is sent; the log line after it throws exactly when it cannot convert `toSocketId` |
| `AttachedSignaling.Step` | backend/routes/callSignaling.js:42-115 | only `register` and `disconnect` change the registry, well-formedness is kept, and a disconnect emits nothing; a throw needs a nullish argument, a field that cannot be converted to a string, or, for `call-user`, a caller whose stored user id cannot be |
| `AttachedSignaling.Signaling.constructor` | backend/routes/callSignaling.js:9-11 | both Maps start empty and nothing has been emitted |
| `AttachedSignaling.Signaling.AddUserSocket` | backend/routes/callSignaling.js:13-17 | the new Maps are `Added` of the old ones, and `Valid` is kept for a truthy id, the only kind `register` passes (line 47) |
| `AttachedSignaling.Signaling.RemoveSocket` | backend/routes/callSignaling.js:19-28 | the new Maps are `Removed` of the old ones |
| `AttachedSignaling.Signaling.EmitToUser` | backend/routes/callSignaling.js:30-40 | returns `sent` true exactly when the user has a socket, and `threw` exactly when `EmitTo` throws; appends exactly the fan-out over the user's Set; leaves the Maps unchanged |
| `AttachedSignaling.Signaling.OnRegister` | backend/routes/callSignaling.js:46-51 | throws, changes the Maps and emits exactly as `Registered` does |
| `AttachedSignaling.Signaling.OnCallUser` | backend/routes/callSignaling.js:54-71 | throws exactly when `CallUser` does; otherwise appends the `CallUser` emissions; leaves the Maps unchanged |
| `AttachedSignaling.Signaling.OnAcceptCall` | backend/routes/callSignaling.js:74-77 | throws exactly when `AcceptCall` does and appends its emission; leaves the Maps unchanged |
| `AttachedSignaling.Signaling.OnRejectCall` | backend/routes/callSignaling.js:80-83 | throws exactly when `RejectCall` does and appends its emission; leaves the Maps unchanged |
| `AttachedSignaling.Signaling.OnForward` | backend/routes/callSignaling.js:86-100 | throws exactly when `Forwarded` does and appends its emission; leaves the Maps unchanged |
| `AttachedSignaling.Signaling.OnEndCall` | backend/routes/callSignaling.js:103-108 | throws exactly when `EndCall` does and appends its emissions, the one sent before the throw included |
| `AttachedSignaling.Signaling.OnDisconnect` | backend/routes/callSignaling.js:111-114 | the new Maps are `Removed` of the old ones |
| `AttachedSignaling.Signaling.Receive` | backend/routes/callSignaling.js:42-115 | dispatching one event changes the state exactly as `Step` says |
| `AttachedProperties.AddedIdempotent` | backend/routes/callSignaling.js:13-17 | registering the same pair twice is the same as registering it once |
| `AttachedProperties.AddedKeepsConsistent` | backend/routes/callSignaling.js:13-17 | registering a socket under a truthy user, when the socket is unregistered or already that user's, keeps the two Maps in agreement |
| `AttachedProperties.RemovedKeepsConsistent` | backend/routes/callSignaling.js:19-28 | disconnecting keeps the two Maps in agreement and leaves the socket in neither of them |
| `AttachedProperties.RemovedUndoesAdded` | backend/routes/callSignaling.js:13-28 | disconnecting an unregistered socket right after registering it under a truthy user restores both Maps exactly |
| `AttachedProperties.ReRegisterLeavesStaleEntry` | backend/routes/callSignaling.js:13-28 | registering a socket under a second user breaks the agreement; after its disconnect, the first user's Set still holds the socket, while the inverse Map and the second user's Set do not |
| `AttachedProperties.Apply` | backend/routes/callSignaling.js:46-51 | a falsy id registers nothing, and a truthy one leaves the socket in the user's Set; well-formedness is kept, and a disconnect leaves no inverse entry for the socket |
| `AttachedProperties.ApplyIsStep` | backend/routes/callSignaling.js:42-115 | each registry operation is what `Step` does on the `register` or `disconnect` event |
| `AttachedProperties.RunKeepsConsistent` | backend/routes/callSignaling.js:13-28 | along any sequence of registrations and disconnects that never moves a live socket to another user, the two Maps stay in agreement |
| `AttachedProperties.RunKeepsWellFormed` | backend/routes/callSignaling.js:13-28 | along any sequence of registrations and disconnects, re-registrations included, Sets stay non-empty and duplicate-free and stored user ids stay truthy |
| `AttachedProperties.CallUserRouting` | backend/routes/callSignaling.js:54-71 | the caller is named by the user its socket registered as; a call whose log line meets a value it cannot convert throws and sends nothing; otherwise a call to an online user reaches each of its sockets exactly once and nothing else, and to an offline user it sends exactly one `user-offline{toUserId}` |
| `AttachedProperties.AnswerRelayed` | backend/routes/callSignaling.js:74-83 | `accept-call` and `reject-call` never change the Maps; they throw and send nothing exactly on a nullish argument or a `toSocketId` (for `accept-call`, also a `roomId`) the log line cannot convert; otherwise they send exactly one event, `call-accepted{fromSocket, roomId}` or `call-rejected{fromSocket}`, to whatever `toSocketId` names |
| `AttachedProperties.SignalRelayed` | backend/routes/callSignaling.js:86-100 | offer, answer and ICE candidate never change the Maps; they throw and send nothing exactly on a nullish argument or, for offer and answer, a `toSocketId` the log line cannot convert; otherwise they send one event with exactly `fromSocket` and the one negotiation field to `toSocketId` |
| `AttachedProperties.EndCallNotEchoed` | backend/routes/callSignaling.js:103-108 | `end_call` never changes the Maps, sends one `call-ended{fromSocket}` to a truthy `toSocketId`, nothing otherwise and nothing to the sender, and throws after sending exactly when the log line cannot convert `toSocketId` |
| `AttachedProperties.UnconvertibleIdSilencesCaller` | backend/routes/callSignaling.js:46-56 | `register` with a truthy `userId` that the log line cannot convert still stores the socket and acknowledges it, then throws; after that, every `call-user` from that socket throws before ringing anyone |
| `AttachedProperties.TwoUsersRegistered` | backend/routes/callSignaling.js:46-51 | two registrations of distinct truthy users on distinct sockets give two agreeing Maps, one socket each |
| `AttachedProperties.CallRings` | backend/routes/callSignaling.js:54-71 | bob calls carol: when the caller id, the callee id and the room can be converted, carol's one socket, and nothing else, receives `incoming-call` with `fromUser` bob and `fromSocket` c1; otherwise the call throws and sends nothing |
| `AttachedProperties.CallAccepted` | backend/routes/callSignaling.js:74-77 | carol accepts: bob's socket, and nothing else, receives `call-accepted{fromSocket: c2, roomId}`, unless the room cannot be converted, in which case the event throws and sends nothing |
| `AttachedProperties.CallAfterCalleeLeft` | backend/routes/callSignaling.js:19-71 | after carol's only socket disconnects, carol is unreachable and bob stays registered; a call to carol then sends exactly one `user-offline` back to bob, or, when a user id cannot be converted, throws and sends nothing |

## Left out

- The Socket.IO transport is left out: connecting, delivering to a room, and what happens to
  an emission to an unknown, undefined or array target. The model records each emission and
  says nothing about delivery.
- What the log lines print is left out. The model keeps only the `TypeError` that a log
  line throws on a value it cannot convert, where it stops the listener.
- The rest of `backend/index.js` is left out: Express set-up, REST routes, the mongoose
  models and the LiveKit token endpoint. The `backend/models` schema files and the unused
  `CallLog` import are left out too. None of these touch the registry.
- Concurrency is not modelled. Node runs each listener to completion, so the model treats
  events as a sequence of steps.
- Numbers are integers: floating point, `NaN`, `-0` and their `String()` forms are not
  modelled.
- Arrays are modelled as plain objects, so `String([..])` and array-valued `userId`s are not
  distinguished from objects.
- `Get` reads own fields of objects only. Properties of primitives, such as a string's
  `length`, and inherited properties read as `undefined`.
- `AttachedSignaling.Added` and the other members with `Value` Map keys compare keys by
  structural equality. JavaScript's `Map` compares object keys by reference, so two equal
  object ids sent in separate events are the same key here and distinct keys there. Strings,
  numbers and booleans agree.
- Neither file repairs a registry whose two Maps disagree (nothing rebuilds one Map from
  the other), so the model has no such repair either.
- An uncaught exception is not followed further. A listener that throws (`Reaction.TypeError`)
  is not caught by Socket.IO or by either file, so Node would end the process and every
  connection and the whole registry would be lost. The model stops the listener at the throw,
  keeps what it emitted and changed before that point, and carries on with the next event.
