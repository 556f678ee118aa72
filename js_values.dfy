/** JavaScript values as a Socket.IO listener receives them, the few operators the
    listeners apply to them, and the outbound emissions they produce. */
module JsValues {
  import opened OrderedSets

  /** A decoded event payload. Numbers are integers; arrays are plain objects here. */
  datatype Value =
    | Undefined
    | Null
    | Bool(b: bool)
    | Num(n: int)
    | Str(s: string)
    | Object(fields: map<string, Value>)

  /** ToBoolean: what `if (v)` and `!v` test. */
  predicate Truthy(v: Value)
    ensures Nullish(v) ==> !Truthy(v)
    ensures v.Object? ==> Truthy(v)
  {
    match v
    case Undefined => false
    case Null => false
    case Bool(b) => b
    case Num(n) => n != 0
    case Str(s) => s != ""
    case Object(_) => true
  }

  /** Reading a property of, or destructuring, one of these throws a TypeError. */
  predicate Nullish(v: Value)
    ensures Nullish(v) ==> !v.Object? && !v.Str?
  {
    v.Undefined? || v.Null?
  }

  /** `v.key` (also `const { key } = v`) on a value that is not nullish: an own field
      of an object, otherwise `undefined`. */
  function Get(v: Value, key: string): (r: Value)
    ensures r != Undefined ==> v.Object? && key in v.fields && v.fields[key] == r
    ensures !v.Object? ==> r == Undefined
  {
    if v.Object? && key in v.fields then v.fields[key] else Undefined
  }

  /** `a || b`: the first operand when it is truthy, the second otherwise. */
  function Or(a: Value, b: Value): (r: Value)
    ensures Truthy(r) <==> Truthy(a) || Truthy(b)
    ensures r == a || r == b
    ensures Truthy(a) ==> r == a
  {
    if Truthy(a) then a else b
  }

  /** `data || {}`, the guard the listeners put in front of a destructuring. */
  function OrEmpty(data: Value): (r: Value)
    ensures !Nullish(r)
    ensures forall key :: Get(r, key) == if Truthy(data) then Get(data, key) else Undefined
  {
    Or(data, Object(map[]))
  }

  /** One decimal digit. */
  function DigitChar(d: nat): char
    requires d < 10
  {
    ('0' as int + d) as char
  }

  /** The number a string of decimal digits denotes, most significant digit first. */
  function DecimalValue(s: string): nat
    requires forall i :: 0 <= i < |s| ==> '0' <= s[i] <= '9'
  {
    if s == [] then 0
    else DecimalValue(s[..|s| - 1]) * 10 + (s[|s| - 1] as int - '0' as int)
  }

  /** The decimal numeral of a natural number, most significant digit first. */
  function Decimal(n: nat): (r: string)
    ensures |r| >= 1
    ensures forall i :: 0 <= i < |r| ==> '0' <= r[i] <= '9'
    ensures (r[0] == '0') <==> n == 0
    ensures DecimalValue(r) == n
  {
    if n < 10 then [DigitChar(n)]
    else
      var init := Decimal(n / 10);
      var r := init + [DigitChar(n % 10)];
      assert r[..|r| - 1] == init;
      r
  }

  /** The values on which `String(v)` and a template literal `${v}` throw a TypeError: a
      decoded object with an own `toString` field. That field is data, not a function, and the
      inherited `valueOf` gives back the object itself, so no primitive value is found. */
  predicate StringThrows(v: Value)
    ensures StringThrows(v) ==> Truthy(v) && !v.Str?
  {
    v.Object? && "toString" in v.fields
  }

  /** An argument of which some field is such a value. */
  ghost predicate CarriesStringThrow(data: Value) {
    data.Object? && exists k :: k in data.fields && StringThrows(data.fields[k])
  }

  /** A field whose `String()` throws makes its object carry such a value. */
  lemma FieldStringThrows(data: Value, key: string)
    requires StringThrows(Get(data, key))
    ensures CarriesStringThrow(data)
  {
    assert key in data.fields && StringThrows(data.fields[key]);
  }

  /** `String(v)`, `None` where it throws. A plain object renders as "[object Object]". */
  function ToJsString(v: Value): (r: Option<string>)
    ensures r.None? <==> StringThrows(v)
    ensures r.Some? && Truthy(v) ==> r.value != ""
    ensures v.Str? ==> r == Some(v.s)
  {
    match v
    case Undefined => Some("undefined")
    case Null => Some("null")
    case Bool(b) => Some(if b then "true" else "false")
    case Num(n) => Some(if n < 0 then "-" + Decimal(-n) else Decimal(n))
    case Str(s) => Some(s)
    case Object(fields) => if "toString" in fields then None else Some("[object Object]")
  }

  /** The numeral of an integer: a minus sign exactly for negative numbers, then the
      decimal digits of its magnitude. */
  lemma NumeralShape(k: int)
    ensures k >= 0 ==> ToJsString(Num(k)) == Some(Decimal(k))
    ensures k < 0 ==> ToJsString(Num(k)) == Some("-" + Decimal(-k))
    ensures (ToJsString(Num(k)).value[0] == '-') <==> k < 0
  {
  }

  /** Distinct numeric ids give distinct `String()` keys. */
  lemma {:induction false} NumericKeysDistinct(n: int, m: int)
    requires ToJsString(Num(n)) == ToJsString(Num(m))
    ensures n == m
  {
    NumeralShape(n);
    NumeralShape(m);
    if n < 0 {
      var a, b := Decimal(-n), Decimal(-m);
      assert ("-" + a)[1..] == a && ("-" + b)[1..] == b;
      assert DecimalValue(a) == DecimalValue(b);
    } else {
      assert DecimalValue(Decimal(n)) == DecimalValue(Decimal(m));
    }
  }

  datatype Option<T> = None | Some(value: T)

  /** What one listener invocation did: `Emitted(sent)` ran to its end, `TypeError(sent)` threw
      a TypeError after emitting `sent`. Whatever a listener changed before the throw stays
      changed; the throw ends that listener and every listener after it for the same event. */
  datatype Reaction = Emitted(emissions: seq<Emission>) | TypeError(emissions: seq<Emission>) {
    function Out(): seq<Emission> {
      emissions
    }

    /** This listener, then the next listener for the same event unless this one threw. */
    function Then(next: Reaction): (r: Reaction)
      ensures r.TypeError? <==> TypeError? || next.TypeError?
      ensures TypeError? ==> r == this
      ensures Emitted? ==> r.emissions == emissions + next.emissions
    {
      if TypeError? then this
      else if next.TypeError? then TypeError(emissions + next.emissions)
      else Emitted(emissions + next.emissions)
    }
  }

  /** One `io.to(target).emit(event, payload)`; `socket.emit(event, payload)` is the same
      with the sender's own socket id as target. */
  datatype Emission = Emission(target: Value, event: string, payload: Value)

  /** The field that each WebRTC negotiation event (`offer`, `answer`, `ice-candidate`)
      carries from the sender to its peer. */
  function SignalField(event: string): string {
    if event == "ice-candidate" then "candidate" else event
  }

  /** The emissions of `for (const sId of sockets) io.to(sId).emit(event, payload)`. */
  function Fanout(sockets: seq<string>, event: string, payload: Value): (r: seq<Emission>)
    ensures |r| == |sockets|
    ensures forall i :: 0 <= i < |r| ==> r[i] == Emission(Str(sockets[i]), event, payload)
  {
    if sockets == [] then []
    else Fanout(sockets[..|sockets| - 1], event, payload) + [Emission(Str(sockets[|sockets| - 1]), event, payload)]
  }

  /** A fan-out over a Set reaches every member exactly once, with the same event and
      payload, and reaches nothing else. */
  lemma {:induction false} FanoutExactlyOnce(sockets: seq<string>, event: string, payload: Value)
    requires Distinct(sockets)
    ensures forall s :: multiset(Fanout(sockets, event, payload))[Emission(Str(s), event, payload)]
                        == if s in sockets then 1 else 0
    ensures forall e :: e in Fanout(sockets, event, payload) ==>
              e.event == event && e.payload == payload && e.target.Str? && e.target.s in sockets
  {
    if sockets != [] {
      var init := sockets[..|sockets| - 1];
      var last := sockets[|sockets| - 1];
      assert sockets == init + [last];
      assert Distinct(init);
      assert last !in init;
      FanoutExactlyOnce(init, event, payload);
      assert Fanout(sockets, event, payload) == Fanout(init, event, payload) + [Emission(Str(last), event, payload)];
      forall s ensures multiset(Fanout(sockets, event, payload))[Emission(Str(s), event, payload)]
                       == if s in sockets then 1 else 0
      {
        assert s in sockets <==> s in init || s == last;
      }
      forall e | e in Fanout(sockets, event, payload)
        ensures e.event == event && e.payload == payload && e.target.Str? && e.target.s in sockets
      {
        if e !in Fanout(init, event, payload) {
          assert e == Emission(Str(last), event, payload);
        }
      }
    }
  }
}
