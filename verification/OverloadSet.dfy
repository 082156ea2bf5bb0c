/**
 `message_overload_set`, the table from (object, opcode) to handlers, and
 `message_visit`, which runs handlers on parsed messages.

 Running a handler is recorded as an event in a ghost trace.
 */
module OverloadSets {
  import opened Bytes
  import opened Chunks
  import opened MessageParsers
  import opened Wire
  import opened Wrappers

  datatype Key = Key(objectId: u32, opcode: u16)

  function KeyOf(m: ParsedMessage): Key {
    Key(m.objectId, m.opcode)
  }

  /** A type-erased handler: interprets the payload as `schema` and passes it to user code `id`. */
  datatype Overload = Overload(id: nat, schema: seq<Kind>)

  type Table = map<Key, Overload>

  datatype Event =
    | Invoked(overload: Overload, payload: seq<byte>)
    | Callback(overload: Overload, payload: seq<byte>)
    | Defaulted(message: ParsedMessage)

  // ---------- The hash of a key ----------

  function PackedKey(key: Key): nat {
    key.objectId + 0x1_0000_0000 * key.opcode
  }

  /** `key_t_hash::operator()`, up to the final `std::hash`. */
  method KeyHash(key: Key) returns (combined: nat)
    ensures combined == key.objectId + 0x1_0000_0000 * key.opcode == PackedKey(key)
  {
    var bytes := Uninitialized(8);
    bytes := Overwrite(bytes, 0, LE32(key.objectId));
    bytes := Overwrite(bytes, 4, LE16(key.opcode));
    bytes := Overwrite(bytes, 6, [0, 0]);
    PackedBytes(key, bytes);
    combined := FromLE(bytes);
  }

  lemma PackedBytes(key: Key, bytes: seq<byte>)
    requires bytes == LE32(key.objectId) + LE16(key.opcode) + [0, 0]
    ensures FromLE(bytes) == PackedKey(key)
  {
    hide LE32, LE16, ToLE;
    FromLEConcat(LE32(key.objectId) + LE16(key.opcode), [0, 0]);
    FromLEConcat(LE32(key.objectId), LE16(key.opcode));
    assert Pow256(4) == 0x1_0000_0000;
    assert FromLE([0, 0]) == 0 by {
      assert [0, 0][1..] == [0];
    }
  }

  /** Different keys are packed into different words. */
  lemma PackedKeyInjective(k: Key, l: Key)
    ensures PackedKey(k) == PackedKey(l) <==> k == l
  {
    if PackedKey(k) == PackedKey(l) {
      assert PackedKey(k) / 0x1_0000_0000 == k.opcode;
      assert PackedKey(l) / 0x1_0000_0000 == l.opcode;
    }
  }

  // ---------- Registration ----------

  datatype Registration = Registration(key: Key, overload: Overload)

  function Register(t: Table, r: Registration): Table {
    if r.key in t then t else t[r.key := r.overload]
  }

  /** The table after a sequence of `add_overload` calls, the failing ones included. */
  function RegisterAll(t: Table, rs: seq<Registration>): Table
    decreases |rs|
  {
    if rs == [] then t else RegisterAll(Register(t, rs[0]), rs[1..])
  }

  function Registers(k: Key): Registration -> bool {
    (r: Registration) => r.key == k
  }

  /** The index of the first registration for `k`, or the length of the list. */
  function FirstFor(rs: seq<Registration>, k: Key): nat {
    FirstIndex(rs, Registers(k))
  }

  lemma {:induction false} RegisterAllFrom(t: Table, rs: seq<Registration>, k: Key)
    ensures
      var after := RegisterAll(t, rs);
      if k in t then k in after && after[k] == t[k]
      else if FirstFor(rs, k) < |rs| then k in after && after[k] == rs[FirstFor(rs, k)].overload
      else k !in after
    decreases |rs|
  {
    if rs != [] {
      RegisterAllFrom(Register(t, rs[0]), rs[1..], k);
    }
  }

  /** Any sequence of calls leaves the partial map in which the first registration of a key wins. */
  lemma FirstRegistrationWins(rs: seq<Registration>, k: Key)
    ensures k in RegisterAll(map[], rs) <==> exists i :: 0 <= i < |rs| && rs[i].key == k
    ensures k in RegisterAll(map[], rs) ==> RegisterAll(map[], rs)[k] == rs[FirstFor(rs, k)].overload
  {
    RegisterAllFrom(map[], rs, k);
  }

  // ---------- Dispatch ----------

  /** What `until` does with a message that is not its target: nothing without an overload. */
  function DispatchOne(t: Table): ParsedMessage -> seq<Event> {
    m => if KeyOf(m) in t then [Invoked(t[KeyOf(m)], m.arguments)] else []
  }

  /** The object and the opcode of a message select its handler, which gets the payload. */
  lemma DispatchMore(t: Table, ms: seq<ParsedMessage>, m: ParsedMessage)
    ensures Dispatch(t, []) == []
    ensures
      var key := Key(m.objectId, m.opcode);
      Dispatch(t, ms + [m]) == if key in t then Dispatch(t, ms) + [Invoked(t[key], m.arguments)] else Dispatch(t, ms)
  {
    FlatMapSnoc(ms, m, DispatchOne(t));
  }

  function Dispatch(t: Table, ms: seq<ParsedMessage>): seq<Event> {
    FlatMap(ms, DispatchOne(t))
  }

  /** What `message_visit` does with a message. */
  function VisitOne(t: Table): ParsedMessage -> seq<Event> {
    m => if KeyOf(m) in t then [Invoked(t[KeyOf(m)], m.arguments)] else [Defaulted(m)]
  }

  function Visit(t: Table, ms: seq<ParsedMessage>): seq<Event> {
    FlatMap(ms, VisitOne(t))
  }

  /** A trace as seen when the default overload does nothing. */
  function WithoutDefaults(events: seq<Event>): seq<Event> {
    if events == [] then []
    else (if events[0].Defaulted? then [] else [events[0]]) + WithoutDefaults(events[1..])
  }

  lemma {:induction false} DispatchIsVisitWithoutDefaults(t: Table, ms: seq<ParsedMessage>)
    ensures Dispatch(t, ms) == WithoutDefaults(Visit(t, ms))
    ensures |Visit(t, ms)| == |ms|
  {
    if ms != [] {
      DispatchIsVisitWithoutDefaults(t, ms[1..]);
      var first := VisitOne(t)(ms[0])[0];
      assert Visit(t, ms) == [first] + Visit(t, ms[1..]);
      assert Visit(t, ms)[1..] == Visit(t, ms[1..]);
      assert Dispatch(t, ms) == DispatchOne(t)(ms[0]) + Dispatch(t, ms[1..]);
    }
  }

  class MessageOverloadSet {
    var overloads: Table

    /** Every handler run through this set, in order. */
    ghost var trace: seq<Event>

    constructor ()
      ensures overloads == map[] && trace == []
    {
      overloads, trace := map[], [];
    }

    /** Returns false where the original throws because the key is taken. */
    method AddOverload(r: Registration) returns (insertOk: bool)
      modifies this`overloads
      ensures insertOk <==> r.key !in old(overloads)
      ensures overloads == Register(old(overloads), r)
      ensures !insertOk ==> overloads == old(overloads)
    {
      insertOk := r.key !in overloads;
      if insertOk {
        overloads := overloads[r.key := r.overload];
      }
    }

    method OverloadResolution(key: Key) returns (r: Option<Overload>)
      ensures r == if key in overloads then Some(overloads[key]) else None
    {
      if key in overloads {
        r := Some(overloads[key]);
      } else {
        r := None;
      }
    }

    method Invoke(overload: Overload, payload: seq<byte>)
      modifies this`trace
      ensures trace == old(trace) + [Invoked(overload, payload)]
    {
      trace := trace + [Invoked(overload, payload)];
    }

    /** `message_visit` of one message. */
    method MessageVisit(m: ParsedMessage)
      modifies this`trace
      ensures trace == old(trace) + VisitOne(overloads)(m)
      ensures
        var key := Key(m.objectId, m.opcode);
        trace == old(trace) + [if key in overloads then Invoked(overloads[key], m.arguments) else Defaulted(m)]
    {
      var resolution := OverloadResolution(KeyOf(m));
      match resolution
      case Some(overload) => Invoke(overload, m.arguments);
      case None => trace := trace + [Defaulted(m)];
    }

    /** `message_visit` of a range. */
    method MessageVisitRange(ms: seq<ParsedMessage>)
      modifies this`trace
      ensures trace == old(trace) + Visit(overloads, ms)
      ensures |trace| == |old(trace)| + |ms| && trace[..|old(trace)|] == old(trace)
      ensures forall i :: 0 <= i < |ms| ==>
                            var key := Key(ms[i].objectId, ms[i].opcode);
                            trace[|old(trace)| + i] ==
                            if key in overloads then Invoked(overloads[key], ms[i].arguments) else Defaulted(ms[i])
    {
      assert ms[..0] == [];
      for i := 0 to |ms|
        invariant trace == old(trace) + Visit(overloads, ms[..i])
        invariant |trace| == |old(trace)| + i && trace[..|old(trace)|] == old(trace)
        invariant forall j :: 0 <= j < i ==>
                                var key := Key(ms[j].objectId, ms[j].opcode);
                                trace[|old(trace)| + j] ==
                                if key in overloads then Invoked(overloads[key], ms[j].arguments) else Defaulted(ms[j])
      {
        MessageVisit(ms[i]);
        assert ms[..i + 1] == ms[..i] + [ms[i]];
        FlatMapSnoc(ms[..i], ms[i], VisitOne(overloads));
        Associative(old(trace), Visit(overloads, ms[..i]), VisitOne(overloads)(ms[i]));
      }
      assert ms[..|ms|] == ms;
    }
  }
}
