/**
 * The JSON documents that travel over the serial link, reduced to what the router
 * and the command dispatcher touch: a flat object of named scalar members, looked
 * up by key and assigned by key, and a MessagePack codec that is not modelled
 * beyond its type.
 */
module JsonDoc {
  import opened Bytes
  import opened Wrappers

  datatype Value = Null | Bool(b: bool) | Int(i: int) | Str(s: string)

  /**
   * A JSON object: its members in insertion order. Documents built by assignment hold
   * each key at most once (`SetUnique`); a decoded document may repeat a key, and a
   * lookup then finds the first member.
   */
  datatype Doc = Doc(members: seq<(string, Value)>)

  const Empty: Doc := Doc([])

  /** The keys of `ms`, in order. */
  function Keys(ms: seq<(string, Value)>): (ks: seq<string>)
    ensures |ks| == |ms|
    ensures forall i :: 0 <= i < |ks| ==> ks[i] == ms[i].0
  {
    if ms == [] then [] else [ms[0].0] + Keys(ms[1..])
  }

  /** The value stored under `key` in `ms`, if any. */
  function Lookup(ms: seq<(string, Value)>, key: string): (r: Option<Value>)
    ensures r.None? <==> key !in Keys(ms)
    ensures r.Some? ==> (key, r.value) in ms
  {
    if ms == [] then None
    else if ms[0].0 == key then Some(ms[0].1)
    else Lookup(ms[1..], key)
  }

  /** `ms` with the member `key` overwritten in place, or appended when missing. */
  function Assign(ms: seq<(string, Value)>, key: string, v: Value): (r: seq<(string, Value)>)
    ensures key in Keys(ms) ==> |r| == |ms|
    ensures key !in Keys(ms) ==> r == ms + [(key, v)]
  {
    if ms == [] then [(key, v)]
    else if ms[0].0 == key then [(key, v)] + ms[1..]
    else [ms[0]] + Assign(ms[1..], key, v)
  }

  /** Reading `doc[key]`. */
  function Get(d: Doc, key: string): Option<Value>
  {
    Lookup(d.members, key)
  }

  /** Assigning `doc[key] = v`. */
  function Set(d: Doc, key: string, v: Value): Doc
  {
    Doc(Assign(d.members, key, v))
  }

  /** Reading `doc[key] | fallback` for a string: the stored string, or `fallback` when the member is missing or not a string. */
  function StringOr(d: Doc, key: string, fallback: string): (s: string)
    ensures (exists t :: Get(d, key) == Some(Str(t))) ==> Get(d, key) == Some(Str(s))
    ensures (forall t :: Get(d, key) != Some(Str(t))) ==> s == fallback
  {
    match Get(d, key)
    case Some(Str(t)) => t
    case _ => fallback
  }

  /** After an assignment the key reads back the assigned value. */
  lemma GetSetSame(d: Doc, key: string, v: Value)
    ensures Get(Set(d, key, v), key) == Some(v)
  {
    LookupAssignSame(d.members, key, v);
  }

  lemma {:induction false} LookupAssignSame(ms: seq<(string, Value)>, key: string, v: Value)
    ensures Lookup(Assign(ms, key, v), key) == Some(v)
  {
    if ms != [] && ms[0].0 != key {
      LookupAssignSame(ms[1..], key, v);
    }
  }

  /** An assignment leaves every other key as it was. */
  lemma GetSetOther(d: Doc, key: string, v: Value, other: string)
    requires other != key
    ensures Get(Set(d, key, v), other) == Get(d, other)
  {
    LookupAssignOther(d.members, key, v, other);
  }

  lemma {:induction false} LookupAssignOther(ms: seq<(string, Value)>, key: string, v: Value, other: string)
    requires other != key
    ensures Lookup(Assign(ms, key, v), other) == Lookup(ms, other)
  {
    if ms != [] && ms[0].0 != key {
      LookupAssignOther(ms[1..], key, v, other);
      assert Assign(ms, key, v)[1..] == Assign(ms[1..], key, v);
    } else if ms != [] {
      assert Assign(ms, key, v)[1..] == ms[1..];
    }
  }

  /** An assignment adds `key` to the keys and no other key. */
  lemma KeysSet(d: Doc, key: string, v: Value)
    ensures forall k :: k in Keys(Set(d, key, v).members) <==> k == key || k in Keys(d.members)
  {
    KeysAssign(d.members, key, v);
  }

  lemma {:induction false} KeysAssign(ms: seq<(string, Value)>, key: string, v: Value)
    ensures forall k :: k in Keys(Assign(ms, key, v)) <==> k == key || k in Keys(ms)
  {
    if ms != [] && ms[0].0 != key {
      KeysAssign(ms[1..], key, v);
      assert Keys(Assign(ms, key, v)) == [ms[0].0] + Keys(Assign(ms[1..], key, v));
      assert Keys(ms) == [ms[0].0] + Keys(ms[1..]);
    } else if ms != [] {
      assert Keys(Assign(ms, key, v)) == [key] + Keys(ms[1..]);
      assert Keys(ms) == [ms[0].0] + Keys(ms[1..]);
    }
  }

  /** No key occurs twice among `ms`. */
  predicate UniqueKeys(ms: seq<(string, Value)>)
  {
    ms == [] || (ms[0].0 !in Keys(ms[1..]) && UniqueKeys(ms[1..]))
  }

  /** Assignment by key never introduces a second member with the same key. */
  lemma SetUnique(d: Doc, key: string, v: Value)
    requires UniqueKeys(d.members)
    ensures UniqueKeys(Set(d, key, v).members)
  {
    AssignUnique(d.members, key, v);
  }

  lemma {:induction false} AssignUnique(ms: seq<(string, Value)>, key: string, v: Value)
    requires UniqueKeys(ms)
    ensures UniqueKeys(Assign(ms, key, v))
  {
    if ms == [] {
      assert Keys([]) == [];
    } else if ms[0].0 == key {
      assert Assign(ms, key, v)[1..] == ms[1..];
    } else {
      AssignUnique(ms[1..], key, v);
      KeysAssign(ms[1..], key, v);
      assert Assign(ms, key, v)[1..] == Assign(ms[1..], key, v);
    }
  }

  /** With unique keys, a lookup finds whatever member the document holds for the key. */
  lemma {:induction false} LookupUnique(ms: seq<(string, Value)>, key: string, v: Value)
    requires UniqueKeys(ms) && (key, v) in ms
    ensures Lookup(ms, key) == Some(v)
  {
    if ms[0] != (key, v) {
      assert (key, v) in ms[1..];
      LookupUnique(ms[1..], key, v);
    }
  }

  /**
   * MessagePack serialisation as the firmware uses it: `encode` writes a document,
   * `decode` reads one back or fails. ArduinoJson's implementation is not part of
   * this model, so both are opaque values that callers supply.
   */
  datatype MsgPack = MsgPack(encode: Doc -> seq<byte>, decode: seq<byte> -> Option<Doc>)
}
