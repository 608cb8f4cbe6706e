/** The tree of JSON values: an array is a map from indices to values, so it may have
    holes; an object is a map from keys to values, kept in key order. */
module JsonValue {
  import opened Bytes
  import opened JsonNumber
  import Utf8

  datatype Double = Finite(r: real) | NaN | PositiveInfinity | NegativeInfinity

  datatype Value =
    | NullValue
    | IntValue(i: int)
    | UIntValue(u: nat)
    | RealValue(d: Double)
    | StringValue(s: Text)
    | BoolValue(b: bool)
    | ArrayValue(slots: seq<Slot>)
    | ObjectValue(members: seq<Member>)

  /** One index below an array's size: present, or missing from the map. */
  datatype Slot = Hole | Item(v: Value)

  datatype Member = Member(key: Text, val: Value)

  // ----- objects as sorted maps -----

  predicate Sorted(ms: seq<Member>) {
    forall i, j :: 0 <= i < j < |ms| ==> KeyLess(ms[i].key, ms[j].key)
  }

  predicate HasKey(ms: seq<Member>, key: Text) {
    exists k :: 0 <= k < |ms| && ms[k].key == key
  }

  /** The member's value; null when there is none, as operator[] creates it. */
  function ValueOf(ms: seq<Member>, key: Text): Value {
    if ms == [] then NullValue
    else if ms[0].key == key then ms[0].val
    else ValueOf(ms[1..], key)
  }

  /** Sets the member `key`, inserting it at its place in the order when missing. */
  function Put(ms: seq<Member>, key: Text, v: Value): seq<Member> {
    if ms == [] || KeyLess(key, ms[0].key) then [Member(key, v)] + ms
    else if ms[0].key == key then [Member(key, v)] + ms[1..]
    else [ms[0]] + Put(ms[1..], key, v)
  }

  lemma SortedTail(ms: seq<Member>)
    requires ms != [] && Sorted(ms)
    ensures Sorted(ms[1..])
    ensures forall k :: 0 <= k < |ms[1..]| ==> KeyLess(ms[0].key, ms[1..][k].key)
  {
  }

  lemma SortedCons(m: Member, ms: seq<Member>)
    requires Sorted(ms) && (forall k :: 0 <= k < |ms| ==> KeyLess(m.key, ms[k].key))
    ensures Sorted([m] + ms)
  {
  }

  /** Put is map update: the order is kept, and each key of the result is the new key
      or an old one, with its value. */
  lemma {:induction false} PutIsUpdate(ms: seq<Member>, key: Text, v: Value)
    requires Sorted(ms)
    ensures Sorted(Put(ms, key, v))
    ensures Member(key, v) in Put(ms, key, v)
    ensures forall m :: m in Put(ms, key, v) <==> m == Member(key, v) || (m in ms && m.key != key)
  {
    if ms == [] {
    } else if KeyLess(key, ms[0].key) {
      forall k | 0 <= k < |ms|
        ensures KeyLess(key, ms[k].key)
      {
        if k > 0 {
          KeyLessTransitive(key, ms[0].key, ms[k].key);
        }
      }
      SortedCons(Member(key, v), ms);
      forall m | m in ms
        ensures m.key != key
      {
        KeyLessTotal(key, m.key);
      }
    } else {
      SortedTail(ms);
      KeyLessTotal(key, ms[0].key);
      if ms[0].key == key {
        SortedCons(Member(key, v), ms[1..]);
        forall m | m in ms[1..]
          ensures m.key != key
        {
          KeyLessTotal(key, m.key);
        }
        assert ms == [ms[0]] + ms[1..];
      } else {
        PutIsUpdate(ms[1..], key, v);
        var rest := Put(ms[1..], key, v);
        forall k | 0 <= k < |rest|
          ensures KeyLess(ms[0].key, rest[k].key)
        {
          assert rest[k] in rest;
        }
        SortedCons(ms[0], rest);
        assert ms == [ms[0]] + ms[1..];
      }
    }
  }

  /** A key beyond all others goes to the end. */
  lemma {:induction false} PutLast(ms: seq<Member>, key: Text, v: Value)
    requires forall k :: 0 <= k < |ms| ==> KeyLess(ms[k].key, key)
    ensures Put(ms, key, v) == ms + [Member(key, v)]
  {
    if ms != [] {
      KeyLessTotal(key, ms[0].key);
      PutLast(ms[1..], key, v);
      assert ms == [ms[0]] + ms[1..];
    }
  }

  lemma {:induction false} PutTwice(ms: seq<Member>, key: Text, v: Value, w: Value)
    ensures Put(Put(ms, key, v), key, w) == Put(ms, key, w)
  {
    if ms == [] || KeyLess(key, ms[0].key) {
      KeyLessTotal(key, key);
      assert Put(ms, key, v)[1..] == ms;
    } else if ms[0].key == key {
      assert Put(ms, key, v)[1..] == ms[1..];
    } else {
      PutTwice(ms[1..], key, v, w);
      assert Put(ms, key, v)[1..] == Put(ms[1..], key, v);
    }
  }

  // ----- what the type can hold, and what the theorems assume -----

  /** The shapes a Value can have: 64-bit integers, an array whose highest index is
      present, keys in strict order. */
  predicate WellFormed(v: Value) {
    match v
    case IntValue(i) => MIN_LARGEST_INT <= i <= MAX_LARGEST_INT
    case UIntValue(u) => u <= MAX_LARGEST_UINT
    case ArrayValue(slots) =>
      && (slots != [] ==> slots[|slots| - 1].Item?)
      && forall k :: 0 <= k < |slots| && slots[k].Item? ==> WellFormed(slots[k].v)
    case ObjectValue(members) =>
      Sorted(members) && forall k :: 0 <= k < |members| ==> WellFormed(members[k].val)
    case _ => true
  }

  predicate NoReals(v: Value) {
    match v
    case RealValue(_) => false
    case ArrayValue(slots) => forall k :: 0 <= k < |slots| && slots[k].Item? ==> NoReals(slots[k].v)
    case ObjectValue(members) => forall k :: 0 <= k < |members| ==> NoReals(members[k].val)
    case _ => true
  }

  const KEY_LIMIT := 0x4000_0000 // 1U << 30, in readObject

  /** Nesting at most `levels`, and every key short enough for the reader once the
      printer has repaired it. */
  predicate Fits(v: Value, levels: int) {
    levels > 0 &&
    match v
    case ArrayValue(slots) =>
      forall k :: 0 <= k < |slots| ==>
        if slots[k].Hole? then levels > 1 else Fits(slots[k].v, levels - 1)
    case ObjectValue(members) =>
      forall k :: 0 <= k < |members| ==>
        |Utf8.Repair(members[k].key)| < KEY_LIMIT && Fits(members[k].val, levels - 1)
    case _ => true
  }

  // ----- the value a printed text denotes -----

  /** What is left of a value once it has been printed and read: unsigned integers that
      fit become signed, texts are repaired to well-formed UTF-8, holes become nulls. */
  function Canonical(v: Value): Value
    decreases v, 0
  {
    match v
    case UIntValue(u) => if u <= MAX_LARGEST_INT then IntValue(u) else v
    case StringValue(s) => StringValue(Utf8.Repair(s))
    case ArrayValue(slots) => ArrayValue(CanonicalSlots(slots))
    case ObjectValue(members) => ObjectValue(CanonicalMembers(members, []))
    case _ => v
  }

  function CanonicalSlot(s: Slot): Slot
    decreases s
  {
    match s
    case Hole => Item(NullValue)
    case Item(v) => Item(Canonical(v))
  }

  function CanonicalSlots(slots: seq<Slot>): seq<Slot>
    decreases slots, 1
  {
    if slots == [] then [] else [CanonicalSlot(slots[0])] + CanonicalSlots(slots[1..])
  }

  /** Members in printing order; keys that become equal overwrite each other. */
  function CanonicalMembers(ms: seq<Member>, acc: seq<Member>): seq<Member>
    decreases ms, 1
  {
    if ms == [] then acc
    else CanonicalMembers(ms[1..], Put(acc, Utf8.Repair(ms[0].key), Canonical(ms[0].val)))
  }

  /** The values that survive unchanged: no unsigned integer that would fit the signed
      type, every text and key well-formed UTF-8, no holes. */
  predicate Faithful(v: Value) {
    match v
    case UIntValue(u) => u > MAX_LARGEST_INT
    case StringValue(s) => Utf8.Valid(s)
    case ArrayValue(slots) => forall k :: 0 <= k < |slots| ==> slots[k].Item? && Faithful(slots[k].v)
    case ObjectValue(members) =>
      forall k :: 0 <= k < |members| ==> Utf8.Valid(members[k].key) && Faithful(members[k].val)
    case _ => true
  }

  lemma {:induction false} CanonicalSlotsAt(slots: seq<Slot>)
    ensures |CanonicalSlots(slots)| == |slots|
    ensures forall k :: 0 <= k < |slots| ==> CanonicalSlots(slots)[k] == CanonicalSlot(slots[k])
  {
    if slots != [] {
      CanonicalSlotsAt(slots[1..]);
    }
  }

  predicate KeysValid(ms: seq<Member>) {
    forall k :: 0 <= k < |ms| ==> Utf8.Valid(ms[k].key)
  }

  lemma PutKeysValid(ms: seq<Member>, key: Text, v: Value)
    requires Sorted(ms) && KeysValid(ms) && Utf8.Valid(key)
    ensures Sorted(Put(ms, key, v)) && KeysValid(Put(ms, key, v))
  {
    PutIsUpdate(ms, key, v);
    var result := Put(ms, key, v);
    forall k | 0 <= k < |result|
      ensures Utf8.Valid(result[k].key)
    {
      assert result[k] in result;
    }
  }

  /** Whatever the keys were, the result has well-formed keys in order. */
  lemma {:induction false} CanonicalMembersKeys(ms: seq<Member>, acc: seq<Member>)
    requires Sorted(acc) && KeysValid(acc)
    ensures Sorted(CanonicalMembers(ms, acc)) && KeysValid(CanonicalMembers(ms, acc))
  {
    if ms != [] {
      Utf8.RepairExact(ms[0].key);
      PutKeysValid(acc, Utf8.Repair(ms[0].key), Canonical(ms[0].val));
      CanonicalMembersKeys(ms[1..], Put(acc, Utf8.Repair(ms[0].key), Canonical(ms[0].val)));
    }
  }

  /** With well-formed keys nothing moves and nothing collides. */
  lemma {:induction false} CanonicalMembersInPlace(ms: seq<Member>, acc: seq<Member>)
    requires Sorted(acc + ms) && forall k :: 0 <= k < |ms| ==> Utf8.Valid(ms[k].key)
    ensures var result := CanonicalMembers(ms, acc);
      && |result| == |acc| + |ms| && result[..|acc|] == acc
      && forall k :: 0 <= k < |ms| ==> result[|acc| + k] == Member(ms[k].key, Canonical(ms[k].val))
  {
    hide Canonical, Utf8.Repair, Utf8.Valid, Put;
    if ms != [] {
      Utf8.RepairExact(ms[0].key);
      var all := acc + ms;
      forall k | 0 <= k < |acc|
        ensures KeyLess(acc[k].key, ms[0].key)
      {
        assert all[k] == acc[k] && all[|acc|] == ms[0];
      }
      var v := Canonical(ms[0].val);
      PutLast(acc, ms[0].key, v);
      var next: seq<Member> := acc + [Member(ms[0].key, v)];
      var moved: seq<Member> := next + ms[1..];
      forall i, j | 0 <= i < j < |moved|
        ensures KeyLess(moved[i].key, moved[j].key)
      {
        assert moved[i].key == all[i].key && moved[j].key == all[j].key;
      }
      CanonicalMembersInPlace(ms[1..], next);
      var result := CanonicalMembers(ms, acc);
      assert result == CanonicalMembers(ms[1..], next);
      assert result[..|acc|] == result[..|acc| + 1][..|acc|];
      forall k | 0 <= k < |ms|
        ensures result[|acc| + k] == Member(ms[k].key, Canonical(ms[k].val))
      {
        if k == 0 {
          assert result[..|acc| + 1][|acc|] == next[|acc|];
        } else {
          assert ms[1..][k - 1] == ms[k];
        }
      }
    }
  }

  /** A value survives printing and reading unchanged exactly when it is faithful. */
  lemma {:induction false} CanonicalExact(v: Value)
    requires WellFormed(v)
    ensures Canonical(v) == v <==> Faithful(v)
  {
    match v
    case StringValue(s) =>
      Utf8.RepairExact(s);
    case ArrayValue(slots) =>
      CanonicalSlotsAt(slots);
      forall k | 0 <= k < |slots|
        ensures CanonicalSlots(slots)[k] == slots[k] <==> slots[k].Item? && Faithful(slots[k].v)
      {
        if slots[k].Item? {
          CanonicalExact(slots[k].v);
        }
      }
      if CanonicalSlots(slots) == slots {
        assert forall k :: 0 <= k < |slots| ==> CanonicalSlots(slots)[k] == slots[k];
      }
    case ObjectValue(ms) =>
      CanonicalObjectExact(ms);
      forall k | 0 <= k < |ms|
        ensures Canonical(ms[k].val) == ms[k].val <==> Faithful(ms[k].val)
      {
        CanonicalExact(ms[k].val);
      }
    case _ =>
  }

  lemma CanonicalObjectExact(ms: seq<Member>)
    requires Sorted(ms)
    ensures CanonicalMembers(ms, []) == ms
       <==> KeysValid(ms) && forall k :: 0 <= k < |ms| ==> Canonical(ms[k].val) == ms[k].val
  {
    hide Utf8.Repair;
    hide Canonical, CanonicalMembers, Utf8.Valid, KeyLess, Sorted;
    CanonicalMembersKeys(ms, []);
    if KeysValid(ms) {
      assert [] + ms == ms;
      CanonicalMembersInPlace(ms, []);
      var result := CanonicalMembers(ms, []);
      forall k | 0 <= k < |ms|
        ensures result[k] == Member(ms[k].key, Canonical(ms[k].val))
      {
        assert result[0 + k] == Member(ms[k].key, Canonical(ms[k].val));
      }
      SameMembers(ms, result);
    }
  }

  lemma SameMembers(ms: seq<Member>, result: seq<Member>)
    requires |result| == |ms|
    requires forall k :: 0 <= k < |ms| ==> result[k] == Member(ms[k].key, Canonical(ms[k].val))
    ensures result == ms <==> forall k :: 0 <= k < |ms| ==> Canonical(ms[k].val) == ms[k].val
  {
    hide Canonical;
  }

  predicate Settled(v: Value) { WellFormed(v) && Faithful(v) }

  predicate MembersSettled(ms: seq<Member>) {
    Sorted(ms) && KeysValid(ms) && forall m :: m in ms ==> Settled(m.val)
  }

  /** Printing and reading settle after one round: the result is well-formed and faithful. */
  lemma {:induction false} CanonicalSettles(v: Value)
    requires WellFormed(v)
    ensures Settled(Canonical(v))
    decreases v, 0
  {
    match v
    case StringValue(s) =>
      Utf8.RepairExact(s);
    case ArrayValue(slots) =>
      CanonicalSlotsAt(slots);
      forall k | 0 <= k < |slots|
        ensures CanonicalSlots(slots)[k].Item? && Settled(CanonicalSlots(slots)[k].v)
      {
        if slots[k].Item? {
          CanonicalSettles(slots[k].v);
        }
      }
    case ObjectValue(ms) =>
      CanonicalMembersSettle(ms, []);
      var result := CanonicalMembers(ms, []);
      assert forall k :: 0 <= k < |result| ==> result[k] in result;
    case _ =>
  }

  lemma {:induction false} CanonicalMembersSettle(ms: seq<Member>, acc: seq<Member>)
    requires MembersSettled(acc) && forall k :: 0 <= k < |ms| ==> WellFormed(ms[k].val)
    ensures MembersSettled(CanonicalMembers(ms, acc))
    decreases ms, 1
  {
    if ms != [] {
      var key, v := Utf8.Repair(ms[0].key), Canonical(ms[0].val);
      Utf8.RepairExact(ms[0].key);
      CanonicalSettles(ms[0].val);
      PutKeysValid(acc, key, v);
      PutIsUpdate(acc, key, v);
      CanonicalMembersSettle(ms[1..], Put(acc, key, v));
    }
  }

  lemma CanonicalIdempotent(v: Value)
    requires WellFormed(v)
    ensures Canonical(Canonical(v)) == Canonical(v)
  {
    CanonicalSettles(v);
    CanonicalExact(Canonical(v));
  }
}
