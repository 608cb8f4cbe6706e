/** The array operations of Value on the map that holds an array: indices without an
    entry are holes, which read as null and count up to the highest index present. */
module JsonArray {

  lemma MaximumExists(keys: set<nat>) returns (max: nat)
    requires keys != {}
    ensures max in keys && forall k :: k in keys ==> k <= max
    decreases |keys|
  {
    max :| max in keys;
    if keys != {max} {
      var other := MaximumExists(keys - {max});
      assert forall k :: k in keys ==> k == max || k in keys - {max};
      max := if other > max then other else max;
    }
  }

  /** Value::size of an array: the highest index plus one. */
  function Size<V>(entries: map<nat, V>): (n: nat)
    ensures forall k :: k in entries ==> k < n
    ensures n > 0 ==> n - 1 in entries
  {
    if entries.Keys == {} then 0
    else
      assert exists k :: k in entries.Keys && forall j :: j in entries.Keys ==> j <= k by {
        var max := MaximumExists(entries.Keys);
      }
      var k :| k in entries.Keys && forall j :: j in entries.Keys ==> j <= k;
      k + 1
  }

  lemma SizeIs<V>(entries: map<nat, V>, n: nat)
    requires forall k :: k in entries ==> k < n
    requires n > 0 ==> n - 1 in entries
    ensures Size(entries) == n
  {
  }

  datatype Kind = NullKind | ArrayKind | OtherKind

  /** The sequence an array stands for, holes read as null. */
  function Elements<V>(entries: map<nat, V>, null_: V): (s: seq<V>)
    ensures |s| == Size(entries)
    ensures forall i :: 0 <= i < |s| ==> s[i] == if i in entries then entries[i] else null_
  {
    seq(Size(entries), i requires i >= 0 => if i in entries then entries[i] else null_)
  }

  lemma ElementsAre<V>(entries: map<nat, V>, null_: V, s: seq<V>)
    requires Size(entries) == |s|
    requires forall i :: 0 <= i < |s| ==> (if i in entries then entries[i] else null_) == s[i]
    ensures Elements(entries, null_) == s
  {
  }

  lemma Inserted<V>(entries: map<nat, V>, null_: V, before: seq<V>, index: nat, v: V)
    requires index <= |before| && Size(entries) == |before| + 1
    requires forall j :: 0 <= j < index ==> (if j in entries then entries[j] else null_) == before[j]
    requires index in entries && entries[index] == v
    requires forall j :: index < j <= |before| ==> j in entries && entries[j] == before[j - 1]
    ensures Elements(entries, null_) == before[..index] + [v] + before[index..]
  {
    ElementsAre(entries, null_, before[..index] + [v] + before[index..]);
  }

  lemma Removed<V>(entries: map<nat, V>, null_: V, before: seq<V>, index: nat)
    requires index < |before| && Size(entries) == |before| - 1
    requires forall j :: 0 <= j < index ==> (if j in entries then entries[j] else null_) == before[j]
    requires forall j :: index <= j < |before| - 1 ==> j in entries && entries[j] == before[j + 1]
    ensures Elements(entries, null_) == before[..index] + before[index + 1..]
  {
    ElementsAre(entries, null_, before[..index] + before[index + 1..]);
  }

  predicate Dense<V>(entries: map<nat, V>) {
    forall i :: 0 <= i < Size(entries) ==> i in entries
  }

  /** When removing an index acts as deletion from the sequence: it must be present, and
      removing the last element must not expose a hole. */
  predicate Removable<V>(entries: map<nat, V>, index: nat) {
    index in entries && (index + 1 < Size(entries) || index == 0 || index - 1 in entries)
  }

  class ArrayValue<V(==)> {
    const null_: V
    var kind: Kind
    var entries: map<nat, V>

    constructor (null_: V)
      ensures this.null_ == null_ && kind == NullKind && entries == map[]
    {
      this.null_ := null_;
      kind, entries := NullKind, map[];
    }

    /** Only arrays hold entries. */
    ghost predicate Valid()
      reads this
    {
      kind != ArrayKind ==> entries == map[]
    }

    ghost function Contents(): seq<V>
      reads this
    {
      Elements(entries, null_)
    }

    /** operator[] on a constant array: null where there is no entry. */
    function Read(index: nat): V
      reads this
    {
      if index in entries then entries[index] else null_
    }

    /** operator[]: creates a missing entry as null, and turns null into an array. */
    method Touch(index: nat)
      requires Valid() && kind != OtherKind
      modifies this`kind, this`entries
      ensures Valid() && kind == ArrayKind
      ensures entries == if index in old(entries) then old(entries) else old(entries)[index := null_]
    {
      kind := ArrayKind;
      if index !in entries {
        entries := entries[index := null_];
      }
    }

    /** Moving one element onto another swaps the two. */
    method MoveOnto(target: nat, source: nat)
      requires Valid() && kind != OtherKind && target != source
      modifies this`kind, this`entries
      ensures Valid() && kind == ArrayKind
      ensures entries == old(entries)[target := old(Read(source))][source := old(Read(target))]
    {
      Touch(target);
      Touch(source);
      var moved := entries[source];
      entries := entries[source := entries[target]][target := moved];
    }

    /** The loop of insert: everything from `index` on moves up by one. */
    method ShiftUp(index: nat)
      requires Valid() && kind != OtherKind && index <= |Contents()|
      modifies this`kind, this`entries
      ensures Valid() && kind != OtherKind
      ensures var n := |old(Contents())|;
        && (forall j :: 0 <= j < index ==> (j in entries <==> j in old(entries)))
        && (forall j :: 0 <= j < index && j in entries ==> entries[j] == old(entries)[j])
        && (forall j :: index < j <= n ==> j in entries && entries[j] == old(Contents())[j - 1])
        && (forall j :: j in entries ==> j <= n)
    {
      hide Size, Elements;
      ghost var before := Contents();
      var length := Size(entries);
      var i := length;
      while i > index
        invariant index <= i <= length && Valid() && kind != OtherKind
        invariant forall j :: 0 <= j < i ==> (j in entries <==> j in old(entries))
        invariant forall j :: 0 <= j < i && j in entries ==> entries[j] == old(entries)[j]
        invariant forall j :: i < j <= length ==> j in entries && entries[j] == before[j - 1]
        invariant forall j :: j in entries ==> j <= length
      {
        assert Read(i - 1) == before[i - 1];
        MoveOnto(i, i - 1);
        i := i - 1;
      }
    }

    /** insert on null or an array: sequence insertion, refused beyond the end. */
    method Insert(index: nat, newValue: V) returns (ok: bool)
      requires Valid() && kind != OtherKind
      modifies this`kind, this`entries
      ensures Valid() && ok == (index <= |old(Contents())|)
      ensures ok ==> kind == ArrayKind
      ensures ok ==> Contents() == old(Contents())[..index] + [newValue] + old(Contents())[index..]
      ensures ok ==> forall j :: index <= j <= |old(Contents())| ==> j in entries
      ensures ok ==> forall j :: 0 <= j < index ==> (j in entries <==> j in old(entries))
      ensures !ok ==> kind == old(kind) && entries == old(entries)
      ensures old(Dense(entries)) ==> Dense(entries)
    {
      hide Size, Elements;
      ghost var before := Contents();
      var length := Size(entries);
      if index > length {
        return false;
      }
      ShiftUp(index);
      Touch(index);
      entries := entries[index := newValue];
      SizeIs(entries, length + 1);
      Inserted(entries, null_, before, index, newValue);
      return true;
    }

    /** Copying an element to the index below creates it first if it is a hole. */
    method CopyDown(index: nat)
      requires Valid() && kind == ArrayKind
      modifies this`kind, this`entries
      ensures Valid() && kind == ArrayKind
      ensures entries == old(entries)[index + 1 := old(Read(index + 1))][index := old(Read(index + 1))]
    {
      Touch(index + 1);
      entries := entries[index := entries[index + 1]];
    }

    /** The loop of removeIndex: everything behind `index` moves down by one. */
    method ShiftDown(index: nat)
      requires Valid() && kind == ArrayKind && index in entries
      modifies this`kind, this`entries
      ensures Valid() && kind == ArrayKind
      ensures forall j :: 0 <= j < index ==> (j in entries <==> j in old(entries))
      ensures forall j :: 0 <= j < index && j in entries ==> entries[j] == old(entries)[j]
      ensures forall j :: index <= j < |old(Contents())| - 1 ==> j in entries && entries[j] == old(Contents())[j + 1]
      ensures |old(Contents())| - 1 in entries && forall j :: j in entries ==> j < |old(Contents())|
    {
      hide Size, Elements;
      ghost var before := Contents();
      var oldSize := Size(entries);
      var i := index;
      while i < oldSize - 1
        invariant index <= i <= oldSize - 1 && Valid() && kind == ArrayKind
        invariant forall j :: 0 <= j < index ==> (j in entries <==> j in old(entries))
        invariant forall j :: 0 <= j < index && j in entries ==> entries[j] == old(entries)[j]
        invariant forall j :: index <= j < i ==> j in entries && entries[j] == before[j + 1]
        invariant forall j :: i < j < oldSize ==> Read(j) == before[j]
        invariant oldSize - 1 in entries && forall j :: j in entries ==> j < oldSize
      {
        assert Read(i + 1) == before[i + 1];
        CopyDown(i);
        i := i + 1;
      }
    }

    /** removeIndex: the removed element, and deletion from the sequence exactly when
        that does not expose a hole at the end. */
    method RemoveIndex(index: nat) returns (ok: bool, removed: V)
      requires Valid()
      modifies this`kind, this`entries
      ensures Valid() && kind == old(kind) && ok == (index in old(entries))
      ensures !ok ==> entries == old(entries)
      ensures ok ==> removed == old(Contents())[index]
      ensures ok ==> (old(Removable(entries, index))
                      <==> Contents() == old(Contents())[..index] + old(Contents())[index + 1..])
      ensures old(Dense(entries)) ==> Dense(entries)
    {
      hide Size, Elements;
      ghost var before := Contents();
      removed := null_;
      if kind != ArrayKind || index !in entries {
        return false, removed;
      }
      removed := entries[index];
      var oldSize := Size(entries);
      ShiftDown(index);
      entries := map k | k in entries && k != oldSize - 1 :: entries[k];
      if old(Removable(entries, index)) {
        SizeIs(entries, oldSize - 1);
        Removed(entries, null_, before, index);
      } else {
        assert oldSize - 2 !in entries;
      }
      return true, removed;
    }
  }

  /** An insertion undone by the removal at the same index. */
  method InsertThenRemove<V(==)>(a: ArrayValue<V>, index: nat, v: V) returns (removed: V)
    requires a.Valid() && a.kind != OtherKind && index <= |a.Contents()|
    modifies a
    ensures a.Contents() == old(a.Contents()) && removed == v
  {
    var ok := a.Insert(index, v);
    assert |a.Contents()| == |old(a.Contents())| + 1;
    assert Removable(a.entries, index);
    var _, r := a.RemoveIndex(index);
    removed := r;
    ghost var before := old(a.Contents());
    assert (before[..index] + [v] + before[index..])[index + 1..] == before[index..];
    assert (before[..index] + [v] + before[index..])[..index] == before[..index];
  }

  /** A removal undone by inserting the removed element at the same index. */
  method RemoveThenInsert<V(==)>(a: ArrayValue<V>, index: nat)
    requires a.Valid() && Removable(a.entries, index)
    modifies a
    ensures a.Contents() == old(a.Contents())
  {
    hide Size, Elements, Removable;
    RemovableIsIndex(a.entries, index);
    ghost var before := a.Contents();
    var _, removed := a.RemoveIndex(index);
    assert a.Contents() == before[..index] + before[index + 1..];
    var _ := a.Insert(index, removed);
    assert (before[..index] + before[index + 1..])[..index] == before[..index];
    assert (before[..index] + before[index + 1..])[index..] == before[index + 1..];
    assert before == before[..index] + [before[index]] + before[index + 1..];
  }

  lemma RemovableIsIndex<V>(entries: map<nat, V>, index: nat)
    requires Removable(entries, index)
    ensures index in entries && index < Size(entries)
  {
  }
}

/** The array map and the slots that values hold are two views of the same array. */
module JsonArraySlots {
  import opened JsonArray
  import opened JsonValue

  function SlotsOf(entries: map<nat, Value>): (slots: seq<Slot>)
    ensures |slots| == Size(entries)
    ensures forall i :: 0 <= i < |slots| ==> slots[i] == if i in entries then Item(entries[i]) else Hole
  {
    seq(Size(entries), i requires i >= 0 => if i in entries then Item(entries[i]) else Hole)
  }

  function EntriesOf(slots: seq<Slot>): (entries: map<nat, Value>) {
    map i: nat | i < |slots| && slots[i].Item? :: slots[i].v
  }

  /** No array ends in a hole, and both views determine each other: the slots of a
      well-formed array value are those of exactly one map, and hold its elements. */
  lemma ViewsAgree(entries: map<nat, Value>, slots: seq<Slot>)
    requires slots != [] ==> slots[|slots| - 1].Item?
    ensures SlotsOf(entries) != [] ==> SlotsOf(entries)[Size(entries) - 1].Item?
    ensures EntriesOf(SlotsOf(entries)) == entries && SlotsOf(EntriesOf(slots)) == slots
    ensures forall i :: 0 <= i < Size(entries) ==>
      Elements(entries, NullValue)[i] == match SlotsOf(entries)[i] case Item(v) => v case Hole => NullValue
    ensures Dense(entries) <==> forall i :: 0 <= i < |SlotsOf(entries)| ==> SlotsOf(entries)[i].Item?
  {
    hide Size;
    var back := EntriesOf(slots);
    SizeIs(back, |slots|);
    assert EntriesOf(SlotsOf(entries)) == entries;
    assert SlotsOf(back) == slots;
  }
}
