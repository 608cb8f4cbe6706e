/** The archive of recordings: a bounded queue, an index of it by program, and a table
    of private copies of the data the recordings were made on. */
module Archives {
  import Content = HandlerHash
  import opened Recordings
  import opened Words

  /** A data handler with the content addRecording finds in it. */
  class DataHandler {
    const content: Content.Handler

    constructor (content: Content.Handler)
      ensures this.content == content
    {
      this.content := content;
    }

    function GetHash(): Hash {
      Content.HandlerHashOf(content)
    }

    /** The hash its clones have. */
    function CloneHash(): Hash {
      Content.HandlerHashOf(Content.CloneOf(content))
    }

    method Clone() returns (c: DataHandler)
      ensures fresh(c) && c.content == Content.CloneOf(content) && c.GetHash() == CloneHash()
    {
      c := new DataHandler(Content.CloneOf(content));
    }
  }

  type Handlers = seq<DataHandler>

  function HashesOf(handlers: Handlers): (s: seq<Hash>)
    ensures |s| == |handlers| && forall i :: 0 <= i < |s| ==> s[i] == handlers[i].GetHash()
  {
    seq(|handlers|, i requires 0 <= i < |handlers| => handlers[i].GetHash())
  }

  function CloneHashesOf(handlers: Handlers): (s: seq<Hash>)
    ensures |s| == |handlers| && forall i :: 0 <= i < |s| ==> s[i] == handlers[i].CloneHash()
  {
    seq(|handlers|, i requires 0 <= i < |handlers| => handlers[i].CloneHash())
  }

  predicate UsesHash(s: seq<Recording>, h: Hash) {
    exists i :: 0 <= i < |s| && s[i].dataHash == h
  }

  method GetCombinedHash(handlers: Handlers) returns (hash: Hash)
    ensures hash == Combined(HashesOf(handlers))
  {
    hide Xor;
    hash := 0;
    for i := 0 to |handlers|
      invariant hash == Combined(HashesOf(handlers)[..i])
    {
      assert HashesOf(handlers)[..i + 1][..i] == HashesOf(handlers)[..i];
      hash := Xor(hash, handlers[i].GetHash());
    }
    assert HashesOf(handlers)[..|handlers|] == HashesOf(handlers);
  }

  /** The index holds the recordings of every program that has one, in order. */
  ghost predicate Indexed(index: map<Program, seq<Recording>>, recordings: seq<Recording>) {
    && (forall p :: p in index <==> OfProgram(recordings, p) != [])
    && (forall p :: p in index ==> index[p] == OfProgram(recordings, p))
  }

  /** The table has an entry for exactly the hashes that occur. */
  ghost predicate Tabled(table: map<Hash, Handlers>, recordings: seq<Recording>) {
    forall h :: h in table <==> UsesHash(recordings, h)
  }

  /** `owner` gives each live copy its one place in the table. */
  ghost predicate Owned(table: map<Hash, Handlers>, owner: map<DataHandler, (Hash, nat)>) {
    && (forall h, i :: h in table && 0 <= i < |table[h]| ==>
          table[h][i] in owner && owner[table[h][i]] == (h, i))
    && (forall d :: d in owner ==>
          owner[d].0 in table && owner[d].1 < |table[owner[d].0]| && table[owner[d].0][owner[d].1] == d)
  }

  lemma IndexPush(s: seq<Recording>, r: Recording, index: map<Program, seq<Recording>>,
                  after: map<Program, seq<Recording>>)
    requires Indexed(index, s)
    requires after == index[r.prog := (if r.prog in index then index[r.prog] else []) + [r]]
    ensures Indexed(after, s + [r])
  {
    forall p
      ensures OfProgram(s + [r], p) == OfProgram(s, p) + if r.prog == p then [r] else []
    {
      OfProgramAppend(s, r, p);
    }
  }

  lemma TablePush(s: seq<Recording>, r: Recording, table: map<Hash, Handlers>, after: map<Hash, Handlers>)
    requires Tabled(table, s) && after.Keys == table.Keys + {r.dataHash}
    ensures Tabled(after, s + [r])
  {
    forall h
      ensures UsesHash(s + [r], h) <==> UsesHash(s, h) || h == r.dataHash
    {
      if h == r.dataHash {
        assert (s + [r])[|s|].dataHash == h;
      }
      if UsesHash(s, h) {
        var i :| 0 <= i < |s| && s[i].dataHash == h;
        assert (s + [r])[i].dataHash == h;
      }
    }
  }

  /** Eviction's lookups always succeed. */
  lemma EvictedPresent(s: seq<Recording>, index: map<Program, seq<Recording>>, table: map<Hash, Handlers>)
    requires Indexed(index, s) && Tabled(table, s) && s != []
    ensures s[0].dataHash in table
    ensures s[0].prog in index && index[s[0].prog] == [s[0]] + OfProgram(s[1..], s[0].prog)
  {
    assert OfProgram(s, s[0].prog) != [];
    assert UsesHash(s, s[0].dataHash);
  }

  lemma IndexPop(s: seq<Recording>, index: map<Program, seq<Recording>>, after: map<Program, seq<Recording>>)
    requires Indexed(index, s) && s != [] && s[0].prog in index
    requires var p := s[0].prog; var queue := OfProgram(s[1..], p);
      after == if queue == [] then index - {p} else index[p := queue]
    ensures Indexed(after, s[1..])
  {
    hide OfProgram;
    forall p | p != s[0].prog
      ensures OfProgram(s[1..], p) == OfProgram(s, p)
    {
      OfProgramFront(s, p);
    }
  }

  lemma TablePop(s: seq<Recording>, table: map<Hash, Handlers>, after: map<Hash, Handlers>)
    requires Tabled(table, s) && s != []
    requires after == if UsesHash(s[1..], s[0].dataHash) then table else table - {s[0].dataHash}
    ensures Tabled(after, s[1..])
  {
    forall h
      ensures UsesHash(s, h) <==> UsesHash(s[1..], h) || h == s[0].dataHash
    {
      if UsesHash(s[1..], h) {
        var i :| 0 <= i < |s[1..]| && s[1..][i].dataHash == h;
        assert s[i + 1].dataHash == h;
      }
      if UsesHash(s, h) && h != s[0].dataHash {
        var i :| 0 <= i < |s| && s[i].dataHash == h;
        assert s[1..][i - 1].dataHash == h;
      }
    }
  }

  lemma OwnedPush(table: map<Hash, Handlers>, owner: map<DataHandler, (Hash, nat)>, hash: Hash,
                  copies: Handlers, copy: DataHandler)
    requires Owned(table[hash := copies], owner) && copy !in owner
    ensures Owned(table[hash := copies + [copy]], owner[copy := (hash, |copies|)])
  {
  }

  lemma OwnedNew(table: map<Hash, Handlers>, owner: map<DataHandler, (Hash, nat)>, hash: Hash)
    requires Owned(table, owner) && hash !in table
    ensures Owned(table[hash := []], owner)
  {
    var grown := table[hash := []];
    forall h, i | h in grown && 0 <= i < |grown[h]|
      ensures grown[h][i] in owner && owner[grown[h][i]] == (h, i)
    {
      assert h in table && grown[h] == table[h];
    }
  }

  lemma OwnedDrop(table: map<Hash, Handlers>, owner: map<DataHandler, (Hash, nat)>, hash: Hash,
                  after: map<DataHandler, (Hash, nat)>)
    requires Owned(table, owner) && hash in table
    requires after == map d | d in owner && owner[d].0 != hash :: owner[d]
    ensures Owned(table - {hash}, after)
    ensures forall d :: d in owner ==> (d in after <==> d !in table[hash])
  {
    forall d | d in owner
      ensures d in after <==> d !in table[hash]
    {
      if d in table[hash] {
        var i :| 0 <= i < |table[hash]| && table[hash][i] == d;
        assert owner[d] == (hash, i);
      }
    }
  }

  lemma SomeMatched(queue: seq<Recording>, s: seq<Recording>, p: Program, results: map<Hash, real>)
    requires forall r :: r in queue <==> r in s && r.prog == p
    ensures (exists r :: r in s && r.prog == p && r.dataHash in results)
       <==> exists j :: 0 <= j < |queue| && queue[j].dataHash in results
  {
    if r :| r in s && r.prog == p && r.dataHash in results {
      assert r in queue;
    }
    if j :| 0 <= j < |queue| && queue[j].dataHash in results {
      assert queue[j] in s && queue[j].prog == p;
    }
  }

  lemma AllMatch(queue: seq<Recording>, s: seq<Recording>, p: Program, results: map<Hash, real>, tau: real)
    requires forall r :: r in queue <==> r in s && r.prog == p
    ensures (forall r :: r in s && r.prog == p ==> Matches(r, results, tau))
       <==> forall j :: 0 <= j < |queue| ==> Matches(queue[j], results, tau)
  {
    hide Matches;
    assert forall j :: 0 <= j < |queue| ==> queue[j] in queue;
  }

  /** The index is enough to decide equivalence: only the program's queue matters. */
  lemma EquivalentByQueue(s: seq<Recording>, index: map<Program, seq<Recording>>, p: Program,
                          results: map<Hash, real>, tau: real)
    requires Indexed(index, s)
    ensures p !in index ==> !Equivalent(s, p, results, tau)
    ensures p in index ==>
      (Equivalent(s, p, results, tau) <==>
       && (exists j :: 0 <= j < |index[p]| && index[p][j].dataHash in results)
       && (forall j :: 0 <= j < |index[p]| ==> Matches(index[p][j], results, tau)))
  {
    hide Matches, OfProgram;
    OfProgramMembers(s, p);
    var queue := OfProgram(s, p);
    SomeMatched(queue, s, p, results);
    AllMatch(queue, s, p, results, tau);
  }

  /** Every entry hashes back to its own key. */
  ghost predicate Faithful(table: map<Hash, Handlers>) {
    forall h :: h in table ==> Combined(HashesOf(table[h])) == h
  }

  /** The table after an addition: entries keep their copies, and only the combined hash of
      the handlers can be new, with copies of those handlers. */
  ghost predicate Updated(before: map<Hash, Handlers>, after: map<Hash, Handlers>, handlers: Handlers) {
    forall h :: h in after ==>
      if h in before then after[h] == before[h]
      else h == Combined(HashesOf(handlers)) && HashesOf(after[h]) == CloneHashesOf(handlers)
  }

  lemma UpdatedSame(table: map<Hash, Handlers>, handlers: Handlers)
    ensures Updated(table, table, handlers)
  {
  }

  lemma UpdatedShrinks(before: map<Hash, Handlers>, middle: map<Hash, Handlers>, after: map<Hash, Handlers>,
                       handlers: Handlers)
    requires Updated(before, middle, handlers)
    requires forall h :: h in after ==> h in middle && after[h] == middle[h]
    ensures Updated(before, after, handlers)
  {
  }

  lemma UpdatedFaithful(before: map<Hash, Handlers>, after: map<Hash, Handlers>, handlers: Handlers)
    requires Updated(before, after, handlers)
    ensures Faithful(before) && Combined(CloneHashesOf(handlers)) == Combined(HashesOf(handlers)) ==> Faithful(after)
  {
  }

  /** A handler whose clones have its hash: one with data, or a wrapper around a null pointer
      whose id hashes to one particular value (CloneKeepsHash). */
  predicate KeepsHash(d: DataHandler) {
    match d.content
    case Handler(_, _) => true
    case NullWrapper(id, n, size) =>
      Content.HashOf(id) == Content.StartFor(n, Content.HashOf(Content.ZeroElement(size)), 0)
  }

  /** In a set in which every handler but one keeps its hash when cloned, the copies have the
      key of the originals exactly if that one keeps its hash too. */
  lemma CopyKeepsKey(handlers: Handlers, i: nat)
    requires i < |handlers|
    requires forall j :: 0 <= j < |handlers| && j != i ==> KeepsHash(handlers[j])
    ensures Combined(CloneHashesOf(handlers)) == Combined(HashesOf(handlers)) <==> KeepsHash(handlers[i])
  {
    hide Combined, Content.HandlerHashOf, Content.HashOf, Content.StartFor;
    forall j | 0 <= j < |handlers|
      ensures handlers[j].CloneHash() == handlers[j].GetHash() <==> KeepsHash(handlers[j])
    {
      Content.CloneKeepsHash(handlers[j].content);
    }
    OneHandlerChangesKey(HashesOf(handlers), i, handlers[i].CloneHash());
    assert CloneHashesOf(handlers) == HashesOf(handlers)[i := handlers[i].CloneHash()];
  }

  class Archive {
    const maxSize: nat
    const archivingProbability: real
    var recordings: seq<Recording>
    var recordingsPerProgram: map<Program, seq<Recording>>
    var dataHandlers: map<Hash, Handlers>

    /** The copies this archive has allocated and not freed, with their places. */
    ghost var live: set<DataHandler>
    ghost var owner: map<DataHandler, (Hash, nat)>

    ghost predicate Consistent()
      reads this
    {
      && Indexed(recordingsPerProgram, recordings)
      && Tabled(dataHandlers, recordings)
      && Owned(dataHandlers, owner)
      && live == owner.Keys
    }

    ghost predicate Valid()
      reads this
    {
      Consistent() && |recordings| <= maxSize
    }

    constructor (size: nat, archivingProbability: real)
      ensures Valid() && maxSize == size && this.archivingProbability == archivingProbability
      ensures recordings == [] && dataHandlers == map[] && live == {}
    {
      maxSize, this.archivingProbability := size, archivingProbability;
      recordings, recordingsPerProgram, dataHandlers := [], map[], map[];
      live, owner := {}, map[];
    }

    /** delete: only a live copy can be freed. */
    method Delete(d: DataHandler)
      requires d in live
      modifies this`live
      ensures live == old(live) - {d}
    {
      live := live - {d};
    }

    /** Frees the copies of one table entry. */
    method DeleteEntry(h: Hash)
      requires h in dataHandlers && Owned(dataHandlers, owner)
      requires forall d :: d in owner && owner[d].0 == h ==> d in live
      modifies this`live
      ensures forall d :: d in live <==> d in old(live) && d !in dataHandlers[h]
    {
      var entry := dataHandlers[h];
      for i := 0 to |entry|
        invariant forall d :: d in live <==> d in old(live) && d !in entry[..i]
      {
        assert entry[i] !in entry[..i] by {
          forall j | 0 <= j < i
            ensures entry[j] != entry[i]
          {
            assert owner[entry[j]] == (h, j) && owner[entry[i]] == (h, i);
          }
        }
        Delete(entry[i]);
      }
      assert entry[..|entry|] == entry;
    }

    /** Copies the handlers of a hash that is new to the table. */
    method CopyHandlers(hash: Hash, handlers: Handlers)
      requires hash !in dataHandlers && Owned(dataHandlers, owner) && live == owner.Keys
      modifies this`dataHandlers, this`live, this`owner
      ensures Owned(dataHandlers, owner) && live == owner.Keys
      ensures dataHandlers.Keys == old(dataHandlers).Keys + {hash}
      ensures forall h :: h in old(dataHandlers) ==> dataHandlers[h] == old(dataHandlers)[h]
      ensures HashesOf(dataHandlers[hash]) == CloneHashesOf(handlers)
      ensures forall d :: d in live ==> d in old(live) || (d in dataHandlers[hash] && fresh(d))
    {
      hide Owned, Content.HandlerHashOf, Content.CloneOf;
      ghost var table := dataHandlers;
      var copies: Handlers := [];
      OwnedNew(table, owner, hash);
      for i := 0 to |handlers|
        invariant |copies| == i && hash !in table && table == dataHandlers
        invariant live == owner.Keys && Owned(table[hash := copies], owner)
        invariant forall j :: 0 <= j < i ==> fresh(copies[j]) && copies[j].GetHash() == handlers[j].CloneHash()
        invariant forall d :: d in live ==> d in old(live) || (d in copies && fresh(d))
      {
        assert forall d :: d in live ==> allocated(d);
        var copy := handlers[i].Clone();
        assert copy !in owner;
        OwnedPush(table, owner, hash, copies, copy);
        live, owner := live + {copy}, owner[copy := (hash, i)];
        copies := copies + [copy];
      }
      dataHandlers := dataHandlers[hash := copies];
    }

    /** The first half of addRecording: table, queue and index take the recording. */
    method Store(program: Program, handlers: Handlers, result: real)
      requires Consistent()
      modifies this
      ensures Consistent()
      ensures recordings == old(recordings) + [Recording(program, Combined(HashesOf(handlers)), result)]
      ensures Updated(old(dataHandlers), dataHandlers, handlers)
      ensures fresh(live - old(live))
    {
      hide Combined, Indexed, Tabled, Owned, OfProgram, HashesOf, CloneHashesOf;
      var hash := GetCombinedHash(handlers);
      if hash !in dataHandlers {
        CopyHandlers(hash, handlers);
      }
      var recording := Recording(program, hash, result);
      ghost var before := recordings;
      recordings := recordings + [recording];
      if program in recordingsPerProgram {
        recordingsPerProgram := recordingsPerProgram[program := recordingsPerProgram[program] + [recording]];
      } else {
        recordingsPerProgram := recordingsPerProgram[program := [recording]];
        assert [] + [recording] == [recording];
      }
      IndexPush(before, recording, old(recordingsPerProgram), recordingsPerProgram);
      TablePush(before, recording, old(dataHandlers), dataHandlers);
    }

    /** Frees the copies for a hash no recording uses any more. */
    method Release(hash: Hash)
      requires Owned(dataHandlers, owner) && live == owner.Keys && hash in dataHandlers
      modifies this`dataHandlers, this`live, this`owner
      ensures Owned(dataHandlers, owner) && live == owner.Keys && live <= old(live)
      ensures dataHandlers == old(dataHandlers) - {hash}
    {
      hide Owned;
      ghost var places := owner;
      DeleteEntry(hash);
      owner := map d | d in owner && owner[d].0 != hash :: owner[d];
      OwnedDrop(dataHandlers, places, hash, owner);
      dataHandlers := dataHandlers - {hash};
    }

    /** One round of the eviction loop. */
    method Evict()
      requires Consistent() && recordings != []
      modifies this
      ensures Consistent()
      ensures recordings == old(recordings)[1..]
      ensures forall h :: h in dataHandlers ==> h in old(dataHandlers) && dataHandlers[h] == old(dataHandlers)[h]
      ensures live <= old(live)
    {
      hide UsesHash, OfProgram, Indexed, Tabled, Owned;
      var rec := recordings[0];
      recordings := recordings[1..];
      EvictedPresent(old(recordings), recordingsPerProgram, dataHandlers);
      var stillUsed := UsesHash(recordings, rec.dataHash);
      if !stillUsed {
        Release(rec.dataHash);
      }
      TablePop(old(recordings), old(dataHandlers), dataHandlers);
      var queue := recordingsPerProgram[rec.prog][1..];
      recordingsPerProgram := recordingsPerProgram[rec.prog := queue];
      if |queue| == 0 {
        recordingsPerProgram := recordingsPerProgram - {rec.prog};
      }
      IndexPop(old(recordings), old(recordingsPerProgram), recordingsPerProgram);
    }

    /** addRecording. `draw` is the number rng would give, used only when it is drawn. */
    method AddRecording(program: Program, handlers: Handlers, result: real, forced: bool, draw: real)
      requires Valid()
      modifies this
      ensures Valid()
      ensures var r := Recording(program, Combined(HashesOf(handlers)), result);
        recordings == Step(old(recordings), Add(r, forced, draw), maxSize, archivingProbability)
      ensures forced || archivingProbability == 1.0 || draw <= archivingProbability ==>
        var grown := old(recordings) + [Recording(program, Combined(HashesOf(handlers)), result)];
        recordings == if |old(recordings)| < maxSize then grown else grown[|old(recordings)| + 1 - maxSize..]
      ensures !forced && archivingProbability != 1.0 && draw > archivingProbability ==> recordings == old(recordings)
      ensures Updated(old(dataHandlers), dataHandlers, handlers)
      ensures old(Faithful(dataHandlers)) && Combined(CloneHashesOf(handlers)) == Combined(HashesOf(handlers))
        ==> Faithful(dataHandlers)
      ensures fresh(live - old(live))
    {
      StepMeans(recordings, Recording(program, Combined(HashesOf(handlers)), result), forced, draw, maxSize,
                archivingProbability);
      hide Combined, Indexed, Tabled, Owned, HashesOf, CloneHashesOf, Updated, Faithful, Step, Push;
      UpdatedSame(dataHandlers, handlers);
      if forced || archivingProbability == 1.0 || draw <= archivingProbability {
        Store(program, handlers, result);
        while |recordings| > maxSize
          invariant Consistent()
          invariant var r := Recording(program, Combined(HashesOf(handlers)), result);
            LastN(recordings, maxSize) == Push(old(recordings), r, maxSize)
          invariant |recordings| >= |old(recordings)| || |recordings| >= maxSize
          invariant Updated(old(dataHandlers), dataHandlers, handlers)
          invariant fresh(live - old(live))
        {
          ghost var table := dataHandlers;
          Evict();
          UpdatedShrinks(old(dataHandlers), table, dataHandlers, handlers);
        }
      }
      UpdatedFaithful(old(dataHandlers), dataHandlers, handlers);
    }

    /** The freeing loops shared by clear and the destructor. */
    method FreeAll()
      requires Consistent()
      modifies this`live
      ensures live == {}
    {
      var remaining := dataHandlers.Keys;
      while remaining != {}
        invariant remaining <= dataHandlers.Keys
        invariant forall d :: d in live <==> d in owner && owner[d].0 in remaining
        decreases |remaining|
      {
        var h :| h in remaining;
        ghost var before := live;
        DeleteEntry(h);
        remaining := remaining - {h};
        OwnedDrop(dataHandlers, owner, h, map d | d in owner && owner[d].0 != h :: owner[d]);
      }
    }

    method Clear()
      requires Valid()
      modifies this
      ensures Valid() && recordings == [] && live == {}
    {
      FreeAll();
      dataHandlers, recordings, recordingsPerProgram := map[], [], map[];
      owner := map[];
    }

    /** The destructor: every copy ever made has been freed exactly once. */
    method Destroy()
      requires Valid()
      modifies this`live
      ensures live == {}
    {
      FreeAll();
    }

    method AreProgramResultsUnique(results: map<Hash, real>, tau: real) returns (unique: bool)
      requires Valid()
      ensures unique == Unique(recordings, results, tau)
      ensures unique <==> forall p :: Distinguished(recordings, p, results, tau)
    {
      forall p
        ensures Distinguished(recordings, p, results, tau) <==> !Equivalent(recordings, p, results, tau)
      {
        EquivalentIs(recordings, p, results, tau);
      }
      hide Distinguished;
      hide Indexed, Tabled, Owned, Equivalent;
      forall p | p !in recordingsPerProgram
        ensures !Equivalent(recordings, p, results, tau)
      {
        EquivalentByQueue(recordings, recordingsPerProgram, p, results, tau);
      }
      var remaining := recordingsPerProgram.Keys;
      while remaining != {}
        invariant remaining <= recordingsPerProgram.Keys
        invariant forall p :: p !in remaining ==> !Equivalent(recordings, p, results, tau)
        decreases |remaining|
      {
        var p :| p in remaining;
        var isIdentical := false;
        var queue := recordingsPerProgram[p];
        var i := 0;
        while i < |queue|
          invariant i <= |queue|
          invariant forall j :: 0 <= j < i ==> Matches(queue[j], results, tau)
          invariant isIdentical <==> exists j :: 0 <= j < i && queue[j].dataHash in results
        {
          if queue[i].dataHash in results {
            if Distance(results[queue[i].dataHash], queue[i].result) <= tau {
              isIdentical := true;
            } else {
              isIdentical := false;
              break;
            }
          }
          i := i + 1;
        }
        EquivalentByQueue(recordings, recordingsPerProgram, p, results, tau);
        if isIdentical {
          return false;
        }
        remaining := remaining - {p};
      }
      return true;
    }
  }

  /** What a user of an archive does: additions with their handlers, and clearing. */
  datatype Call =
    | Record(program: Program, handlers: Handlers, result: real, forced: bool, draw: real)
    | Wipe

  function EventOf(c: Call): Event {
    match c
    case Wipe => Clear
    case Record(program, handlers, result, forced, draw) =>
      Add(Recording(program, Combined(HashesOf(handlers)), result), forced, draw)
  }

  function EventsOf(calls: seq<Call>): (events: seq<Event>)
    ensures |events| == |calls| && forall i :: 0 <= i < |events| ==> events[i] == EventOf(calls[i])
  {
    seq(|calls|, i requires 0 <= i < |calls| => EventOf(calls[i]))
  }

  /** The whole life of an archive, from construction to destruction, over any calls: what it
      held at the end is the bounded history, index and table agreed with it, and no copy is
      left. */
  method WholeLife(size: nat, archivingProbability: real, calls: seq<Call>) returns (archive: Archive)
    ensures fresh(archive) && archive.live == {}
    ensures archive.recordings == LastN(History([], EventsOf(calls), archivingProbability), size)
    ensures Indexed(archive.recordingsPerProgram, archive.recordings)
    ensures Tabled(archive.dataHandlers, archive.recordings)
  {
    hide Indexed, Tabled, Owned, Step, EventOf, History, LastN, Faithful, Updated, Combined;
    archive := new Archive(size, archivingProbability);
    ghost var events := EventsOf(calls);
    for i := 0 to |calls|
      invariant fresh(archive) && archive.Valid()
      invariant archive.maxSize == size && archive.archivingProbability == archivingProbability
      invariant archive.recordings == Run([], events[..i], size, archivingProbability)
    {
      StepOf(calls[i], archive.recordings, size, archivingProbability);
      assert events[..i + 1][..i] == events[..i] && events[..i + 1][i] == EventOf(calls[i]);
      match calls[i]
      case Wipe =>
        archive.Clear();
      case Record(program, handlers, result, forced, draw) =>
        archive.AddRecording(program, handlers, result, forced, draw);
    }
    assert events[..|calls|] == events;
    RunKeepsLast([], events, size, archivingProbability);
    archive.Destroy();
  }

  lemma StepOf(c: Call, s: seq<Recording>, maxSize: nat, probability: real)
    ensures c.Wipe? ==> Step(s, EventOf(c), maxSize, probability) == []
    ensures c.Record? ==>
      EventOf(c) == Add(Recording(c.program, Combined(HashesOf(c.handlers)), c.result), c.forced, c.draw)
  {
  }
}
