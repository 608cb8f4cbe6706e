/** Merging the archives that parallel jobs filled into the one archive of the agent. */
module ArchiveMerge {
  import opened Recordings
  import opened Archives
  import Content = HandlerHash

  function Flatten<T>(parts: seq<seq<T>>): (s: seq<T>) {
    if parts == [] then [] else Flatten(parts[..|parts| - 1]) + parts[|parts| - 1]
  }

  lemma {:induction false} FlattenJoin<T>(a: seq<seq<T>>, b: seq<seq<T>>)
    ensures Flatten(a + b) == Flatten(a) + Flatten(b)
  {
    if b == [] {
      assert a + b == a;
    } else {
      assert (a + b)[..|a + b| - 1] == a + b[..|b| - 1];
      FlattenJoin(a, b[..|b| - 1]);
    }
  }

  lemma FlattenNext<T>(parts: seq<seq<T>>, from: nat, to: nat)
    requires from <= to < |parts|
    ensures Flatten(parts[from..to + 1]) == Flatten(parts[from..to]) + parts[to]
  {
    assert parts[from..to + 1][..to - from] == parts[from..to];
  }

  lemma FlattenPrevious<T>(parts: seq<seq<T>>, from: nat)
    requires from < |parts|
    ensures |Flatten(parts[from..|parts|])| == |parts[from]| + |Flatten(parts[from + 1..|parts|])|
  {
    assert parts[from..|parts|] == [parts[from]] + parts[from + 1..|parts|];
    FlattenJoin([parts[from]], parts[from + 1..|parts|]);
    assert [parts[from]][..0] == [];
  }

  lemma AppendAssociates<T>(a: seq<T>, b: seq<T>, c: seq<T>)
    ensures a + b + c == a + (b + c)
  {
  }

  /** A tail that fills the archive makes everything before it irrelevant. */
  lemma LongTail<T>(a: seq<T>, b: seq<T>, tail: seq<T>, n: nat)
    requires |tail| >= n
    ensures LastN(a + tail, n) == LastN(b + tail, n)
  {
    assert LastN(a + tail, n) == tail[|tail| - n..] == LastN(b + tail, n);
  }

  // ----- The merge -----

  /** The recordings as replaying them stores them: keyed by the hash of the stored copies. */
  function Rekeyed(recordings: seq<Recording>, table: map<Hash, Handlers>): (s: seq<Recording>)
    requires forall i :: 0 <= i < |recordings| ==> recordings[i].dataHash in table
    ensures |s| == |recordings|
    ensures forall i :: 0 <= i < |s| ==>
      s[i] == recordings[i].(dataHash := Combined(HashesOf(table[recordings[i].dataHash])))
  {
    seq(|recordings|, i requires 0 <= i < |recordings| =>
      recordings[i].(dataHash := Combined(HashesOf(table[recordings[i].dataHash]))))
  }

  /** The table lookup of the merge always succeeds. */
  lemma LookupsSucceed(a: Archive)
    requires a.Valid()
    ensures forall i :: 0 <= i < |a.recordings| ==> a.recordings[i].dataHash in a.dataHandlers
  {
    forall i | 0 <= i < |a.recordings|
      ensures a.recordings[i].dataHash in a.dataHandlers
    {
      assert UsesHash(a.recordings, a.recordings[i].dataHash);
    }
  }

  ghost function Replayed(a: Archive): (s: seq<Recording>)
    reads a
    requires a.Valid()
    ensures |s| == |a.recordings|
  {
    LookupsSucceed(a);
    Rekeyed(a.recordings, a.dataHandlers)
  }

  ghost predicate Mergeable(archive: Archive, jobs: seq<Archive>)
    reads archive, jobs
  {
    && archive.Valid() && archive !in jobs
    && (forall i :: 0 <= i < |jobs| ==> jobs[i].Valid())
    && (forall i, j :: 0 <= i < j < |jobs| ==> jobs[i] != jobs[j])
  }

  ghost function ReplayedParts(jobs: seq<Archive>): (parts: seq<seq<Recording>>)
    reads jobs
    requires forall i :: 0 <= i < |jobs| ==> jobs[i].Valid()
    ensures |parts| == |jobs| && forall i :: 0 <= i < |jobs| ==> parts[i] == Replayed(jobs[i])
  {
    seq(|jobs|, i requires 0 <= i < |jobs| && jobs[i].Valid() reads jobs => Replayed(jobs[i]))
  }

  /** The backward scan: how many jobs, counted from the end, are enough to fill an archive. */
  method FirstNeeded(jobs: seq<Archive>, archiveSize: nat) returns (first: nat, nbRecordings: nat)
    requires forall i :: 0 <= i < |jobs| ==> jobs[i].Valid()
    ensures first <= |jobs| && nbRecordings == |Flatten(ReplayedParts(jobs)[first..|jobs|])|
    ensures first > 0 ==> nbRecordings >= archiveSize
    ensures first < |jobs| ==> nbRecordings - |jobs[first].recordings| < archiveSize
  {
    hide Flatten, Replayed;
    ghost var parts := ReplayedParts(jobs);
    first, nbRecordings := |jobs|, 0;
    EmptyFlatten(parts, |jobs|);
    while nbRecordings < archiveSize && first > 0
      invariant first <= |jobs| && nbRecordings == |Flatten(parts[first..|jobs|])|
      invariant first < |jobs| ==> nbRecordings - |jobs[first].recordings| < archiveSize
    {
      first := first - 1;
      nbRecordings := nbRecordings + |jobs[first].recordings|;
      FlattenPrevious(parts, first);
    }
  }

  lemma ReplayedAt(a: Archive, i: nat)
    requires a.Valid() && i < |a.recordings|
    ensures var r := a.recordings[i];
      r.dataHash in a.dataHandlers
      && Replayed(a)[i] == Recording(r.prog, Combined(HashesOf(a.dataHandlers[r.dataHash])), r.result)
  {
    LookupsSucceed(a);
  }

  lemma ForcedStep(s: seq<Recording>, r: Recording, n: nat, probability: real)
    ensures Step(s, Add(r, true, 0.0), n, probability) == LastN(s + [r], n)
  {
  }

  lemma Taken<T>(skipped: seq<T>, added: seq<T>, part: seq<T>, i: nat)
    requires i <= |part| && (i > 0 ==> skipped + added == [])
    ensures skipped + added + part == (skipped + part[..i]) + (added + part[i..])
  {
    if i == 0 {
      assert part[..0] == [] && part[0..] == part;
    } else {
      assert skipped == [] && added == [];
      assert part == part[..i] + part[i..];
    }
  }

  lemma NothingReplayed(before: seq<Recording>, parts: seq<Recording>, from: nat, n: nat)
    requires |before| <= n && from <= |parts|
    ensures LastN(before + parts[from..from], n) == before
  {
  }

  lemma OneMoreReplayed(before: seq<Recording>, parts: seq<Recording>, from: nat, i: nat, n: nat)
    requires from <= i < |parts|
    ensures LastN(before + parts[from..i + 1], n) == LastN(LastN(before + parts[from..i], n) + [parts[i]], n)
  {
    hide LastN;
    LastNAppend(before + parts[from..i], [parts[i]], n);
    assert before + parts[from..i] + [parts[i]] == before + parts[from..i + 1];
  }

  /** The innermost loop: one job's recordings from `from` on, forced into the archive. */
  method Replay(archive: Archive, job: Archive, from: nat)
    requires archive.Valid() && job.Valid() && archive != job && from <= |job.recordings|
    modifies archive
    ensures archive.Valid()
    ensures archive.recordings == LastN(old(archive.recordings) + Replayed(job)[from..], archive.maxSize)
  {
    hide Combined, HashesOf, CloneHashesOf, Indexed, Tabled, Owned, LastN, Step, Faithful, Updated, Replayed, Rekeyed;
    ghost var before := archive.recordings;
    ghost var parts := Replayed(job);
    var recordingIdx := from;
    NothingReplayed(before, parts, from, archive.maxSize);
    while recordingIdx < |job.recordings|
      invariant from <= recordingIdx <= |job.recordings| && archive.Valid()
      invariant archive.recordings == LastN(before + parts[from..recordingIdx], archive.maxSize)
    {
      var recording := job.recordings[recordingIdx];
      ReplayedAt(job, recordingIdx);
      ForcedStep(archive.recordings, parts[recordingIdx], archive.maxSize, archive.archivingProbability);
      OneMoreReplayed(before, parts, from, recordingIdx, archive.maxSize);
      archive.AddRecording(recording.prog, job.dataHandlers[recording.dataHash], recording.result, true, 0.0);
      recordingIdx := recordingIdx + 1;
    }
    assert parts[from..|parts|] == parts[from..];
  }

  method DestroyAll(jobs: seq<Archive>)
    requires forall i :: 0 <= i < |jobs| ==> jobs[i].Valid()
    requires forall i, j :: 0 <= i < j < |jobs| ==> jobs[i] != jobs[j]
    modifies jobs
    ensures forall i :: 0 <= i < |jobs| ==> jobs[i].live == {}
  {
    var last := |jobs|;
    while last > 0
      invariant 0 <= last <= |jobs|
      invariant forall i :: 0 <= i < last ==> jobs[i].Valid()
      invariant forall i :: last <= i < |jobs| ==> jobs[i].live == {}
    {
      last := last - 1;
      jobs[last].Destroy();
    }
  }

  lemma EmptyFlatten<T>(parts: seq<seq<T>>, i: nat)
    requires i <= |parts|
    ensures Flatten(parts[i..i]) == []
  {
  }

  /** What the scan left out or the merge skipped would have been evicted anyway. */
  lemma MergedTail(before: seq<Recording>, parts: seq<seq<Recording>>, first: nat,
                   skipped: seq<Recording>, added: seq<Recording>, n: nat)
    requires first <= |parts| && skipped + added == Flatten(parts[first..|parts|])
    requires (skipped != [] || first > 0) ==> |added| >= n
    ensures LastN(before + added, n) == LastN(before + Flatten(parts), n)
  {
    hide LastN, Flatten;
    assert parts == parts[..first] + parts[first..|parts|];
    FlattenJoin(parts[..first], parts[first..|parts|]);
    if skipped == [] && first == 0 {
      EmptyFlatten(parts, 0);
      assert parts[0..0] == parts[..0];
      assert [] + added == added && [] + ([] + added) == added;
    } else {
      var front := Flatten(parts[..first]);
      var all := before + front + skipped;
      AppendAssociates(before + front, skipped, added);
      AppendAssociates(before, front, skipped + added);
      LongTail(before, all, added, n);
    }
  }

  /** One round of the inserting loop: skip what is too much, then replay the rest. */
  method InsertJob(archive: Archive, job: Archive, nbRecordings: nat, archiveSize: nat)
      returns (remaining: nat, recordingIdx: nat)
    requires archive.Valid() && job.Valid() && archive != job
    requires nbRecordings - |job.recordings| <= archiveSize
    modifies archive
    ensures archive.Valid() && remaining == nbRecordings - recordingIdx && recordingIdx <= |job.recordings|
    ensures recordingIdx > 0 <==> nbRecordings > archiveSize
    ensures recordingIdx > 0 ==> remaining == archiveSize
    ensures archive.recordings
         == LastN(old(archive.recordings) + Replayed(job)[recordingIdx..], archive.maxSize)
  {
    remaining, recordingIdx := nbRecordings, 0;
    while remaining > archiveSize
      invariant remaining + recordingIdx == nbRecordings
      invariant recordingIdx > 0 <==> nbRecordings > remaining
      invariant recordingIdx > 0 ==> remaining >= archiveSize
    {
      recordingIdx := recordingIdx + 1;
      remaining := remaining - 1;
    }
    Replay(archive, job, recordingIdx);
  }

  method InsertNeeded(archive: Archive, jobs: seq<Archive>)
    requires Mergeable(archive, jobs)
    modifies archive
    ensures archive.Valid()
    ensures archive.recordings
         == LastN(old(archive.recordings) + Flatten(old(ReplayedParts(jobs))), archive.maxSize)
  {
    hide Combined, HashesOf, CloneHashesOf, Indexed, Tabled, Owned, LastN, Flatten, Replayed, Faithful, Updated;
    ghost var before := archive.recordings;
    ghost var parts := ReplayedParts(jobs);
    var archiveSize := archive.maxSize;
    var first, nbRecordings := FirstNeeded(jobs, archiveSize);
    ghost var total := nbRecordings;
    ghost var skipped, added: seq<Recording> := [], [];
    EmptyFlatten(parts, first);
    assert before + added == before;
    assert LastN(before, archiveSize) == before;
    var job := first;
    while job < |jobs|
      invariant first <= job <= |jobs| && archive.Valid()
      invariant archive.recordings == LastN(before + added, archiveSize)
      invariant skipped + added == Flatten(parts[first..job])
      invariant |skipped| + nbRecordings == total
      invariant nbRecordings > archiveSize ==> job == first && skipped + added == []
      invariant skipped != [] ==> nbRecordings == archiveSize
    {
      ghost var part := parts[job];
      var recordingIdx;
      nbRecordings, recordingIdx := InsertJob(archive, jobs[job], nbRecordings, archiveSize);
      LastNAppend(before + added, part[recordingIdx..], archiveSize);
      FlattenNext(parts, first, job);
      AppendAssociates(before, added, part[recordingIdx..]);
      Taken(skipped, added, part, recordingIdx);
      skipped, added := skipped + part[..recordingIdx], added + part[recordingIdx..];
      job := job + 1;
    }
    MergedTail(before, parts, first, skipped, added, archiveSize);
  }

  /** mergeArchiveMap: the agent's archive ends as if every recording of every job had been
      added to it in job order, and the job archives are destroyed. */
  method MergeArchiveMap(archive: Archive, jobs: seq<Archive>)
    requires Mergeable(archive, jobs)
    modifies archive, jobs
    ensures archive.Valid()
    ensures archive.recordings
         == LastN(old(archive.recordings) + Flatten(old(ReplayedParts(jobs))), archive.maxSize)
    ensures forall i :: 0 <= i < |jobs| ==> jobs[i].live == {}
  {
    InsertNeeded(archive, jobs);
    DestroyAll(jobs);
  }

  // ----- Parallel and sequential evaluation -----

  predicate AddsOnly(events: seq<Event>) {
    forall i :: 0 <= i < |events| ==> events[i].Add?
  }

  lemma {:induction false} HistoryAdds(s: seq<Recording>, events: seq<Event>, probability: real)
    requires AddsOnly(events)
    ensures History(s, events, probability) == s + History([], events, probability)
  {
    if events == [] {
      assert s + [] == s;
    } else {
      HistoryAdds(s, events[..|events| - 1], probability);
    }
  }

  lemma {:induction false} HistoryAppend(s: seq<Recording>, a: seq<Event>, b: seq<Event>, probability: real)
    ensures History(s, a + b, probability) == History(History(s, a, probability), b, probability)
  {
    if b == [] {
      assert a + b == a;
    } else {
      var front := b[..|b| - 1];
      assert (a + b)[..|a + b| - 1] == a + front;
      HistoryAppend(s, a, front, probability);
    }
  }

  /** Keeping only the last `n` of every part keeps the last `n` of the whole. */
  lemma {:induction false} ShortenParts(before: seq<Recording>, parts: seq<seq<Recording>>,
                                        kept: seq<seq<Recording>>, n: nat)
    requires |kept| == |parts| && forall i :: 0 <= i < |parts| ==> kept[i] == LastN(parts[i], n)
    ensures LastN(before + Flatten(kept), n) == LastN(before + Flatten(parts), n)
  {
    hide LastN;
    if parts != [] {
      var m := |parts| - 1;
      ShortenParts(before, parts[..m], kept[..m], n);
      var a, b := before + Flatten(parts[..m]), before + Flatten(kept[..m]);
      LastNAppend(b, kept[m], n);
      LastNAppend(a, kept[m], n);
      LastNInside(a, parts[m], [], n);
      assert a + kept[m] + [] == a + kept[m] && a + parts[m] + [] == a + parts[m];
      AppendAssociates(before, Flatten(parts[..m]), parts[m]);
      AppendAssociates(before, Flatten(kept[..m]), kept[m]);
    }
  }

  lemma {:induction false} HistoryOfJobs(before: seq<Recording>, jobs: seq<seq<Event>>,
                                         parts: seq<seq<Recording>>, probability: real)
    requires |parts| == |jobs|
    requires forall i :: 0 <= i < |jobs| ==>
      AddsOnly(jobs[i]) && parts[i] == History([], jobs[i], probability)
    ensures History(before, Flatten(jobs), probability) == before + Flatten(parts)
  {
    if jobs == [] {
      assert before + [] == before;
    } else {
      var m := |jobs| - 1;
      HistoryOfJobs(before, jobs[..m], parts[..m], probability);
      HistoryAppend(before, Flatten(jobs[..m]), jobs[m], probability);
      HistoryAdds(before + Flatten(parts[..m]), jobs[m], probability);
      AppendAssociates(before, Flatten(parts[..m]), parts[m]);
    }
  }

  /** One archive per job, each starting empty and bounded, then concatenated: the same as
      one archive that sees all jobs in order. */
  lemma ParallelIsSequential(before: seq<Recording>, jobs: seq<seq<Event>>, kept: seq<seq<Recording>>,
                             n: nat, probability: real)
    requires |before| <= n && |kept| == |jobs|
    requires forall i :: 0 <= i < |jobs| ==> AddsOnly(jobs[i]) && kept[i] == Run([], jobs[i], n, probability)
    ensures LastN(before + Flatten(kept), n) == Run(before, Flatten(jobs), n, probability)
  {
    hide LastN, Run, History, Flatten;
    var parts := seq(|jobs|, i requires 0 <= i < |jobs| => History([], jobs[i], probability));
    forall i | 0 <= i < |jobs|
      ensures kept[i] == LastN(parts[i], n)
    {
      RunKeepsLast([], jobs[i], n, probability);
    }
    ShortenParts(before, parts, kept, n);
    HistoryOfJobs(before, jobs, parts, probability);
    RunKeepsLast(before, Flatten(jobs), n, probability);
  }

  ghost function KeptParts(jobs: seq<Archive>): (parts: seq<seq<Recording>>)
    reads jobs
    ensures |parts| == |jobs| && forall i :: 0 <= i < |jobs| ==> parts[i] == jobs[i].recordings
  {
    seq(|jobs|, i requires 0 <= i < |jobs| reads jobs => jobs[i].recordings)
  }

  lemma {:induction false} SameShape(a: seq<seq<Recording>>, b: seq<seq<Recording>>)
    requires |a| == |b| && forall i :: 0 <= i < |a| ==> |a[i]| == |b[i]|
    requires forall i, j :: 0 <= i < |a| && 0 <= j < |a[i]| ==> SameButKey(a[i][j], b[i][j])
    ensures |Flatten(a)| == |Flatten(b)|
    ensures forall k :: 0 <= k < |Flatten(a)| ==> SameButKey(Flatten(a)[k], Flatten(b)[k])
  {
    hide SameButKey, Flatten;
    if a == [] {
      FlattenNothing();
    } else {
      var last := |a| - 1;
      SameShape(a[..last], b[..last]);
      FlattenSnoc(a[..last], a[last]);
      FlattenSnoc(b[..last], b[last]);
      assert a == a[..last] + [a[last]] && b == b[..last] + [b[last]];
    }
  }

  lemma FlattenNothing()
    ensures Flatten<Recording>([]) == []
  {
  }

  lemma FlattenSnoc(parts: seq<seq<Recording>>, part: seq<Recording>)
    ensures Flatten(parts + [part]) == Flatten(parts) + part
  {
    assert (parts + [part])[..|parts|] == parts;
  }

  predicate SameButKey(a: Recording, b: Recording) {
    a.prog == b.prog && a.result == b.result
  }

  /** Every recording that survives the merge had copies that hash back to its key. */
  predicate KeysSurvive(kept: seq<Recording>, replayed: seq<Recording>, n: nat)
    requires |kept| == |replayed|
  {
    forall k :: 0 <= k < |kept| && |kept| - n <= k ==> replayed[k].dataHash == kept[k].dataHash
  }

  lemma LastNSplits(before: seq<Recording>, s: seq<Recording>, n: nat)
    ensures LastN(before + s, n) == LastN(before, if |s| <= n then n - |s| else 0) + LastN(s, n)
  {
    if |s| <= n {
      if |before + s| > n {
        assert (before + s)[|before + s| - n..] == before[|before + s| - n..] + s;
      }
    } else {
      assert (before + s)[|before + s| - n..] == s[|s| - n..];
    }
  }

  lemma PrefixCancels<T>(p: seq<T>, a: seq<T>, b: seq<T>)
    ensures p + a == p + b <==> a == b
  {
    assert (p + a)[|p|..] == a && (p + b)[|p|..] == b;
  }

  lemma TailKeys(kept: seq<Recording>, replayed: seq<Recording>, skip: nat, n: nat)
    requires |kept| == |replayed| && forall k :: 0 <= k < |kept| ==> SameButKey(kept[k], replayed[k])
    requires skip == if |kept| <= n then 0 else |kept| - n
    ensures replayed[skip..] == kept[skip..] <==> KeysSurvive(kept, replayed, n)
  {
    if replayed[skip..] == kept[skip..] {
      forall k | 0 <= k < |kept| && |kept| - n <= k
        ensures replayed[k].dataHash == kept[k].dataHash
      {
        assert replayed[skip..][k - skip] == kept[skip..][k - skip];
      }
    }
  }

  lemma SameTail(before: seq<Recording>, kept: seq<Recording>, replayed: seq<Recording>, n: nat)
    requires |kept| == |replayed| && forall k :: 0 <= k < |kept| ==> SameButKey(kept[k], replayed[k])
    ensures LastN(before + replayed, n) == LastN(before + kept, n) <==> KeysSurvive(kept, replayed, n)
  {
    hide LastN, KeysSurvive, SameButKey;
    LastNSplits(before, replayed, n);
    LastNSplits(before, kept, n);
    var skip := if |kept| <= n then 0 else |kept| - n;
    TailKeys(kept, replayed, skip, n);
    PrefixCancels(LastN(before, if |kept| <= n then n - |kept| else 0), replayed[skip..], kept[skip..]);
  }

  /** The merged archive equals the archive of a sequential evaluation exactly when every
      surviving recording was made on data whose stored copies hash back to its key. */
  lemma MergeIsSequential(archive: Archive, jobs: seq<Archive>, histories: seq<seq<Event>>)
    requires Mergeable(archive, jobs) && |histories| == |jobs|
    requires forall i :: 0 <= i < |jobs| ==>
      && AddsOnly(histories[i])
      && jobs[i].recordings == Run([], histories[i], archive.maxSize, archive.archivingProbability)
    ensures |Flatten(KeptParts(jobs))| == |Flatten(ReplayedParts(jobs))|
    ensures LastN(archive.recordings + Flatten(ReplayedParts(jobs)), archive.maxSize)
         == Run(archive.recordings, Flatten(histories), archive.maxSize, archive.archivingProbability)
       <==> KeysSurvive(Flatten(KeptParts(jobs)), Flatten(ReplayedParts(jobs)), archive.maxSize)
  {
    hide LastN, Run, Flatten, KeysSurvive;
    var n := archive.maxSize;
    ParallelIsSequential(archive.recordings, histories, KeptParts(jobs), n, archive.archivingProbability);
    forall i | 0 <= i < |jobs|
      ensures |KeptParts(jobs)[i]| == |ReplayedParts(jobs)[i]|
    {
      LookupsSucceed(jobs[i]);
    }
    SameShape(KeptParts(jobs), ReplayedParts(jobs));
    SameTail(archive.recordings, Flatten(KeptParts(jobs)), Flatten(ReplayedParts(jobs)), n);
  }

  /** With faithful tables, replaying changes no recording at all. */
  lemma FaithfulReplay(a: Archive)
    requires a.Valid() && Faithful(a.dataHandlers)
    ensures Replayed(a) == a.recordings
  {
    LookupsSucceed(a);
  }

  // ----- A merge that changes a key -----

  /** The first handler ever made, if it wraps a null pointer to one double. */
  function FirstNullWrapper(): Content.Handler {
    Content.NullWrapper(Content.ZeroElement(8), 1, 8)
  }

  lemma NullChangesKey(d: DataHandler)
    requires d.content == FirstNullWrapper()
    ensures Combined(CloneHashesOf([d])) != Combined(HashesOf([d]))
  {
    hide Content.HandlerHashOf, Content.CloneOf;
    Content.FirstNullWrapperChanges();
    assert HashesOf([d]) == [d.GetHash()] && CloneHashesOf([d]) == [d.CloneHash()];
    CombinedOne(d.GetHash());
    CombinedOne(d.CloneHash());
  }

  lemma OneRecording(job: Archive, r: Recording)
    requires job.Valid() && job.recordings == [r]
    ensures r.dataHash in job.dataHandlers
    ensures Flatten(ReplayedParts([job]))
      == [r.(dataHash := Combined(HashesOf(job.dataHandlers[r.dataHash])))]
  {
    hide Combined, HashesOf;
    LookupsSucceed(job);
    var parts := ReplayedParts([job]);
    assert parts[..0] == [] && Flatten(parts[..0]) == [];
    assert Flatten(parts) == [] + parts[0] == parts[0];
  }

  /** A job that records the first handler ever made, a wrapper around a null pointer. */
  method RecordNullWrapper() returns (job: Archive)
    ensures fresh(job) && job.Valid() && |job.recordings| == 1
    ensures var r := job.recordings[0];
      && job.recordings == Run([], Flatten([[Add(r, true, 0.0)]]), 1, 1.0)
      && r.dataHash in job.dataHandlers && Combined(HashesOf(job.dataHandlers[r.dataHash])) != r.dataHash
  {
    hide Combined, HashesOf, CloneHashesOf, Content.HandlerHashOf, Content.CloneOf, Indexed, Tabled, Owned, Flatten;
    var wrapper := new DataHandler(FirstNullWrapper());
    NullChangesKey(wrapper);
    job := new Archive(1, 1.0);
    job.AddRecording(0, [wrapper], 1.0, true, 0.0);
    ghost var r := Recording(0, Combined(HashesOf([wrapper])), 1.0);
    OneAddition(r);
    OneRecording(job, r);
  }

  /** Once that job is merged, the agent's archive differs from that of a sequential evaluation. */
  method NullWrapperMerge() returns (merged: seq<Recording>, sequential: seq<Recording>)
    ensures |sequential| == 1 && sequential == Run([], Flatten([[Add(sequential[0], true, 0.0)]]), 1, 1.0)
    ensures merged != sequential
  {
    hide Combined, HashesOf, Archive.Valid, Run, Flatten, Replayed, LastN;
    var agent := new Archive(1, 1.0);
    var job := RecordNullWrapper();
    sequential := job.recordings;
    OneRecording(job, sequential[0]);
    LastOne(sequential[0].(dataHash := Combined(HashesOf(job.dataHandlers[sequential[0].dataHash]))));
    MergeArchiveMap(agent, [job]);
    merged := agent.recordings;
  }

  lemma LastOne(r: Recording)
    ensures LastN([] + [r], 1) == [r]
  {
  }

  lemma OneAddition(r: Recording)
    ensures Step([], Add(r, true, 0.0), 1, 1.0) == [r]
    ensures Run([], Flatten([[Add(r, true, 0.0)]]), 1, 1.0) == [r]
  {
    var event := Add(r, true, 0.0);
    assert [[event]][..0] == [] && [] + [event] == [event];
    assert Flatten([[event]]) == [event];
    assert [event][..0] == [];
  }
}
