/** What an archive of program results means, on plain sequences of recordings. */
module Recordings {
  import opened Words

  /** A size_t used as a key. */
  type Hash = Word

  /** The address of a program; never followed here. */
  type Program = nat

  datatype Recording = Recording(prog: Program, dataHash: Hash, result: real)

  /** The last `n` elements, or all of them when there are fewer. */
  function LastN<T>(s: seq<T>, n: nat): (r: seq<T>)
    ensures |r| == if |s| <= n then |s| else n
    ensures r == s[|s| - |r|..]
  {
    if |s| <= n then s else s[|s| - n..]
  }

  lemma LastNAppend<T>(s: seq<T>, t: seq<T>, n: nat)
    ensures LastN(LastN(s, n) + t, n) == LastN(s + t, n)
  {
    var short := LastN(s, n);
    if |short + t| > n {
      var drop := |short| + |t| - n;
      assert (s + t)[|s| - |short|..] == short + t;
      assert (s + t)[|s| - |short|..][drop..] == (s + t)[|s| - |short| + drop..];
    }
  }

  lemma LastNTail<T>(s: seq<T>, t: seq<T>, n: nat)
    ensures LastN(s + LastN(t, n), n) == LastN(s + t, n)
  {
    if |t| > n {
      var short := LastN(t, n);
      assert LastN(s + short, n) == short;
      assert (s + t)[|s + t| - n..] == short;
    }
  }

  /** Shortening an inner part to its last `n` elements first changes nothing. */
  lemma LastNInside<T>(s: seq<T>, t: seq<T>, u: seq<T>, n: nat)
    ensures LastN(s + LastN(t, n) + u, n) == LastN(s + t + u, n)
  {
    hide LastN;
    LastNTail(s, t, n);
    LastNAppend(s + LastN(t, n), u, n);
    LastNAppend(s + t, u, n);
  }

  /** The recordings of one program, in order. */
  function OfProgram(s: seq<Recording>, p: Program): (r: seq<Recording>)
    ensures |r| <= |s|
  {
    if s == [] then [] else (if s[0].prog == p then [s[0]] else []) + OfProgram(s[1..], p)
  }

  lemma OfProgramFront(s: seq<Recording>, p: Program)
    requires s != []
    ensures OfProgram(s, p) == if s[0].prog == p then [s[0]] + OfProgram(s[1..], p) else OfProgram(s[1..], p)
  {
  }

  lemma {:induction false} OfProgramAppend(s: seq<Recording>, r: Recording, p: Program)
    ensures OfProgram(s + [r], p) == OfProgram(s, p) + if r.prog == p then [r] else []
  {
    if s != [] {
      assert (s + [r])[1..] == s[1..] + [r];
      OfProgramAppend(s[1..], r, p);
    } else {
      assert (s + [r])[1..] == [];
    }
  }

  lemma {:induction false} OfProgramMembers(s: seq<Recording>, p: Program)
    ensures forall r :: r in OfProgram(s, p) <==> r in s && r.prog == p
  {
    if s != [] {
      OfProgramMembers(s[1..], p);
      assert s == [s[0]] + s[1..];
    }
  }

  // ----- Runs -----

  datatype Event =
    | Add(recording: Recording, forced: bool, draw: real)
    | Clear

  /** The decision of addRecording; the draw only counts below certainty. */
  predicate Accepted(forced: bool, probability: real, draw: real) {
    forced || probability == 1.0 || draw <= probability
  }

  function Push(s: seq<Recording>, r: Recording, maxSize: nat): (t: seq<Recording>)
    ensures |s| <= maxSize ==> |t| <= maxSize
  {
    LastN(s + [r], maxSize)
  }

  function Step(s: seq<Recording>, e: Event, maxSize: nat, probability: real): (t: seq<Recording>) {
    match e
    case Clear => []
    case Add(r, forced, draw) => if Accepted(forced, probability, draw) then Push(s, r, maxSize) else s
  }

  /** What an addition does, spelled out. */
  lemma StepMeans(s: seq<Recording>, r: Recording, forced: bool, draw: real, maxSize: nat, probability: real)
    ensures Step(s, Add(r, forced, draw), maxSize, probability)
         == if forced || probability == 1.0 || draw <= probability then Push(s, r, maxSize) else s
    ensures Push(s, r, maxSize) == if |s| < maxSize then s + [r] else (s + [r])[|s| + 1 - maxSize..]
  {
  }

  function Run(s: seq<Recording>, events: seq<Event>, maxSize: nat, probability: real): (t: seq<Recording>) {
    if events == [] then s
    else Step(Run(s, events[..|events| - 1], maxSize, probability), events[|events| - 1], maxSize, probability)
  }

  /** The accepted recordings since the last clear, oldest first. */
  function History(s: seq<Recording>, events: seq<Event>, probability: real): (t: seq<Recording>) {
    if events == [] then s
    else
      var before := History(s, events[..|events| - 1], probability);
      match events[|events| - 1]
      case Clear => []
      case Add(r, forced, draw) => if Accepted(forced, probability, draw) then before + [r] else before
  }

  /** Over every run the archive holds exactly the last min(n, maxSize) of the n
      recordings accepted since the last clear. */
  lemma {:induction false} RunKeepsLast(s: seq<Recording>, events: seq<Event>, maxSize: nat, probability: real)
    requires |s| <= maxSize
    ensures Run(s, events, maxSize, probability) == LastN(History(s, events, probability), maxSize)
  {
    if events != [] {
      var front := events[..|events| - 1];
      RunKeepsLast(s, front, maxSize, probability);
      match events[|events| - 1]
      case Clear =>
      case Add(r, _, _) => LastNAppend(History(s, front, probability), [r], maxSize);
    }
  }

  // ----- The combined key -----

  /** getCombinedHash on the hashes of the handlers. */
  function Combined(hashes: seq<Hash>): (h: Hash) {
    if hashes == [] then 0 else Xor(Combined(hashes[..|hashes| - 1]), hashes[|hashes| - 1])
  }

  lemma {:induction false} CombinedJoin(s: seq<Hash>, t: seq<Hash>)
    ensures Combined(s + t) == Xor(Combined(s), Combined(t))
  {
    hide Xor;
    XorLaws(Combined(s), 0, 0);
    if t == [] {
      assert s + t == s;
    } else {
      var front := t[..|t| - 1];
      assert (s + t)[..|s + t| - 1] == s + front;
      CombinedJoin(s, front);
      XorLaws(Combined(s), Combined(front), t[|t| - 1]);
    }
  }

  lemma CombinedOne(h: Hash)
    ensures Combined([h]) == h
  {
    hide Xor;
    XorLaws(h, 0, 0);
    XorLaws(0, h, h);
    assert [h][..0] == [];
  }

  /** One handler can be taken out of the fold, wherever it stands. */
  lemma CombinedWithout(s: seq<Hash>, i: nat)
    requires i < |s|
    ensures Combined(s) == Xor(Combined(s[..i] + s[i + 1..]), s[i])
  {
    hide Xor, Combined;
    var a, b, c := s[..i], s[i], s[i + 1..];
    assert s == a + ([b] + c);
    CombinedJoin(a, [b] + c);
    CombinedJoin([b], c);
    CombinedJoin(a, c);
    CombinedOne(b);
    XorLaws(Combined(a), Combined(c), b);
    XorLaws(b, Combined(c), b);
  }

  lemma WithoutOne<T>(s: seq<T>, i: nat)
    requires i < |s|
    ensures multiset(s[..i] + s[i + 1..]) == multiset(s) - multiset{s[i]}
  {
    assert s == s[..i] + [s[i]] + s[i + 1..];
  }

  /** The key does not depend on the order of the handlers. */
  lemma {:induction false} CombinedAnyOrder(s: seq<Hash>, t: seq<Hash>)
    requires multiset(s) == multiset(t)
    ensures Combined(s) == Combined(t)
    decreases |s|
  {
    hide Xor, Combined;
    if s == [] {
      assert |multiset(t)| == 0;
    } else {
      assert s[0] in multiset(t);
      var j :| 0 <= j < |t| && t[j] == s[0];
      WithoutOne(s, 0);
      WithoutOne(t, j);
      CombinedAnyOrder(s[..0] + s[1..], t[..j] + t[j + 1..]);
      CombinedWithout(s, 0);
      CombinedWithout(t, j);
    }
  }

  /** Changing the hash of exactly one handler always changes the key. */
  lemma OneHandlerChangesKey(s: seq<Hash>, i: nat, h: Hash)
    requires i < |s|
    ensures Combined(s[i := h]) == Combined(s) <==> h == s[i]
  {
    hide Xor, Combined;
    var rest := s[..i] + s[i + 1..];
    CombinedWithout(s, i);
    CombinedWithout(s[i := h], i);
    assert s[i := h][..i] + s[i := h][i + 1..] == rest;
    XorCancels(Combined(rest), h, s[i]);
  }

  // ----- The uniqueness test -----

  function Distance(a: real, b: real): (d: real)
    ensures d >= 0.0 && (d == a - b || d == b - a)
  {
    if a >= b then a - b else b - a
  }

  predicate Matches(r: Recording, results: map<Hash, real>, tau: real) {
    r.dataHash in results ==> Distance(results[r.dataHash], r.result) <= tau
  }

  /** Some recording of the program is on data in `results`, and all of them agree. */
  ghost predicate Equivalent(s: seq<Recording>, p: Program, results: map<Hash, real>, tau: real) {
    && (exists r :: r in s && r.prog == p && r.dataHash in results)
    && (forall r :: r in s && r.prog == p ==> Matches(r, results, tau))
  }

  /** No recording of the program is on data in `results`, or the result of one that is lies
      further than the margin from the one given for its data. */
  ghost predicate Distinguished(s: seq<Recording>, p: Program, results: map<Hash, real>, tau: real) {
    || (forall i :: 0 <= i < |s| && s[i].prog == p ==> s[i].dataHash !in results)
    || (exists i :: 0 <= i < |s| && s[i].prog == p && s[i].dataHash in results
          && !(s[i].result - tau <= results[s[i].dataHash] <= s[i].result + tau))
  }

  lemma EquivalentIs(s: seq<Recording>, p: Program, results: map<Hash, real>, tau: real)
    ensures Distinguished(s, p, results, tau) <==> !Equivalent(s, p, results, tau)
  {
    assert forall i :: 0 <= i < |s| ==> s[i] in s;
  }

  ghost predicate Unique(s: seq<Recording>, results: map<Hash, real>, tau: real) {
    forall p :: !Equivalent(s, p, results, tau)
  }

  /** Unique within a margin is unique within any smaller one. */
  lemma SmallerMargin(s: seq<Recording>, results: map<Hash, real>, tau: real, smaller: real)
    requires smaller <= tau && Unique(s, results, tau)
    ensures Unique(s, results, smaller)
  {
    forall p
      ensures !Equivalent(s, p, results, smaller)
    {
      if Equivalent(s, p, results, smaller) {
        assert forall r :: r in s && r.prog == p ==> Matches(r, results, smaller) && Matches(r, results, tau);
        assert Equivalent(s, p, results, tau);
      }
    }
  }
}
