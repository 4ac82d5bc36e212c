/**
  The contention resolver: who contends at a rank, how the contenders for one
  room become single and pair candidates, and which candidate wins the room.
 */
module Contention {
  import opened Wrappers
  import opened Applicants
  import opened Scoring

  const SingleNote: string := "Tildelt fra \U{00F8}nskeliste"
  const PairNote: string := "Tildelt fra \U{00F8}nskeliste (par)"

  /** The note of an assignment won with group code `code`. */
  function NoteFor(code: string): string {
    if code == "" then SingleNote else PairNote
  }

  /** A contender for one room: one applicant, or two sharing a group code. */
  datatype Candidate = Candidate(members: seq<nat>, seniorityScore: int, roomPriorityScore: int, note: string)

  function ScoreOf(a: Applicant): Score {
    Score(a.seniority, a.currentRoomPriority)
  }

  function CandidateScore(c: Candidate): Score {
    Score(c.seniorityScore, c.roomPriorityScore)
  }

  /** `Candidate.single`: the applicant alone, ranked by its own sort key, with the solo note. */
  function Single(apps: seq<Applicant>, i: nat): (cand: Candidate)
    requires i < |apps|
    ensures cand.members == [i]
    ensures CandidateScore(cand) == ScoreOf(apps[i])
    ensures cand.note == NoteFor("")
  {
    Candidate([i], apps[i].seniority, apps[i].currentRoomPriority, SingleNote)
  }

  /** `Candidate.pair`: the two applicants in order, ranked by the sum of their sort keys, with the pair note. */
  function Pair(apps: seq<Applicant>, i: nat, j: nat): (cand: Candidate)
    requires i < |apps| && j < |apps|
    ensures cand.members == [i, j]
    ensures CandidateScore(cand) == Score(ScoreOf(apps[i]).seniority + ScoreOf(apps[j]).seniority,
                                          ScoreOf(apps[i]).priority + ScoreOf(apps[j]).priority)
    ensures forall code :: code != "" ==> cand.note == NoteFor(code)
  {
    Candidate([i, j], apps[i].seniority + apps[j].seniority,
              apps[i].currentRoomPriority + apps[j].currentRoomPriority, PairNote)
  }

  predicate Increasing(s: seq<nat>) {
    forall p, q :: 0 <= p < q < |s| ==> s[p] < s[q]
  }

  lemma IncreasingCons(x: nat, s: seq<nat>)
    requires Increasing(s)
    requires forall y :: y in s ==> x < y
    ensures Increasing([x] + s)
  {
    forall p, q | 0 <= p < q < |[x] + s| ensures ([x] + s)[p] < ([x] + s)[q] {
      assert ([x] + s)[q] == s[q - 1];
      if p > 0 {
        assert ([x] + s)[p] == s[p - 1];
      } else {
        assert s[q - 1] in s;
      }
    }
  }

  predicate NoDups<T(==)>(s: seq<T>) {
    forall p, q :: 0 <= p < q < |s| ==> s[p] != s[q]
  }

  /** Applicant `i` is still unassigned and its preference at `rank` names a room in the pool. */
  predicate Contends(apps: seq<Applicant>, rank: nat, pool: set<string>, unassigned: set<nat>, i: nat) {
    && i in unassigned
    && i < |apps|
    && rank < |apps[i].preferences|
    && apps[i].preferences[rank].room in pool
  }

  /**
    The applicants below `n` that contend at `rank` (the loop over
    `unassignedStates` that fills `roomSingles` and `roomPairs`), in
    increasing order.
   */
  function Contenders(apps: seq<Applicant>, rank: nat, pool: set<string>, unassigned: set<nat>, n: nat): (c: seq<nat>)
    requires n <= |apps|
    ensures forall i: nat :: i in c <==> i < n && Contends(apps, rank, pool, unassigned, i)
    ensures forall p :: 0 <= p < |c| ==> c[p] < n
    ensures Increasing(c)
  {
    if n == 0 then []
    else
      var c := Contenders(apps, rank, pool, unassigned, n - 1);
      if Contends(apps, rank, pool, unassigned, n - 1) then c + [n - 1] else c
  }

  /** Every index in `c` has a preference at `rank`. */
  predicate Ranked(apps: seq<Applicant>, rank: nat, c: seq<nat>) {
    forall i :: i in c ==> i < |apps| && rank < |apps[i].preferences|
  }

  function RoomOf(apps: seq<Applicant>, rank: nat, i: nat): string
    requires i < |apps| && rank < |apps[i].preferences|
  {
    apps[i].preferences[rank].room
  }

  function CodeOf(apps: seq<Applicant>, rank: nat, i: nat): string
    requires i < |apps| && rank < |apps[i].preferences|
  {
    apps[i].preferences[rank].groupCode
  }

  /** The contenders in `c` that ask for `room` with group code `code`. */
  function Group(apps: seq<Applicant>, rank: nat, c: seq<nat>, room: string, code: string): (g: seq<nat>)
    requires Ranked(apps, rank, c)
    ensures forall i :: i in g <==> i in c && RoomOf(apps, rank, i) == room && CodeOf(apps, rank, i) == code
    ensures Increasing(c) ==> Increasing(g)
  {
    if c == [] then []
    else
      assert c[0] in c && forall i :: i in c[1..] ==> i in c;
      var rest := Group(apps, rank, c[1..], room, code);
      if RoomOf(apps, rank, c[0]) == room && CodeOf(apps, rank, c[0]) == code then
        if Increasing(c) then
          assert forall i :: i in rest ==> c[0] < i by {
            forall i | i in rest ensures c[0] < i {
              var q :| 0 <= q < |c[1..]| && c[1..][q] == i;
              assert c[q + 1] == i;
            }
          }
          IncreasingCons(c[0], rest);
          [c[0]] + rest
        else [c[0]] + rest
      else rest
  }

  /** Keeps the first occurrence of every element. */
  function Dedup(s: seq<string>): (r: seq<string>)
    ensures forall x :: x in r <==> x in s
    ensures NoDups(r)
  {
    if s == [] then []
    else
      var r := Dedup(s[..|s| - 1]);
      var x := s[|s| - 1];
      assert forall y :: y in s <==> y in s[..|s| - 1] || y == x;
      if x in r then r else r + [x]
  }

  /** The rooms the contenders in `c` ask for, with repetitions. */
  function RoomList(apps: seq<Applicant>, rank: nat, c: seq<nat>): (rooms: seq<string>)
    requires Ranked(apps, rank, c)
    ensures forall r :: r in rooms <==> exists i :: i in c && RoomOf(apps, rank, i) == r
  {
    if c == [] then []
    else
      assert c[0] in c && forall i :: i in c[1..] ==> i in c;
      assert forall i :: i in c ==> i == c[0] || i in c[1..];
      [RoomOf(apps, rank, c[0])] + RoomList(apps, rank, c[1..])
  }

  /** The non-empty group codes the contenders in `c` use for `room`, with repetitions. */
  function CodeList(apps: seq<Applicant>, rank: nat, c: seq<nat>, room: string): (codes: seq<string>)
    requires Ranked(apps, rank, c)
    ensures forall g :: g in codes <==> g != "" && exists i :: i in c && RoomOf(apps, rank, i) == room && CodeOf(apps, rank, i) == g
  {
    if c == [] then []
    else
      assert c[0] in c && forall i :: i in c[1..] ==> i in c;
      assert forall i :: i in c ==> i == c[0] || i in c[1..];
      var rest := CodeList(apps, rank, c[1..], room);
      var code := CodeOf(apps, rank, c[0]);
      if RoomOf(apps, rank, c[0]) == room && code != "" then [code] + rest else rest
  }

  /** The rooms to process in a pass: each room some contender asks for, once. */
  function RoomsToProcess(apps: seq<Applicant>, rank: nat, c: seq<nat>): (rooms: seq<string>)
    requires Ranked(apps, rank, c)
    ensures NoDups(rooms)
    ensures forall r :: r in rooms <==> exists i :: i in c && RoomOf(apps, rank, i) == r
  {
    Dedup(RoomList(apps, rank, c))
  }

  /** The group codes used for `room`, each once. */
  function CodesAt(apps: seq<Applicant>, rank: nat, c: seq<nat>, room: string): (codes: seq<string>)
    requires Ranked(apps, rank, c)
    ensures NoDups(codes)
    ensures forall g :: g in codes <==> g != "" && exists i :: i in c && RoomOf(apps, rank, i) == room && CodeOf(apps, rank, i) == g
  {
    Dedup(CodeList(apps, rank, c, room))
  }

  /** `i` is at least as good as every member of `g`, and `j` as every member other than `i`. */
  predicate TopTwo(apps: seq<Applicant>, g: seq<nat>, i: nat, j: nat)
    requires i < |apps| && j < |apps|
  {
    && (forall x :: x in g && x < |apps| ==> !Beats(ScoreOf(apps[x]), ScoreOf(apps[i])))
    && (forall x :: x in g && x < |apps| && x != i ==> !Beats(ScoreOf(apps[x]), ScoreOf(apps[j])))
  }

  function Scores(apps: seq<Applicant>, g: seq<nat>): (s: seq<Score>)
    requires forall k :: 0 <= k < |g| ==> g[k] < |apps|
    ensures |s| == |g| && forall k :: 0 <= k < |g| ==> s[k] == ScoreOf(apps[g[k]])
  {
    seq(|g|, k requires 0 <= k < |g| => ScoreOf(apps[g[k]]))
  }

  lemma RemoveAtMembers(g: seq<nat>, k: nat)
    requires Increasing(g) && k < |g|
    ensures forall x :: x in g[..k] + g[k + 1..] <==> x in g && x != g[k]
  {
    var rest := g[..k] + g[k + 1..];
    forall x ensures x in rest <==> x in g && x != g[k] {
      if x in g && x != g[k] {
        var q :| 0 <= q < |g| && g[q] == x;
        if q < k { assert rest[q] == x; } else { assert rest[q - 1] == x; }
      }
      if x in rest {
        var q :| 0 <= q < |rest| && rest[q] == x;
        if q < k { assert g[q] == x; } else { assert g[q + 1] == x; }
      }
    }
  }

  /** `g` without its element at position `k`. */
  function RemoveAt(g: seq<nat>, k: nat): (r: seq<nat>)
    requires Increasing(g) && k < |g|
    ensures |r| == |g| - 1
    ensures forall x :: x in r <==> x in g && x != g[k]
    ensures forall q :: 0 <= q < |r| ==> r[q] in g
  {
    RemoveAtMembers(g, k);
    var r := g[..k] + g[k + 1..];
    assert forall q :: 0 <= q < |r| ==> r[q] in r;
    r
  }

  /** A best position of the scores of `g` holds a member nothing in `g` beats. */
  lemma BestMember(apps: seq<Applicant>, g: seq<nat>, k: nat)
    requires forall q :: 0 <= q < |g| ==> g[q] < |apps|
    requires IsBest(Scores(apps, g), k)
    ensures forall x :: x in g ==> !Beats(ScoreOf(apps[x]), ScoreOf(apps[g[k]]))
  {
    forall x | x in g ensures !Beats(ScoreOf(apps[x]), ScoreOf(apps[g[k]])) {
      var q :| 0 <= q < |g| && g[q] == x;
      assert Scores(apps, g)[q] == ScoreOf(apps[x]);
    }
  }

  /**
    The two members of a tag group that a shuffle followed by a stable sort
    puts first (`sorted.get(0)` and `sorted.get(1)`): the first is a best member, the
    second a best member among the others.
   */
  function PickPair(apps: seq<Applicant>, g: seq<nat>, roll1: nat, roll2: nat): (r: (nat, nat))
    requires |g| >= 2 && Increasing(g)
    requires forall i :: i in g ==> i < |apps|
    ensures r.0 in g && r.1 in g && r.0 != r.1
    ensures TopTwo(apps, g, r.0, r.1)
  {
    assert forall k :: 0 <= k < |g| ==> g[k] in g;
    var k1 := PickBest(Scores(apps, g), roll1);
    BestMember(apps, g, k1);
    var rest := RemoveAt(g, k1);
    assert forall k :: 0 <= k < |rest| ==> rest[k] in rest;
    var k2 := PickBest(Scores(apps, rest), roll2);
    BestMember(apps, rest, k2);
    assert rest[k2] in rest;
    (g[k1], rest[k2])
  }

  /** A member nothing in `g` beats sits at a best position of the scores of `g`. */
  lemma MemberIsBest(apps: seq<Applicant>, g: seq<nat>, k: nat)
    requires k < |g| && forall q :: 0 <= q < |g| ==> g[q] < |apps|
    requires forall x :: x in g && x < |apps| ==> !Beats(ScoreOf(apps[x]), ScoreOf(apps[g[k]]))
    ensures IsBest(Scores(apps, g), k)
  {
    assert forall q :: 0 <= q < |g| ==> g[q] in g;
  }

  /** A position of `x` in `g`. */
  lemma PositionOf<T>(g: seq<T>, x: T) returns (p: nat)
    requires x in g
    ensures p < |g| && g[p] == x
  {
    p :| 0 <= p < |g| && g[p] == x;
  }

  /** A member nothing in `g` beats is the first pick for some draw. */
  lemma DrawOf(apps: seq<Applicant>, g: seq<nat>, x: nat) returns (roll: nat, k: nat)
    requires forall q :: 0 <= q < |g| ==> g[q] < |apps|
    requires x in g && forall y :: y in g && y < |apps| ==> !Beats(ScoreOf(apps[y]), ScoreOf(apps[x]))
    ensures k < |g| && g[k] == x && PickBest(Scores(apps, g), roll) == k
  {
    k := PositionOf(g, x);
    MemberIsBest(apps, g, k);
    PickBestComplete(Scores(apps, g), k);
    roll :| PickBest(Scores(apps, g), roll) == k;
  }

  /** Every top-two choice of a tag group is the one drawn for some pair of draws. */
  lemma PickPairComplete(apps: seq<Applicant>, g: seq<nat>, i: nat, j: nat)
    requires |g| >= 2 && Increasing(g)
    requires forall x :: x in g ==> x < |apps|
    requires i in g && j in g && i != j && TopTwo(apps, g, i, j)
    ensures exists roll1: nat, roll2: nat :: PickPair(apps, g, roll1, roll2) == (i, j)
  {
    assert forall k :: 0 <= k < |g| ==> g[k] in g;
    var roll1, k1 := DrawOf(apps, g, i);
    var rest := RemoveAt(g, k1);
    var roll2, k2 := DrawOf(apps, rest, j);
    PickPairDraws(apps, g, roll1, roll2, k1, k2);
  }

  /** The pair drawn by two rolls, given the positions those rolls select. */
  lemma PickPairDraws(apps: seq<Applicant>, g: seq<nat>, roll1: nat, roll2: nat, k1: nat, k2: nat)
    requires |g| >= 2 && Increasing(g)
    requires forall x :: x in g ==> x < |apps|
    requires forall q :: 0 <= q < |g| ==> g[q] < |apps|
    requires k1 < |g| && k2 < |g| - 1
    ensures PickBest(Scores(apps, g), roll1) == k1 && PickBest(Scores(apps, RemoveAt(g, k1)), roll2) == k2 ==>
              PickPair(apps, g, roll1, roll2) == (g[k1], RemoveAt(g, k1)[k2])
  {
  }

  /** A single candidate for `room` built from one of the contenders `c`. */
  predicate ValidSingle(apps: seq<Applicant>, rank: nat, c: seq<nat>, room: string, cand: Candidate)
    requires Ranked(apps, rank, c)
  {
    && |cand.members| == 1
    && var i := cand.members[0];
    && i in c
    && RoomOf(apps, rank, i) == room
    && CodeOf(apps, rank, i) == ""
    && cand == Single(apps, i)
  }

  /**
    A pair candidate for `room`: two distinct contenders with the same
    non-empty group code, the top two of their group, scored by sums.
   */
  predicate ValidPair(apps: seq<Applicant>, rank: nat, c: seq<nat>, room: string, cand: Candidate)
    requires Ranked(apps, rank, c)
  {
    && |cand.members| == 2
    && var i := cand.members[0];
    && var j := cand.members[1];
    && i in c && j in c && i != j
    && RoomOf(apps, rank, i) == room && RoomOf(apps, rank, j) == room
    && CodeOf(apps, rank, i) != "" && CodeOf(apps, rank, j) == CodeOf(apps, rank, i)
    && cand.seniorityScore == apps[i].seniority + apps[j].seniority
    && cand.roomPriorityScore == apps[i].currentRoomPriority + apps[j].currentRoomPriority
    && cand.note == PairNote
    && TopTwo(apps, Group(apps, rank, c, room, CodeOf(apps, rank, i)), i, j)
  }

  predicate ValidCandidate(apps: seq<Applicant>, rank: nat, c: seq<nat>, room: string, cand: Candidate)
    requires Ranked(apps, rank, c)
  {
    ValidSingle(apps, rank, c, room, cand) || ValidPair(apps, rank, c, room, cand)
  }

  /**
    What recording a candidate needs to know: its members are contenders for
    `room`, there is at least one, and the note matches each member's code.
   */
  lemma CandidateMembers(apps: seq<Applicant>, rank: nat, c: seq<nat>, room: string, cand: Candidate)
    requires Ranked(apps, rank, c) && ValidCandidate(apps, rank, c, room, cand)
    ensures |cand.members| >= 1
    ensures forall i :: i in cand.members ==>
              i in c && RoomOf(apps, rank, i) == room && cand.note == NoteFor(CodeOf(apps, rank, i))
  {
    assert forall i :: i in cand.members ==> i == cand.members[0] || i == cand.members[|cand.members| - 1];
  }

  /** A candidate lists each member once. */
  lemma CandidateDistinct(apps: seq<Applicant>, rank: nat, c: seq<nat>, room: string, cand: Candidate)
    requires Ranked(apps, rank, c) && ValidCandidate(apps, rank, c, room, cand)
    ensures forall p, q :: 0 <= p < q < |cand.members| ==> cand.members[p] != cand.members[q]
  {
  }

  /** The pair candidate of a tag group with at least two members. */
  function PairOf(apps: seq<Applicant>, rank: nat, c: seq<nat>, room: string, code: string,
                  roll1: nat, roll2: nat): (cand: Candidate)
    requires Ranked(apps, rank, c) && Increasing(c) && code != ""
    requires |Group(apps, rank, c, room, code)| >= 2
    ensures ValidPair(apps, rank, c, room, cand)
    ensures cand.members[0] in Group(apps, rank, c, room, code)
  {
    var g := Group(apps, rank, c, room, code);
    var ij := PickPair(apps, g, roll1, roll2);
    Pair(apps, ij.0, ij.1)
  }

  /** Some two-member candidate of `cands` is headed by a member of the tag group `code`. */
  ghost predicate HasPairFrom(apps: seq<Applicant>, rank: nat, c: seq<nat>, room: string, code: string,
                              cands: seq<Candidate>)
    requires Ranked(apps, rank, c)
  {
    exists cand :: cand in cands && |cand.members| == 2 && cand.members[0] in Group(apps, rank, c, room, code)
  }

  lemma PairsCons(apps: seq<Applicant>, rank: nat, c: seq<nat>, room: string, codes: seq<string>,
                  cand: Candidate, rest: seq<Candidate>)
    requires Ranked(apps, rank, c) && codes != []
    requires |cand.members| == 2 && cand.members[0] in Group(apps, rank, c, room, codes[0])
    requires forall g :: g in codes[1..] && |Group(apps, rank, c, room, g)| >= 2 ==> HasPairFrom(apps, rank, c, room, g, rest)
    ensures forall g :: g in codes && |Group(apps, rank, c, room, g)| >= 2 ==> HasPairFrom(apps, rank, c, room, g, [cand] + rest)
  {
    assert cand in [cand] + rest;
    assert forall x :: x in rest ==> x in [cand] + rest;
    assert forall g :: g in codes ==> g == codes[0] || g in codes[1..];
  }

  /** One pair per group of at least two, for each code of `codes` in turn. */
  function PairsAt(apps: seq<Applicant>, rank: nat, c: seq<nat>, room: string, codes: seq<string>,
                   tick: nat, random: nat -> nat): (r: (seq<Candidate>, nat))
    requires Ranked(apps, rank, c) && Increasing(c)
    requires forall g :: g in codes ==> g != ""
    ensures forall cand :: cand in r.0 ==> ValidPair(apps, rank, c, room, cand)
    decreases |codes|
  {
    if codes == [] then ([], tick)
    else
      assert forall g :: g in codes[1..] ==> g in codes;
      var code := codes[0];
      assert code in codes;
      if |Group(apps, rank, c, room, code)| < 2 then PairsAt(apps, rank, c, room, codes[1..], tick, random)
      else
        var cand := PairOf(apps, rank, c, room, code, random(tick), random(tick + 1));
        var rest := PairsAt(apps, rank, c, room, codes[1..], tick + 2, random);
        ([cand] + rest.0, rest.1)
  }

  /** Every code of `codes` whose group has at least two members contributes a pair. */
  lemma {:induction false} PairsAtCover(apps: seq<Applicant>, rank: nat, c: seq<nat>, room: string,
                                        codes: seq<string>, tick: nat, random: nat -> nat)
    requires Ranked(apps, rank, c) && Increasing(c)
    requires forall g :: g in codes ==> g != ""
    ensures forall g :: g in codes && |Group(apps, rank, c, room, g)| >= 2 ==>
              HasPairFrom(apps, rank, c, room, g, PairsAt(apps, rank, c, room, codes, tick, random).0)
    decreases |codes|
  {
    if codes != [] {
      assert forall g :: g in codes[1..] ==> g in codes;
      assert forall g :: g in codes ==> g == codes[0] || g in codes[1..];
      var code := codes[0];
      assert code in codes;
      if |Group(apps, rank, c, room, code)| < 2 {
        PairsAtCover(apps, rank, c, room, codes[1..], tick, random);
      } else {
        var cand := PairOf(apps, rank, c, room, code, random(tick), random(tick + 1));
        PairsAtCover(apps, rank, c, room, codes[1..], tick + 2, random);
        var rest := PairsAt(apps, rank, c, room, codes[1..], tick + 2, random);
        PairsCons(apps, rank, c, room, codes, cand, rest.0);
      }
    }
  }

  /** No contender for `room` can form a candidate: no solo claim and no group of two. */
  predicate NoCandidate(apps: seq<Applicant>, rank: nat, c: seq<nat>, room: string)
    requires Ranked(apps, rank, c)
  {
    forall i :: i in c && RoomOf(apps, rank, i) == room ==>
      CodeOf(apps, rank, i) != "" && |Group(apps, rank, c, room, CodeOf(apps, rank, i))| < 2
  }

  /** Every single candidate for `room`: one per contender asking for it without a group code. */
  function Singles(apps: seq<Applicant>, rank: nat, c: seq<nat>, room: string): (s: seq<Candidate>)
    requires Ranked(apps, rank, c)
    ensures forall cand :: cand in s ==> ValidSingle(apps, rank, c, room, cand)
    ensures forall i :: i in c && RoomOf(apps, rank, i) == room && CodeOf(apps, rank, i) == "" ==>
              Single(apps, i) in s
  {
    var g := Group(apps, rank, c, room, "");
    assert forall k :: 0 <= k < |g| ==> g[k] in g;
    var s := seq(|g|, k requires 0 <= k < |g| => Single(apps, g[k]));
    assert forall i :: i in g ==> Single(apps, i) in s by {
      forall i | i in g ensures Single(apps, i) in s {
        var k :| 0 <= k < |g| && g[k] == i;
        assert s[k] == Single(apps, i);
      }
    }
    assert forall cand :: cand in s ==> ValidSingle(apps, rank, c, room, cand) by {
      forall cand | cand in s ensures ValidSingle(apps, rank, c, room, cand) {
        var k :| 0 <= k < |s| && s[k] == cand;
      }
    }
    s
  }

  /** A sequence holding two different values has at least two elements. */
  lemma TwoMembers(g: seq<nat>, i: nat, j: nat)
    requires i in g && j in g && i != j
    ensures |g| >= 2
  {
  }

  /** The `contenders` list of `room`: every single, then every pair. */
  function Candidates(apps: seq<Applicant>, rank: nat, c: seq<nat>, room: string,
                      tick: nat, random: nat -> nat): (r: (seq<Candidate>, nat))
    requires Ranked(apps, rank, c) && Increasing(c)
    ensures forall cand :: cand in r.0 ==> ValidCandidate(apps, rank, c, room, cand)
    ensures forall i :: i in c && RoomOf(apps, rank, i) == room && CodeOf(apps, rank, i) == "" ==>
              Single(apps, i) in r.0
    ensures forall g :: g != "" && |Group(apps, rank, c, room, g)| >= 2 ==>
              HasPairFrom(apps, rank, c, room, g, r.0)
  {
    var singles := Singles(apps, rank, c, room);
    var codes := CodesAt(apps, rank, c, room);
    var pairs := PairsAt(apps, rank, c, room, codes, tick, random);
    PairsAtCover(apps, rank, c, room, codes, tick, random);
    assert forall g :: g != "" && |Group(apps, rank, c, room, g)| >= 2 ==> g in codes by {
      forall g | g != "" && |Group(apps, rank, c, room, g)| >= 2 ensures g in codes {
        var i := Group(apps, rank, c, room, g)[0];
        assert i in Group(apps, rank, c, room, g);
      }
    }
    (singles + pairs.0, pairs.1)
  }

  /** The candidate list is empty exactly when no contender for `room` can form a candidate. */
  lemma CandidatesEmpty(apps: seq<Applicant>, rank: nat, c: seq<nat>, room: string,
                        tick: nat, random: nat -> nat)
    requires Ranked(apps, rank, c) && Increasing(c)
    ensures Candidates(apps, rank, c, room, tick, random).0 == [] <==> NoCandidate(apps, rank, c, room)
  {
    var cands := Candidates(apps, rank, c, room, tick, random).0;
    if cands != [] {
      var cand := cands[0];
      assert cand in cands;
      if ValidPair(apps, rank, c, room, cand) {
        var i := cand.members[0];
        var j := cand.members[1];
        TwoMembers(Group(apps, rank, c, room, CodeOf(apps, rank, i)), i, j);
      }
    }
  }

  /** A pair candidate only comes from a tag group with at least two members at the room. */
  lemma PairNeedsTwo(apps: seq<Applicant>, rank: nat, c: seq<nat>, room: string,
                     tick: nat, random: nat -> nat)
    requires Ranked(apps, rank, c) && Increasing(c)
    ensures forall cand :: cand in Candidates(apps, rank, c, room, tick, random).0 && |cand.members| == 2 ==>
              && CodeOf(apps, rank, cand.members[0]) != ""
              && |Group(apps, rank, c, room, CodeOf(apps, rank, cand.members[0]))| >= 2
  {
    forall cand | cand in Candidates(apps, rank, c, room, tick, random).0 && |cand.members| == 2
      ensures CodeOf(apps, rank, cand.members[0]) != ""
      ensures |Group(apps, rank, c, room, CodeOf(apps, rank, cand.members[0]))| >= 2
    {
      var i := cand.members[0];
      var j := cand.members[1];
      TwoMembers(Group(apps, rank, c, room, CodeOf(apps, rank, i)), i, j);
    }
  }

  function CandidateScores(cands: seq<Candidate>): (s: seq<Score>)
    ensures |s| == |cands| && forall k :: 0 <= k < |cands| ==> s[k] == CandidateScore(cands[k])
  {
    seq(|cands|, k requires 0 <= k < |cands| => CandidateScore(cands[k]))
  }

  /** A best position of the candidate scores holds a candidate nothing in the list beats. */
  lemma BestCandidate(cands: seq<Candidate>, k: nat)
    requires IsBest(CandidateScores(cands), k)
    ensures forall cand :: cand in cands ==> !Beats(CandidateScore(cand), CandidateScore(cands[k]))
  {
    forall cand | cand in cands ensures !Beats(CandidateScore(cand), CandidateScore(cands[k])) {
      var q :| 0 <= q < |cands| && cands[q] == cand;
      assert CandidateScores(cands)[q] == CandidateScore(cand);
    }
  }

  /**
    The first candidate after a shuffle and a stable sort on the scores
    (`contenders.getFirst()`): a candidate nothing in the list beats.
   */
  function Winner(cands: seq<Candidate>, roll: nat): (w: Candidate)
    requires cands != []
    ensures w in cands
    ensures forall cand :: cand in cands ==> !Beats(CandidateScore(cand), CandidateScore(w))
  {
    var k := PickBest(CandidateScores(cands), roll);
    BestCandidate(cands, k);
    cands[k]
  }

  /** Every candidate nothing in the list beats wins for some draw. */
  lemma WinnerComplete(cands: seq<Candidate>, w: Candidate)
    requires w in cands
    requires forall cand :: cand in cands ==> !Beats(CandidateScore(cand), CandidateScore(w))
    ensures exists roll: nat :: Winner(cands, roll) == w
  {
    var k :| 0 <= k < |cands| && cands[k] == w;
    assert forall q :: 0 <= q < |cands| ==> cands[q] in cands;
    assert IsBest(CandidateScores(cands), k);
    PickBestComplete(CandidateScores(cands), k);
    var roll: nat :| PickBest(CandidateScores(cands), roll) == k;
    assert Winner(cands, roll) == w;
  }

  /**
    The winner of `room` (`winner`, or the `continue` on an empty list): a
    candidate whose score no other candidate beats, or none when there is no
    candidate.
   */
  function Contest(apps: seq<Applicant>, rank: nat, c: seq<nat>, room: string,
                   tick: nat, random: nat -> nat): (r: (Option<Candidate>, nat))
    requires Ranked(apps, rank, c) && Increasing(c)
    ensures r.0.Some? ==> ValidCandidate(apps, rank, c, room, r.0.value)
    ensures r.0.Some? ==> forall cand :: cand in Candidates(apps, rank, c, room, tick, random).0 ==>
              !Beats(CandidateScore(cand), CandidateScore(r.0.value))
    ensures r.0.None? <==> NoCandidate(apps, rank, c, room)
  {
    var (cands, t) := Candidates(apps, rank, c, room, tick, random);
    CandidatesEmpty(apps, rank, c, room, tick, random);
    if cands == [] then (None, t)
    else
      (Some(Winner(cands, random(t))), t + 1)
  }
}
