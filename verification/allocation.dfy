/**
  The allocation loop of `RoomAllocationService.assign`: for each preference
  rank in turn, passes over the still unassigned applicants are repeated for
  as long as a pass frees a room that was not on offer before; every pass
  takes a snapshot of who contends for which room, resolves each room once,
  records the winners and updates the pool of free rooms.

  The service draws its tie-breaks from `java.util.Random` and iterates a
  `HashSet` of rooms; here both come from the draw stream `random`, read at
  the position `tick` that the state carries along.
 */
module Allocation {
  import opened Wrappers
  import opened Applicants
  import opened Scoring
  import opened Contention
  import opened Assignments

  const NoRoomNote: string := "Ingen ledige rom i \U{00F8}nsker"

  /**
    The working state: the rooms on offer, the indices of the applicants still
    without a room, the assignments made so far (a name-keyed map in insertion
    order), and the position in the draw stream.
   */
  datatype State = State(pool: set<string>, unassigned: set<nat>, placed: seq<Assignment>, tick: nat)

  /** `x` is what applicant `i` receives when its preference at rank `r` is granted. */
  predicate WishedAt(apps: seq<Applicant>, x: Assignment, i: int, r: int) {
    && 0 <= i < |apps|
    && 0 <= r < |apps[i].preferences|
    && x.name == apps[i].name
    && x.room == Some(apps[i].preferences[r].room)
    && x.note == NoteFor(apps[i].preferences[r].groupCode)
  }

  /** `x` grants some applicant one of its own preferences, with the matching note. */
  ghost predicate Wished(apps: seq<Applicant>, x: Assignment) {
    exists i, r :: WishedAt(apps, x, i, r)
  }

  /** The names of the applicants that are no longer waiting. */
  function AssignedNames(apps: seq<Applicant>, unassigned: set<nat>): set<string> {
    set i | 0 <= i < |apps| && i !in unassigned :: apps[i].name
  }

  predicate DistinctNames(apps: seq<Applicant>) {
    forall i, j :: 0 <= i < j < |apps| ==> apps[i].name != apps[j].name
  }

  /**
    What every state of the loop satisfies: the waiting set holds applicant
    indices, the map's keys are exactly the names of the applicants that left
    the waiting set, every entry grants one of its holder's preferences, and,
    when no two applicants share a name, the map and the waiting set together
    account for every applicant exactly once.
   */
  ghost predicate Consistent(apps: seq<Applicant>, st: State) {
    && (forall i :: i in st.unassigned ==> i < |apps|)
    && NamesDistinct(st.placed)
    && Names(st.placed) == AssignedNames(apps, st.unassigned)
    && (forall x :: x in st.placed ==> Wished(apps, x))
    && (DistinctNames(apps) ==> |st.placed| + |st.unassigned| == |apps|)
  }

  /** `assigned.put` and `unassignedStates.remove` for one member: the map gets its entry, the waiting set loses it. */
  function Record(apps: seq<Applicant>, st: State, i: nat, room: string, note: string): (r: State)
    requires i < |apps|
    ensures Get(r.placed, apps[i].name) == Some(Assignment(apps[i].name, Some(room), note))
    ensures forall n :: n != apps[i].name ==> Get(r.placed, n) == Get(st.placed, n)
    ensures apps[i].name !in Names(st.placed) ==> r.placed == st.placed + [Assignment(apps[i].name, Some(room), note)]
    ensures r.unassigned == st.unassigned - {i}
    ensures r.pool == st.pool && r.tick == st.tick
  {
    var x := Assignment(apps[i].name, Some(room), note);
    PutGet(st.placed, x, x.name);
    forall n | n != x.name ensures Get(Put(st.placed, x), n) == Get(st.placed, n) {
      PutGet(st.placed, x, n);
    }
    st.(placed := Put(st.placed, x), unassigned := st.unassigned - {i})
  }

  lemma AssignedNamesRemove(apps: seq<Applicant>, u: set<nat>, i: nat)
    requires i < |apps|
    ensures AssignedNames(apps, u - {i}) == AssignedNames(apps, u) + {apps[i].name}
  {
    assert apps[i].name in AssignedNames(apps, u - {i});
  }

  /** A waiting applicant's name is not a key yet when names are distinct. */
  lemma WaitingNameFree(apps: seq<Applicant>, u: set<nat>, i: nat)
    requires DistinctNames(apps) && i < |apps| && i in u
    ensures apps[i].name !in AssignedNames(apps, u)
  {
    forall j | 0 <= j < |apps| && j !in u ensures apps[j].name != apps[i].name {
      assert i != j;
      if i < j { assert apps[i].name != apps[j].name; } else { assert apps[j].name != apps[i].name; }
    }
  }

  /** Recording a granted preference keeps the state consistent. */
  lemma RecordConsistent(apps: seq<Applicant>, st: State, i: nat, room: string, note: string)
    requires Consistent(apps, st) && i < |apps|
    requires Wished(apps, Assignment(apps[i].name, Some(room), note))
    ensures Consistent(apps, Record(apps, st, i, room, note))
  {
    var x := Assignment(apps[i].name, Some(room), note);
    var r := Record(apps, st, i, room, note);
    PutDistinct(st.placed, x);
    AssignedNamesRemove(apps, st.unassigned, i);
    if DistinctNames(apps) {
      if i in st.unassigned {
        WaitingNameFree(apps, st.unassigned, i);
        assert |r.unassigned| == |st.unassigned| - 1;
      } else {
        assert r.unassigned == st.unassigned;
      }
    }
  }

  /** The loop over `winner.members` that records the winners: every member is recorded, in order. */
  function RecordAll(apps: seq<Applicant>, st: State, members: seq<nat>, room: string, note: string): (r: State)
    requires forall i :: i in members ==> i < |apps|
    ensures forall i :: i in members ==> Get(r.placed, apps[i].name) == Some(Assignment(apps[i].name, Some(room), note))
    ensures r.unassigned == st.unassigned - (set i | i in members)
    ensures r.pool == st.pool && r.tick == st.tick
    decreases |members|
  {
    if members == [] then st
    else
      var init := members[..|members| - 1];
      var last := members[|members| - 1];
      assert forall i :: i in members <==> i in init || i == last;
      assert last in members;
      var mid := RecordAll(apps, st, init, room, note);
      var x := Assignment(apps[last].name, Some(room), note);
      assert forall i :: i in init ==> Get(Put(mid.placed, x), apps[i].name) == Some(Assignment(apps[i].name, Some(room), note)) by {
        forall i | i in init {
          PutGet(mid.placed, x, apps[i].name);
        }
      }
      Record(apps, mid, last, room, note)
  }

  lemma {:induction false} RecordAllConsistent(apps: seq<Applicant>, st: State, members: seq<nat>, room: string, note: string)
    requires Consistent(apps, st)
    requires forall i :: i in members ==> i < |apps| && Wished(apps, Assignment(apps[i].name, Some(room), note))
    ensures Consistent(apps, RecordAll(apps, st, members, room, note))
    decreases |members|
  {
    if members != [] {
      var init := members[..|members| - 1];
      var last := members[|members| - 1];
      assert forall i :: i in init ==> i in members;
      assert last in members;
      RecordAllConsistent(apps, st, init, room, note);
      RecordConsistent(apps, RecordAll(apps, st, init, room, note), last, room, note);
    }
  }

  /** Every member is an applicant index. */
  predicate Indexed(apps: seq<Applicant>, members: seq<nat>) {
    forall p :: 0 <= p < |members| ==> members[p] < |apps|
  }

  /** The entries recording `members` in order adds, one per member. */
  function Entries(apps: seq<Applicant>, members: seq<nat>, room: string, note: string): (es: seq<Assignment>)
    requires Indexed(apps, members)
    ensures |es| == |members|
    ensures forall p :: 0 <= p < |members| ==> es[p] == Assignment(apps[members[p]].name, Some(room), note)
  {
    seq(|members|, p requires 0 <= p < |members| => Assignment(apps[members[p]].name, Some(room), note))
  }

  /** The members' names are pairwise distinct and none is a key of `placed` yet. */
  predicate FreshNames(apps: seq<Applicant>, placed: seq<Assignment>, members: seq<nat>)
    requires Indexed(apps, members)
  {
    && (forall p :: 0 <= p < |members| ==> apps[members[p]].name !in Names(placed))
    && (forall p, q :: 0 <= p < q < |members| ==> apps[members[p]].name != apps[members[q]].name)
  }

  /** Recording the members leaves the entry under every other name as it was. */
  lemma {:induction false} RecordAllFrame(apps: seq<Applicant>, st: State, members: seq<nat>, room: string,
                                          note: string, n: string)
    requires forall i :: i in members ==> i < |apps| && apps[i].name != n
    ensures Get(RecordAll(apps, st, members, room, note).placed, n) == Get(st.placed, n)
    decreases |members|
  {
    if members != [] {
      var init := members[..|members| - 1];
      assert forall i :: i in init ==> i in members;
      assert members[|members| - 1] in members;
      RecordAllFrame(apps, st, init, room, note, n);
    }
  }

  /** The entries of `members` are those of all but the last member, then the last member's entry. */
  lemma EntriesSnoc(apps: seq<Applicant>, members: seq<nat>, room: string, note: string)
    requires members != [] && Indexed(apps, members)
    ensures var init := members[..|members| - 1];
            var last := members[|members| - 1];
            Indexed(apps, init) &&
            Entries(apps, members, room, note) == Entries(apps, init, room, note) + [Assignment(apps[last].name, Some(room), note)]
  {
  }

  /** A name that is neither a key of `placed` nor a member's name is not a key after appending the entries. */
  lemma FreshAfterEntries(apps: seq<Applicant>, placed: seq<Assignment>, init: seq<nat>, room: string, note: string, n: string)
    requires Indexed(apps, init)
    requires n !in Names(placed) && forall p :: 0 <= p < |init| ==> apps[init[p]].name != n
    ensures n !in Names(placed + Entries(apps, init, room, note))
  {
  }

  /** Recording `members` is recording all but the last member, then recording the last. */
  lemma RecordAllSnoc(apps: seq<Applicant>, st: State, members: seq<nat>, room: string, note: string)
    requires members != [] && Indexed(apps, members)
    ensures var init := members[..|members| - 1];
            var last := members[|members| - 1];
            (forall i :: i in init ==> i < |apps|) && last < |apps| &&
            RecordAll(apps, st, members, room, note) == Record(apps, RecordAll(apps, st, init, room, note), last, room, note)
  {
  }

  /** Fresh names stay fresh without the last member, whose name is no key and differs from the others' names. */
  lemma FreshNamesInit(apps: seq<Applicant>, placed: seq<Assignment>, members: seq<nat>)
    requires members != [] && Indexed(apps, members) && FreshNames(apps, placed, members)
    ensures var init := members[..|members| - 1];
            var last := members[|members| - 1];
            && Indexed(apps, init) && FreshNames(apps, placed, init)
            && apps[last].name !in Names(placed)
            && forall p :: 0 <= p < |init| ==> apps[init[p]].name != apps[last].name
  {
  }

  lemma RecordAllAppendsStep(apps: seq<Applicant>, st: State, members: seq<nat>, room: string, note: string)
    requires members != [] && Indexed(apps, members)
    ensures var init := members[..|members| - 1];
            var last := members[|members| - 1];
            && Indexed(apps, init)
            && (RecordAll(apps, st, init, room, note).placed == st.placed + Entries(apps, init, room, note)
                && apps[last].name !in Names(st.placed)
                && (forall p :: 0 <= p < |init| ==> apps[init[p]].name != apps[last].name) ==>
                  RecordAll(apps, st, members, room, note).placed == st.placed + Entries(apps, members, room, note))
  {
    var init := members[..|members| - 1];
    var last := members[|members| - 1];
    var x := Assignment(apps[last].name, Some(room), note);
    var es := Entries(apps, init, room, note);
    EntriesSnoc(apps, members, room, note);
    if RecordAll(apps, st, init, room, note).placed == st.placed + es
       && apps[last].name !in Names(st.placed)
       && forall p :: 0 <= p < |init| ==> apps[init[p]].name != apps[last].name {
      RecordAllSnoc(apps, st, members, room, note);
      FreshAfterEntries(apps, st.placed, init, room, note, apps[last].name);
      AppendAssoc(st.placed, es, [x]);
    }
  }

  /**
    Recording members whose names are distinct and not yet keys appends one
    entry per member to the map, in member order.
   */
  lemma {:induction false} RecordAllAppends(apps: seq<Applicant>, st: State, members: seq<nat>, room: string, note: string)
    requires Indexed(apps, members)
    requires FreshNames(apps, st.placed, members)
    ensures RecordAll(apps, st, members, room, note).placed == st.placed + Entries(apps, members, room, note)
    decreases |members|
  {
    if members != [] {
      FreshNamesInit(apps, st.placed, members);
      RecordAllAppends(apps, st, members[..|members| - 1], room, note);
      RecordAllAppendsStep(apps, st, members, room, note);
    }
  }

  /** What recording the members does to the map: the frame, and the append when the names are fresh. */
  lemma RecordAllPlaced(apps: seq<Applicant>, st: State, members: seq<nat>, room: string, note: string)
    requires Indexed(apps, members)
    ensures var r := RecordAll(apps, st, members, room, note);
            forall n :: (forall i :: i in members ==> apps[i].name != n) ==> Get(r.placed, n) == Get(st.placed, n)
    ensures FreshNames(apps, st.placed, members) ==>
              RecordAll(apps, st, members, room, note).placed == st.placed + Entries(apps, members, room, note)
  {
    assert forall i :: i in members ==> i < |apps|;
    forall n | forall i :: i in members ==> apps[i].name != n
      ensures Get(RecordAll(apps, st, members, room, note).placed, n) == Get(st.placed, n)
    {
      RecordAllFrame(apps, st, members, room, note, n);
    }
    if FreshNames(apps, st.placed, members) {
      RecordAllAppends(apps, st, members, room, note);
    }
  }

  /** The rooms the members give up: their non-empty current rooms other than the room they won. */
  function Vacated(apps: seq<Applicant>, members: seq<nat>, room: string): set<string> {
    set i | i in members && i < |apps| && apps[i].currentRoom != "" && apps[i].currentRoom != room :: apps[i].currentRoom
  }

  /**
    The loop over `winner.members` that offers the vacated rooms: each
    member's vacated room is added to `availableRooms`, and the flag
    (`newRoomsAdded`) reports whether any of them was not on offer already.
   */
  function Vacate(apps: seq<Applicant>, pool: set<string>, members: seq<nat>, room: string): (r: (set<string>, bool))
    ensures r.0 == pool + Vacated(apps, members, room)
    ensures r.1 <==> r.0 != pool
    decreases |members|
  {
    if members == [] then (pool, false)
    else
      var i := members[0];
      var rest := members[1..];
      assert forall j :: j in members <==> j == i || j in rest;
      if i < |apps| && apps[i].currentRoom != "" && apps[i].currentRoom != room then
        var grown := pool + {apps[i].currentRoom};
        var (p, added) := Vacate(apps, grown, rest, room);
        (p, grown != pool || added)
      else
        Vacate(apps, pool, rest, room)
  }

  /**
    What happens to the winner of `room`: it is recorded, the room
    leaves the pool, the rooms its members vacate join it, and the flag says
    whether the pool gained a room it did not hold before.
   */
  function Award(apps: seq<Applicant>, rank: nat, c: seq<nat>, room: string, cand: Candidate, st: State): (r: (State, bool))
    requires Ranked(apps, rank, c) && ValidCandidate(apps, rank, c, room, cand)
    ensures forall i :: i in cand.members ==>
              Get(r.0.placed, apps[i].name) == Some(Assignment(apps[i].name, Some(room), cand.note))
    ensures r.0.unassigned == st.unassigned - MemberSet(cand)
    ensures r.0.pool == (st.pool - {room}) + Vacated(apps, cand.members, room)
    ensures r.1 <==> r.0.pool != st.pool - {room}
    ensures r.0.tick == st.tick
  {
    CandidateMembers(apps, rank, c, room, cand);
    var st1 := RecordAll(apps, st, cand.members, room, cand.note);
    var (pool, grew) := Vacate(apps, st1.pool - {room}, cand.members, room);
    (st1.(pool := pool), grew)
  }

  /** An award leaves the map that `RecordAll` makes of the candidate's members. */
  lemma AwardRecords(apps: seq<Applicant>, rank: nat, c: seq<nat>, room: string, cand: Candidate, st: State)
    requires Ranked(apps, rank, c) && ValidCandidate(apps, rank, c, room, cand)
    ensures forall i :: i in cand.members ==> i < |apps|
    ensures Award(apps, rank, c, room, cand, st).0.placed == RecordAll(apps, st, cand.members, room, cand.note).placed
  {
    CandidateMembers(apps, rank, c, room, cand);
  }

  /**
    What an award does to the map: the entry under every name other than the
    members' stays as it was, and when the members' names are distinct and
    not keys yet, one entry per member is appended, in member order.
   */
  lemma AwardPlaced(apps: seq<Applicant>, rank: nat, c: seq<nat>, room: string, cand: Candidate, st: State)
    requires Ranked(apps, rank, c) && ValidCandidate(apps, rank, c, room, cand)
    ensures var r := Award(apps, rank, c, room, cand, st).0;
            forall n :: (forall i :: i in cand.members ==> apps[i].name != n) ==> Get(r.placed, n) == Get(st.placed, n)
    ensures Indexed(apps, cand.members)
    ensures FreshNames(apps, st.placed, cand.members) ==>
              Award(apps, rank, c, room, cand, st).0.placed == st.placed + Entries(apps, cand.members, room, cand.note)
  {
    AwardRecords(apps, rank, c, room, cand, st);
    assert forall p :: 0 <= p < |cand.members| ==> cand.members[p] in cand.members;
    RecordAllPlaced(apps, st, cand.members, room, cand.note);
  }

  /** Waiting applicants at distinct indices have fresh names when no two applicants share a name. */
  lemma FreshWaiting(apps: seq<Applicant>, placed: seq<Assignment>, u: set<nat>, members: seq<nat>)
    requires DistinctNames(apps) && Names(placed) == AssignedNames(apps, u) && Indexed(apps, members)
    requires forall p :: 0 <= p < |members| ==> members[p] in u
    requires forall p, q :: 0 <= p < q < |members| ==> members[p] != members[q]
    ensures FreshNames(apps, placed, members)
  {
    forall p | 0 <= p < |members| ensures apps[members[p]].name !in Names(placed) {
      WaitingNameFree(apps, u, members[p]);
    }
    forall p, q | 0 <= p < q < |members| ensures apps[members[p]].name != apps[members[q]].name {
      var i, j := members[p], members[q];
      if i < j { assert apps[i].name != apps[j].name; } else { assert apps[j].name != apps[i].name; }
    }
  }

  /** With distinct names, a candidate whose members are all waiting has names that are not keys yet. */
  lemma AwardFresh(apps: seq<Applicant>, rank: nat, c: seq<nat>, room: string, cand: Candidate, st: State)
    requires Ranked(apps, rank, c) && ValidCandidate(apps, rank, c, room, cand)
    ensures Indexed(apps, cand.members)
    ensures DistinctNames(apps) && Names(st.placed) == AssignedNames(apps, st.unassigned) &&
            (forall i :: i in cand.members ==> i in st.unassigned) ==>
              FreshNames(apps, st.placed, cand.members)
  {
    CandidateMembers(apps, rank, c, room, cand);
    CandidateDistinct(apps, rank, c, room, cand);
    var m := cand.members;
    assert forall p :: 0 <= p < |m| ==> m[p] in m;
    if DistinctNames(apps) && Names(st.placed) == AssignedNames(apps, st.unassigned) &&
       forall i :: i in m ==> i in st.unassigned {
      FreshWaiting(apps, st.placed, st.unassigned, m);
    }
  }

  /** With distinct names, awarding a room to waiting members keeps every earlier entry in place. */
  lemma AwardAppends(apps: seq<Applicant>, rank: nat, c: seq<nat>, room: string, cand: Candidate, st: State)
    requires Ranked(apps, rank, c) && ValidCandidate(apps, rank, c, room, cand)
    requires DistinctNames(apps) && Names(st.placed) == AssignedNames(apps, st.unassigned)
    requires forall i :: i in c && RoomOf(apps, rank, i) == room ==> i in st.unassigned
    ensures st.placed <= Award(apps, rank, c, room, cand, st).0.placed
  {
    CandidateMembers(apps, rank, c, room, cand);
    AwardFresh(apps, rank, c, room, cand, st);
    AwardPlaced(apps, rank, c, room, cand, st);
  }

  /** Awarding a room to a candidate of the contest keeps the state consistent. */
  lemma AwardConsistent(apps: seq<Applicant>, rank: nat, c: seq<nat>, room: string, cand: Candidate, st: State)
    requires Ranked(apps, rank, c) && ValidCandidate(apps, rank, c, room, cand)
    ensures Consistent(apps, st) ==> Consistent(apps, Award(apps, rank, c, room, cand, st).0)
  {
    if Consistent(apps, st) {
      CandidateMembers(apps, rank, c, room, cand);
      forall i | i in cand.members ensures Wished(apps, Assignment(apps[i].name, Some(room), cand.note)) {
        assert WishedAt(apps, Assignment(apps[i].name, Some(room), cand.note), i, rank);
      }
      RecordAllConsistent(apps, st, cand.members, room, cand.note);
    }
  }

  function MemberSet(cand: Candidate): set<nat> {
    set i | i in cand.members
  }

  lemma RemovalShrinks(u: set<nat>, s: set<nat>, x: nat)
    requires x in u && x in s
    ensures |u - s| < |u|
  {
    SubsetCard(u - s, u - {x});
  }

  lemma {:induction false} SubsetCard(a: set<nat>, b: set<nat>)
    requires a <= b
    ensures |a| <= |b|
    decreases |a|
  {
    if a != {} {
      var y :| y in a;
      SubsetCard(a - {y}, b - {y});
    }
  }

  /** The award's flag is raised exactly when a room not on offer before the award is on offer after it. */
  lemma AwardFlag(apps: seq<Applicant>, rank: nat, c: seq<nat>, room: string, cand: Candidate, st: State)
    requires Ranked(apps, rank, c) && ValidCandidate(apps, rank, c, room, cand)
    requires room in st.pool
    ensures var r := Award(apps, rank, c, room, cand, st);
            r.1 <==> exists x :: x in r.0.pool && x !in st.pool
  {
    var r := Award(apps, rank, c, room, cand, st);
    if r.1 {
      var x :| x in r.0.pool && x !in st.pool - {room};
      assert x in Vacated(apps, cand.members, room);
    }
  }

  /** Consistency does not depend on the position in the draw stream. */
  lemma ConsistentTick(apps: seq<Applicant>, st: State, t: nat)
    ensures Consistent(apps, st.(tick := t)) <==> Consistent(apps, st)
  {
  }

  /** A winner whose members were all waiting leaves fewer applicants waiting. */
  lemma AwardShrinks(apps: seq<Applicant>, rank: nat, c: seq<nat>, room: string, cand: Candidate, st: State)
    requires Ranked(apps, rank, c) && ValidCandidate(apps, rank, c, room, cand)
    requires forall i :: i in c && RoomOf(apps, rank, i) == room ==> i in st.unassigned
    ensures |Award(apps, rank, c, room, cand, st).0.unassigned| < |st.unassigned|
  {
    CandidateMembers(apps, rank, c, room, cand);
    assert cand.members[0] in cand.members;
    RemovalShrinks(st.unassigned, MemberSet(cand), cand.members[0]);
  }

  /**
    One iteration of `for (String room : roomsToProcess)` over the snapshot
    `c`: a room no longer on offer is skipped; otherwise the room is contested and, when it
    has a winner, awarded. Only contenders for this room leave the waiting set.
   */
  function Step(apps: seq<Applicant>, rank: nat, c: seq<nat>, room: string, st: State,
                random: nat -> nat): (r: (State, bool))
    requires Ranked(apps, rank, c) && Increasing(c)
    ensures room !in st.pool ==> r == (st, false)
    ensures r.1 <==> exists x :: x in r.0.pool && x !in st.pool
    ensures room in r.0.pool ==> NoCandidate(apps, rank, c, room)
    ensures r.0.unassigned <= st.unassigned
    ensures forall i :: i in st.unassigned && i !in r.0.unassigned ==> i in c && RoomOf(apps, rank, i) == room
    ensures r.1 && (forall i :: i in c && RoomOf(apps, rank, i) == room ==> i in st.unassigned) ==>
              |r.0.unassigned| < |st.unassigned|
    ensures Consistent(apps, st) ==> Consistent(apps, r.0)
  {
    if room !in st.pool then (st, false)
    else
      var (winner, t) := Contest(apps, rank, c, room, st.tick, random);
      ConsistentTick(apps, st, t);
      match winner
      case None => (st.(tick := t), false)
      case Some(cand) =>
        var st0 := st.(tick := t);
        CandidateMembers(apps, rank, c, room, cand);
        AwardConsistent(apps, rank, c, room, cand, st0);
        AwardFlag(apps, rank, c, room, cand, st0);
        if forall i :: i in c && RoomOf(apps, rank, i) == room ==> i in st.unassigned then
          AwardShrinks(apps, rank, c, room, cand, st0);
          Award(apps, rank, c, room, cand, st0)
        else
          Award(apps, rank, c, room, cand, st0)
  }

  /**
    When no two applicants share a name and the room's contenders are all
    waiting, a step only appends to the map: what was recorded before stays,
    in place, at the front.
   */
  lemma StepAppends(apps: seq<Applicant>, rank: nat, c: seq<nat>, room: string, st: State, random: nat -> nat)
    requires Ranked(apps, rank, c) && Increasing(c)
    requires DistinctNames(apps) && Consistent(apps, st)
    requires forall i :: i in c && RoomOf(apps, rank, i) == room ==> i in st.unassigned
    ensures st.placed <= Step(apps, rank, c, room, st, random).0.placed
  {
    if room in st.pool {
      var (winner, t) := Contest(apps, rank, c, room, st.tick, random);
      if winner.Some? {
        var st0 := st.(tick := t);
        AwardAppends(apps, rank, c, room, winner.value, st0);
        assert Step(apps, rank, c, room, st, random).0 == Award(apps, rank, c, room, winner.value, st0).0;
      }
    }
  }

  /**
    The loop `for (String room : roomsToProcess)`: the rooms of the snapshot
    `c`, each handled once in the given order. The flag is `added` or-ed with every award's flag.
   */
  function ProcessRooms(apps: seq<Applicant>, rank: nat, c: seq<nat>, rooms: seq<string>, st: State,
                        added: bool, random: nat -> nat): (r: (State, bool))
    requires Ranked(apps, rank, c) && Increasing(c) && NoDups(rooms)
    requires forall i :: i in c && RoomOf(apps, rank, i) in rooms ==> i in st.unassigned
    ensures r.0.unassigned <= st.unassigned
    ensures forall i :: i in st.unassigned && i !in r.0.unassigned ==> i in c
    ensures added ==> r.1
    ensures r.1 ==> added || |r.0.unassigned| < |st.unassigned|
    ensures Consistent(apps, st) ==> Consistent(apps, r.0)
    decreases |rooms|
  {
    if rooms == [] then (st, added)
    else
      var room := rooms[0];
      var rest := rooms[1..];
      assert room in rooms && room !in rest && NoDups(rest) && forall x :: x in rest ==> x in rooms by {
        forall x | x in rest ensures x != room {
          var q :| 0 <= q < |rest| && rest[q] == x;
          assert rooms[q + 1] == x;
        }
      }
      var (st1, grew) := Step(apps, rank, c, room, st, random);
      assert grew ==> |st1.unassigned| < |st.unassigned|;
      SubsetCard(st1.unassigned, st.unassigned);
      var r := ProcessRooms(apps, rank, c, rest, st1, added || grew, random);
      SubsetCard(r.0.unassigned, st1.unassigned);
      r
  }

  /** With distinct names, handling the rooms of a snapshot only appends to the map. */
  lemma {:induction false} ProcessRoomsAppends(apps: seq<Applicant>, rank: nat, c: seq<nat>, rooms: seq<string>,
                                               st: State, added: bool, random: nat -> nat)
    requires Ranked(apps, rank, c) && Increasing(c) && NoDups(rooms)
    requires forall i :: i in c && RoomOf(apps, rank, i) in rooms ==> i in st.unassigned
    requires DistinctNames(apps) && Consistent(apps, st)
    ensures st.placed <= ProcessRooms(apps, rank, c, rooms, st, added, random).0.placed
    decreases |rooms|
  {
    if rooms != [] {
      var room := rooms[0];
      var rest := rooms[1..];
      assert room in rooms && room !in rest && NoDups(rest) && forall x :: x in rest ==> x in rooms by {
        forall x | x in rest ensures x != room {
          var q :| 0 <= q < |rest| && rest[q] == x;
          assert rooms[q + 1] == x;
        }
      }
      var (st1, grew) := Step(apps, rank, c, room, st, random);
      StepAppends(apps, rank, c, room, st, random);
      ProcessRoomsAppends(apps, rank, c, rest, st1, added || grew, random);
    }
  }

  /** The iteration order of the `roomsToProcess` hash set: the distinct rooms of a pass, in an order drawn from the stream. */
  function Shuffle(xs: seq<string>, tick: nat, random: nat -> nat): (r: (seq<string>, nat))
    ensures |r.0| == |xs|
    ensures forall x :: x in r.0 <==> x in xs
    ensures NoDups(xs) ==> NoDups(r.0)
    decreases |xs|
  {
    if xs == [] then ([], tick)
    else
      var k := random(tick) % |xs|;
      var others := xs[..k] + xs[k + 1..];
      RemoveAtStrings(xs, k);
      var rest := Shuffle(others, tick + 1, random);
      ShuffleStep(xs, k, rest.0);
      ([xs[k]] + rest.0, rest.1)
  }

  lemma RemoveAtStrings(xs: seq<string>, k: nat)
    requires k < |xs|
    ensures forall x :: x in xs[..k] + xs[k + 1..] ==> x in xs
    ensures forall x :: x in xs && x != xs[k] ==> x in xs[..k] + xs[k + 1..]
    ensures NoDups(xs) ==> NoDups(xs[..k] + xs[k + 1..]) && xs[k] !in xs[..k] + xs[k + 1..]
  {
    var others := xs[..k] + xs[k + 1..];
    assert forall q :: 0 <= q < |others| ==> others[q] == if q < k then xs[q] else xs[q + 1];
    forall x | x in xs && x != xs[k] ensures x in others {
      var q :| 0 <= q < |xs| && xs[q] == x;
      if q < k { assert others[q] == x; } else { assert others[q - 1] == x; }
    }
  }

  lemma ShuffleStep(xs: seq<string>, k: nat, rest: seq<string>)
    requires k < |xs|
    requires forall x :: x in rest <==> x in xs[..k] + xs[k + 1..]
    requires NoDups(xs[..k] + xs[k + 1..]) ==> NoDups(rest)
    ensures NoDups(xs) ==> NoDups([xs[k]] + rest)
  {
    RemoveAtStrings(xs, k);
    if NoDups(xs) {
      ConsNoDups(xs[k], rest);
    }
  }

  lemma ConsNoDups(x: string, s: seq<string>)
    requires NoDups(s) && x !in s
    ensures NoDups([x] + s)
  {
    var r := [x] + s;
    forall p, q | 0 <= p < q < |r| ensures r[p] != r[q] {
      assert r[q] == s[q - 1];
      if p == 0 { assert s[q - 1] in s; } else { assert r[p] == s[p - 1]; }
    }
  }

  /** `Shuffle` reads the stream only at the positions `tick` .. `tick + |xs| - 1`. */
  lemma {:induction false} ShuffleFrame(xs: seq<string>, tick: nat, r1: nat -> nat, r2: nat -> nat)
    requires forall t :: tick <= t < tick + |xs| ==> r1(t) == r2(t)
    ensures Shuffle(xs, tick, r1) == Shuffle(xs, tick, r2)
    decreases |xs|
  {
    if xs != [] {
      assert r1(tick) == r2(tick);
      var k := r1(tick) % |xs|;
      ShuffleFrame(xs[..k] + xs[k + 1..], tick + 1, r1, r2);
    }
  }

  lemma TailMembers(o: seq<string>)
    requires NoDups(o) && o != []
    ensures NoDups(o[1..])
    ensures forall x :: x in o[1..] <==> x in o && x != o[0]
  {
    forall x | x in o[1..] ensures x != o[0] {
      var q :| 0 <= q < |o[1..]| && o[1..][q] == x;
      assert o[q + 1] == x;
    }
    assert forall x :: x in o ==> x == o[0] || x in o[1..];
  }

  /** A stream that draws `k` at `tick` puts `xs[k]` first. */
  lemma ShuffleHead(xs: seq<string>, tick: nat, random: nat -> nat, k: nat)
    requires k < |xs| && random(tick) == k
    ensures Shuffle(xs, tick, random).0 == [xs[k]] + Shuffle(xs[..k] + xs[k + 1..], tick + 1, random).0
  {
    assert random(tick) % |xs| == k;
  }

  /** `[o[0]] + o[1..] == o`. */
  lemma HeadTail(o: seq<string>)
    requires o != []
    ensures [o[0]] + o[1..] == o
  {
  }

  /** Every ordering of a list of distinct rooms is the order drawn for some stream. */
  lemma {:induction false} ShuffleComplete(xs: seq<string>, o: seq<string>, tick: nat)
    requires NoDups(xs) && NoDups(o) && |o| == |xs|
    requires forall x :: x in o <==> x in xs
    ensures exists random: nat -> nat :: Shuffle(xs, tick, random).0 == o
    decreases |xs|
  {
    if xs == [] {
      var random: nat -> nat := t => 0;
      assert Shuffle(xs, tick, random).0 == o;
    } else {
      assert o[0] in o;
      var k := PositionOf(xs, o[0]);
      var others := xs[..k] + xs[k + 1..];
      RemoveAtStrings(xs, k);
      TailMembers(o);
      ShuffleComplete(others, o[1..], tick + 1);
      var r1: nat -> nat :| Shuffle(others, tick + 1, r1).0 == o[1..];
      var random: nat -> nat := t => if t == tick then k else r1(t);
      ShuffleFrame(others, tick + 1, r1, random);
      ShuffleHead(xs, tick, random, k);
      HeadTail(o);
    }
  }

  /**
    A run of room steps that raised no flag never grew the pool, and every
    room of the run still on offer afterwards had no candidate.
   */
  lemma {:induction false} ProcessRoomsQuiet(apps: seq<Applicant>, rank: nat, c: seq<nat>, rooms: seq<string>,
                                             st: State, added: bool, random: nat -> nat)
    requires Ranked(apps, rank, c) && Increasing(c) && NoDups(rooms)
    requires forall i :: i in c && RoomOf(apps, rank, i) in rooms ==> i in st.unassigned
    ensures var r := ProcessRooms(apps, rank, c, rooms, st, added, random);
            !r.1 ==> r.0.pool <= st.pool && forall room :: room in rooms && room in r.0.pool ==> NoCandidate(apps, rank, c, room)
    decreases |rooms|
  {
    if rooms != [] {
      var room := rooms[0];
      var rest := rooms[1..];
      assert room in rooms && room !in rest && NoDups(rest) && forall x :: x in rest ==> x in rooms by {
        forall x | x in rest ensures x != room {
          var q :| 0 <= q < |rest| && rest[q] == x;
          assert rooms[q + 1] == x;
        }
      }
      assert forall x :: x in rooms ==> x == room || x in rest;
      var (st1, grew) := Step(apps, rank, c, room, st, random);
      ProcessRoomsQuiet(apps, rank, c, rest, st1, added || grew, random);
    }
  }

  /** A snapshot taken from fewer contenders has no larger tag groups. */
  lemma GroupShrink(apps: seq<Applicant>, rank: nat, small: seq<nat>, big: seq<nat>, room: string, code: string)
    requires Ranked(apps, rank, small) && Ranked(apps, rank, big) && Increasing(small)
    requires forall j :: j in small ==> j in big
    ensures |Group(apps, rank, small, room, code)| >= 2 ==> |Group(apps, rank, big, room, code)| >= 2
  {
    var g := Group(apps, rank, small, room, code);
    if |g| >= 2 {
      assert g[0] in g && g[1] in g && g[0] < g[1];
      TwoMembers(Group(apps, rank, big, room, code), g[0], g[1]);
    }
  }

  /** No contender at `rank` can form a candidate for any room: a further pass would place nobody. */
  ghost predicate Quiescent(apps: seq<Applicant>, rank: nat, st: State) {
    var c := Contenders(apps, rank, st.pool, st.unassigned, |apps|);
    forall room :: NoCandidate(apps, rank, c, room)
  }

  /**
    One iteration of the `do { ... } while (newRoomsAdded)` body: the
    snapshot of contenders; when there is none, nothing changes and no new
    pass is asked for (the `continue` jumps straight to the loop condition).
   */
  function Pass(apps: seq<Applicant>, rank: nat, st: State, random: nat -> nat): (r: (State, bool))
    ensures Contenders(apps, rank, st.pool, st.unassigned, |apps|) == [] ==> r == (st, false)
    ensures r.0.unassigned <= st.unassigned
    ensures forall i :: i in st.unassigned && i !in r.0.unassigned ==> Contends(apps, rank, st.pool, st.unassigned, i)
    ensures r.1 ==> |r.0.unassigned| < |st.unassigned|
    ensures Consistent(apps, st) ==> Consistent(apps, r.0)
  {
    var c := Contenders(apps, rank, st.pool, st.unassigned, |apps|);
    if c == [] then (st, false)
    else
      var rooms := RoomsToProcess(apps, rank, c);
      var (order, t) := Shuffle(rooms, st.tick, random);
      ProcessRooms(apps, rank, c, order, st.(tick := t), false, random)
  }

  /** With distinct names, a pass only appends to the map. */
  lemma PassAppends(apps: seq<Applicant>, rank: nat, st: State, random: nat -> nat)
    requires DistinctNames(apps) && Consistent(apps, st)
    ensures st.placed <= Pass(apps, rank, st, random).0.placed
  {
    var c := Contenders(apps, rank, st.pool, st.unassigned, |apps|);
    if c != [] {
      var rooms := RoomsToProcess(apps, rank, c);
      var (order, t) := Shuffle(rooms, st.tick, random);
      ConsistentTick(apps, st, t);
      ProcessRoomsAppends(apps, rank, c, order, st.(tick := t), false, random);
    }
  }

  /** Contenders drawn from a snapshot whose rooms all lacked a candidate cannot form one either. */
  lemma QuietFromSnapshot(apps: seq<Applicant>, rank: nat, c: seq<nat>, c1: seq<nat>)
    requires Ranked(apps, rank, c) && Ranked(apps, rank, c1) && Increasing(c1)
    requires forall j :: j in c1 ==> j in c && NoCandidate(apps, rank, c, RoomOf(apps, rank, j))
    ensures forall room :: NoCandidate(apps, rank, c1, room)
  {
    forall room ensures NoCandidate(apps, rank, c1, room) {
      forall i | i in c1 && RoomOf(apps, rank, i) == room
        ensures CodeOf(apps, rank, i) != "" && |Group(apps, rank, c1, room, CodeOf(apps, rank, i))| < 2
      {
        GroupShrink(apps, rank, c1, c, room, CodeOf(apps, rank, i));
      }
    }
  }

  /** A pass that raises no flag leaves the rank with no candidate for any room. */
  lemma PassQuiet(apps: seq<Applicant>, rank: nat, st: State, random: nat -> nat)
    ensures !Pass(apps, rank, st, random).1 ==> Quiescent(apps, rank, Pass(apps, rank, st, random).0)
  {
    var c := Contenders(apps, rank, st.pool, st.unassigned, |apps|);
    var r := Pass(apps, rank, st, random);
    if c != [] && !r.1 {
      var rooms := RoomsToProcess(apps, rank, c);
      var (order, t) := Shuffle(rooms, st.tick, random);
      ProcessRoomsQuiet(apps, rank, c, order, st.(tick := t), false, random);
      var c1 := Contenders(apps, rank, r.0.pool, r.0.unassigned, |apps|);
      forall j | j in c1 ensures j in c && NoCandidate(apps, rank, c, RoomOf(apps, rank, j)) {
        assert RoomOf(apps, rank, j) in order;
      }
      QuietFromSnapshot(apps, rank, c, c1);
    }
  }

  /**
    The `do { ... } while (newRoomsAdded)` loop at one rank: passes are repeated while
    the last one offered a room that was not on offer before. Each repeated
    pass follows a pass that placed somebody, so the loop ends.
   */
  function RunRank(apps: seq<Applicant>, rank: nat, st: State, random: nat -> nat): (r: State)
    ensures r.unassigned <= st.unassigned
    ensures forall i :: i in st.unassigned && i !in r.unassigned ==>
              i < |apps| && rank < |apps[i].preferences|
    ensures Consistent(apps, st) ==> Consistent(apps, r)
    ensures Quiescent(apps, rank, r)
    decreases |st.unassigned|
  {
    var (st1, added) := Pass(apps, rank, st, random);
    PassQuiet(apps, rank, st, random);
    if added then RunRank(apps, rank, st1, random) else st1
  }

  /** The loop `for (int rank = 0; rank < MAX_PREFERENCES; rank++)`, from `rank` to 7. */
  function RunRanks(apps: seq<Applicant>, rank: nat, st: State, random: nat -> nat): (r: State)
    requires rank <= MaxPreferences
    ensures r.unassigned <= st.unassigned
    ensures forall i :: i in st.unassigned && i !in r.unassigned ==>
              i < |apps| && rank < |apps[i].preferences|
    ensures Consistent(apps, st) ==> Consistent(apps, r)
    decreases MaxPreferences - rank
  {
    if rank == MaxPreferences then st
    else RunRanks(apps, rank + 1, RunRank(apps, rank, st, random), random)
  }

  /**
    With distinct names, the loop over one rank only appends to the map: every
    entry recorded before keeps its value and its place.
   */
  lemma {:induction false} RunRankAppends(apps: seq<Applicant>, rank: nat, st: State, random: nat -> nat)
    requires DistinctNames(apps) && Consistent(apps, st)
    ensures st.placed <= RunRank(apps, rank, st, random).placed
    decreases |st.unassigned|
  {
    var (st1, added) := Pass(apps, rank, st, random);
    PassAppends(apps, rank, st, random);
    if added {
      RunRankAppends(apps, rank, st1, random);
    }
  }

  /**
    With distinct names, the loop over the ranks only appends to the map, so
    the entries are listed in the order they were won.
   */
  lemma {:induction false} RunRanksAppends(apps: seq<Applicant>, rank: nat, st: State, random: nat -> nat)
    requires rank <= MaxPreferences
    requires DistinctNames(apps) && Consistent(apps, st)
    ensures st.placed <= RunRanks(apps, rank, st, random).placed
    decreases MaxPreferences - rank
  {
    if rank < MaxPreferences {
      RunRankAppends(apps, rank, st, random);
      RunRanksAppends(apps, rank + 1, RunRank(apps, rank, st, random), random);
    }
  }
}
