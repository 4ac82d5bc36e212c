/**
  `RoomAllocationService.assign`: normalize the applicants, offer the cleaned
  room list, run the allocation loop over the eight ranks, and report the
  assignments followed by everybody still waiting.
 */
module Service {
  import opened Wrappers
  import opened Applicants
  import opened Contention
  import opened Assignments
  import opened Allocation

  function NormalizeAll(raws: seq<RawApplicant>): (apps: seq<Applicant>)
    ensures |apps| == |raws|
    ensures forall k :: 0 <= k < |raws| ==> apps[k] == Normalize(raws[k]) && IsNormal(apps[k])
  {
    seq(|raws|, k requires 0 <= k < |raws| => Normalize(raws[k]))
  }

  /** The indices of `n` applicants. */
  function Indices(n: nat): (s: set<nat>)
    ensures forall i: nat :: i in s <==> i < n
    ensures |s| == n
  {
    if n == 0 then {}
    else
      var s := Indices(n - 1);
      assert n - 1 !in s;
      s + {n - 1}
  }

  /** The members of `u` below `n`, in increasing order. */
  function Waiting(u: set<nat>, n: nat): (r: seq<nat>)
    ensures forall i: nat :: i in r <==> i in u && i < n
    ensures Increasing(r)
  {
    if n == 0 then []
    else
      var r := Waiting(u, n - 1);
      assert forall p :: 0 <= p < |r| ==> r[p] in r;
      if n - 1 in u then r + [n - 1] else r
  }

  /** The members of `u` below `n`. */
  function Below(u: set<nat>, n: nat): (r: set<nat>)
    ensures forall i: nat :: i in r <==> i in u && i < n
  {
    if n == 0 then {}
    else if n - 1 in u then Below(u, n - 1) + {n - 1}
    else Below(u, n - 1)
  }

  lemma BelowStep(u: set<nat>, n: nat)
    requires n > 0
    ensures |Below(u, n)| == |Below(u, n - 1)| + (if n - 1 in u then 1 else 0)
  {
    if n - 1 in u {
      assert n - 1 !in Below(u, n - 1);
    }
  }

  lemma WaitingStep(u: set<nat>, n: nat)
    requires n > 0
    ensures |Waiting(u, n)| == |Waiting(u, n - 1)| + (if n - 1 in u then 1 else 0)
  {
  }

  /** The waiting list has one line per waiting applicant below `n`. */
  lemma {:induction false} WaitingCard(u: set<nat>, n: nat)
    ensures |Waiting(u, n)| == |Below(u, n)|
  {
    if n > 0 {
      WaitingCard(u, n - 1);
      BelowStep(u, n);
      WaitingStep(u, n);
    }
  }

  /** The state the loop starts from: every applicant waiting, the cleaned rooms on offer. */
  function Start(apps: seq<Applicant>, rooms: Option<seq<Option<string>>>): (st: State)
    ensures Consistent(apps, st)
    ensures st.placed == [] && |st.unassigned| == |apps|
    ensures forall r :: r in st.pool <==> r in CleanRoomList(rooms)
  {
    assert AssignedNames(apps, Indices(|apps|)) == {};
    State((set r | r in CleanRoomList(rooms)), Indices(|apps|), [], 0)
  }

  /** The `unassigned` list of the service: one no-room line per waiting applicant, in the order of `left`. */
  function WaitingLines(apps: seq<Applicant>, left: seq<nat>): (lines: seq<Assignment>)
    requires forall i :: i in left ==> i < |apps|
    ensures |lines| == |left|
    ensures forall x :: x in lines ==>
              x.room.None? && x.note == NoRoomNote && exists i :: i in left && x.name == apps[i].name
    ensures forall i :: i in left ==> Assignment(apps[i].name, None, NoRoomNote) in lines
  {
    if left == [] then []
    else
      assert left[0] in left && forall i :: i in left[1..] ==> i in left;
      assert forall i :: i in left ==> i == left[0] || i in left[1..];
      [Assignment(apps[left[0]].name, None, NoRoomNote)] + WaitingLines(apps, left[1..])
  }

  /** With distinct names, nobody on the waiting list holds a key of the map. */
  lemma WaitingNotPlaced(apps: seq<Applicant>, st: State, lines: seq<Assignment>)
    requires Consistent(apps, st) && DistinctNames(apps)
    requires forall x :: x in lines ==> exists i :: i in st.unassigned && x.name == apps[i].name
    ensures forall x :: x in lines ==> x.name !in Names(st.placed)
  {
    forall x | x in lines ensures x.name !in Names(st.placed) {
      var i :| i in st.unassigned && x.name == apps[i].name;
      WaitingNameFree(apps, st.unassigned, i);
    }
  }

  /** The `AssignmentResponse` built at the end: the map's entries in order, then one line per waiting applicant. */
  function Report(apps: seq<Applicant>, st: State): (resp: Response)
    requires Consistent(apps, st)
    ensures resp.assignments == st.placed
    ensures |resp.unassigned| == |st.unassigned|
    ensures forall x :: x in resp.unassigned ==> x.room.None? && x.note == NoRoomNote
    ensures forall i :: 0 <= i < |apps| ==>
              (i !in st.unassigned ==> apps[i].name in Names(resp.assignments)) &&
              (i in st.unassigned ==> Assignment(apps[i].name, None, NoRoomNote) in resp.unassigned)
    ensures DistinctNames(apps) ==> |resp.assignments| + |resp.unassigned| == |apps|
    ensures DistinctNames(apps) ==> forall x :: x in resp.unassigned ==> x.name !in Names(resp.assignments)
  {
    var left := Waiting(st.unassigned, |apps|);
    var lines := WaitingLines(apps, left);
    assert forall i :: 0 <= i < |apps| && i !in st.unassigned ==> apps[i].name in AssignedNames(apps, st.unassigned);
    WaitingCard(st.unassigned, |apps|);
    assert Below(st.unassigned, |apps|) == st.unassigned;
    if DistinctNames(apps) then
      WaitingNotPlaced(apps, st, lines);
      Response(st.placed, lines)
    else
      Response(st.placed, lines)
  }

  /** The state the allocation loop ends in: every rank run from the start state. */
  function Run(apps: seq<Applicant>, rooms: Option<seq<Option<string>>>, random: nat -> nat): (st: State)
    ensures Consistent(apps, st)
  {
    RunRanks(apps, 0, Start(apps, rooms), random)
  }

  /**
    `RoomAllocationService.assign`. A missing or empty applicant list gives an
    empty response; otherwise the map's entries are listed with distinct names,
    followed by the waiting applicants, each with no room and the no-room note.
   */
  function Assign(applicants: Option<seq<RawApplicant>>, rooms: Option<seq<Option<string>>>,
                  random: nat -> nat): (resp: Response)
    ensures applicants.None? || applicants.value == [] ==> resp == Response([], [])
    ensures forall x :: x in resp.unassigned ==> x.room.None? && x.note == NoRoomNote
    ensures NamesDistinct(resp.assignments)
  {
    if applicants.None? || applicants.value == [] then Response([], [])
    else
      var apps := NormalizeAll(applicants.value);
      Report(apps, Run(apps, rooms, random))
  }

  /**
    Every applicant ends up either holding one of its own preferences or
    listed as waiting with the no-room note.
   */
  lemma AssignPlacesEveryone(applicants: seq<RawApplicant>, rooms: Option<seq<Option<string>>>,
                             random: nat -> nat)
    ensures var resp := Assign(Some(applicants), rooms, random);
            && (forall x :: x in resp.assignments ==> Wished(NormalizeAll(applicants), x))
            && forall k :: 0 <= k < |applicants| ==>
                 var name := Normalize(applicants[k]).name;
                 name in Names(resp.assignments) || Assignment(name, None, NoRoomNote) in resp.unassigned
  {
    if applicants != [] {
      var apps := NormalizeAll(applicants);
      var st := Run(apps, rooms, random);
      assert Assign(Some(applicants), rooms, random) == Report(apps, st);
    }
  }

  /**
    When no two applicants share a (trimmed) name, each appears in exactly
    one of the two lists.
   */
  lemma AssignPartitions(applicants: seq<RawApplicant>, rooms: Option<seq<Option<string>>>,
                         random: nat -> nat)
    requires DistinctNames(NormalizeAll(applicants))
    ensures var resp := Assign(Some(applicants), rooms, random);
            && |resp.assignments| + |resp.unassigned| == |applicants|
            && forall x :: x in resp.unassigned ==> x.name !in Names(resp.assignments)
  {
    if applicants != [] {
      var apps := NormalizeAll(applicants);
      var st := Run(apps, rooms, random);
      assert Assign(Some(applicants), rooms, random) == Report(apps, st);
    }
  }

  /** With nothing on offer nobody contends, so a rank leaves the state as it is. */
  lemma IdleRank(apps: seq<Applicant>, rank: nat, st: State, random: nat -> nat)
    requires st.pool == {}
    ensures RunRank(apps, rank, st, random) == st
  {
    var c := Contenders(apps, rank, st.pool, st.unassigned, |apps|);
    assert forall p :: 0 <= p < |c| ==> c[p] in c;
  }

  lemma {:induction false} IdleRanks(apps: seq<Applicant>, rank: nat, st: State, random: nat -> nat)
    requires st.pool == {} && rank <= MaxPreferences
    ensures RunRanks(apps, rank, st, random) == st
    decreases MaxPreferences - rank
  {
    if rank < MaxPreferences {
      IdleRank(apps, rank, st, random);
      IdleRanks(apps, rank + 1, st, random);
    }
  }

  /** When the room list offers nothing usable, nobody gets a room and everybody is listed as waiting. */
  lemma NoRoomsNoAssignments(applicants: Option<seq<RawApplicant>>, rooms: Option<seq<Option<string>>>,
                             random: nat -> nat)
    requires CleanRoomList(rooms) == []
    ensures Assign(applicants, rooms, random).assignments == []
    ensures applicants.Some? ==> |Assign(applicants, rooms, random).unassigned| == |applicants.value|
  {
    if applicants.Some? && applicants.value != [] {
      var apps := NormalizeAll(applicants.value);
      var st := Start(apps, rooms);
      assert st.pool == {};
      IdleRanks(apps, 0, st, random);
      assert Run(apps, rooms, random) == st;
    }
  }
}
