/**
  Two runs of `RoomAllocationService.assign` worked through from the raw
  request to the response, for every draw stream: a contest decided by
  seniority, and a cascade in which a winner's vacated room goes to another
  applicant at the same rank.
 */
module Scenarios {
  import opened Wrappers
  import opened Text
  import opened Applicants
  import opened Scoring
  import opened Contention
  import opened Assignments
  import opened Allocation
  import opened Service

  /** A name or room written plainly: non-empty, with no trim (hence no separator) character. */
  predicate Plain(w: string) {
    w != [] && forall k :: 0 <= k < |w| ==> !IsTrimChar(w[k])
  }

  /** A request with a name, a current room (`""` for none), no room class, a seniority and one wish. */
  function Request(name: string, current: string, seniority: nat, wish: string): RawApplicant {
    RawApplicant(Some(name), Some(current), None, seniority, Some([Some(wish)]))
  }

  /** A plainly written string is trimmed, is a single token, and trims to itself. */
  lemma PlainIsToken(w: string)
    requires Plain(w)
    ensures IsTrimmed(w) && IsToken(w) && Trim(w) == w
  {
    TrimIdempotent(w);
  }

  /** A list holding one plainly written entry cleans to that entry. */
  lemma CleanOne(w: string)
    requires Plain(w)
    ensures CleanEntries([Some(w)]) == [w]
  {
    PlainIsToken(w);
    assert Somes([w]) == [Some(w)];
    CleanEntriesOfClean([w]);
  }

  /** A plainly written entry parses as a room with no group code. */
  lemma ParseWord(w: string)
    requires Plain(w)
    ensures ParsePreference(w) == Preference(w, "")
  {
    PlainIsToken(w);
    ParseOfEntry("", [w], [], "");
    assert "" + JoinWith([w], []) + "" == w;
  }

  /** A single plainly written wish becomes one solo preference. */
  lemma OneWish(wish: string)
    requires Plain(wish)
    ensures NormalizePreferences(Some([Some(wish)])) == [Preference(wish, "")]
  {
    CleanOne(wish);
    ParseWord(wish);
    assert Kept([Some(wish)]) == [wish];
  }

  /** A plainly written request normalizes to itself, with priority 0 and the wish as a solo claim. */
  lemma NormalizeRequest(name: string, current: string, seniority: nat, wish: string)
    requires Plain(name) && Plain(wish) && (current == "" || Plain(current))
    ensures Normalize(Request(name, current, seniority, wish)) ==
            Applicant(name, seniority, 0, current, [Preference(wish, "")])
  {
    PlainIsToken(name);
    TrimIdempotent(current);
    OneWish(wish);
  }

  /** Two requests normalize one by one. */
  lemma NormalizeTwo(a: RawApplicant, b: RawApplicant)
    ensures NormalizeAll([a, b]) == [Normalize(a), Normalize(b)]
  {
  }

  /** A room list holding one plainly written room offers exactly that room. */
  lemma OfferOne(room: string)
    requires Plain(room)
    ensures CleanRoomList(Some([Some(room)])) == [room]
  {
    CleanOne(room);
  }

  /** Two applicants and one plainly written room: both wait, the room is on offer, nothing is placed. */
  lemma StartTwo(apps: seq<Applicant>, room: string)
    requires |apps| == 2 && Plain(room)
    ensures Start(apps, Some([Some(room)])) == State({room}, {0, 1}, [], 0)
  {
    OfferOne(room);
    assert Indices(2) == {0, 1};
  }

  /** When rank 0 empties the pool, the later ranks change nothing and the run ends where rank 0 did. */
  lemma RunAfterFirstRank(apps: seq<Applicant>, rooms: Option<seq<Option<string>>>, random: nat -> nat)
    requires RunRank(apps, 0, Start(apps, rooms), random).pool == {}
    ensures Run(apps, rooms, random) == RunRank(apps, 0, Start(apps, rooms), random)
  {
    IdleRanks(apps, 1, RunRank(apps, 0, Start(apps, rooms), random), random);
  }

  /** The response of a non-empty request: the report of the state the run ends in. */
  lemma AssignReports(raws: seq<RawApplicant>, rooms: Option<seq<Option<string>>>, random: nat -> nat)
    requires raws != []
    ensures Assign(Some(raws), rooms, random) ==
            Response(Run(NormalizeAll(raws), rooms, random).placed,
                     WaitingLines(NormalizeAll(raws), Waiting(Run(NormalizeAll(raws), rooms, random).unassigned, |raws|)))
  {
  }

  /** Without duplicates and with `a` as its only value, a sequence is `[a]`. */
  lemma Sole<T>(s: seq<T>, a: T)
    requires NoDups(s) && forall x :: x in s <==> x == a
    ensures s == [a]
  {
    assert a in s;
    if |s| >= 2 {
      FirstTwo(s);
      assert false;
    }
  }

  /** The first two elements of a sequence of two or more are among its values. */
  lemma FirstTwo<T>(s: seq<T>)
    requires |s| >= 2
    ensures s[0] in s && s[1] in s
  {
  }

  /**
    When every contender for `room` claims it alone and `i` beats all the
    others, the contest gives the room to `i` whatever the draws.
   */
  lemma SoloWinner(apps: seq<Applicant>, rank: nat, c: seq<nat>, room: string, i: nat,
                   tick: nat, random: nat -> nat)
    requires Ranked(apps, rank, c) && Increasing(c)
    requires i in c && RoomOf(apps, rank, i) == room
    requires forall j :: j in c && RoomOf(apps, rank, j) == room ==> CodeOf(apps, rank, j) == ""
    requires forall j :: j in c && RoomOf(apps, rank, j) == room && j != i ==>
               Beats(ScoreOf(apps[i]), ScoreOf(apps[j]))
    ensures Contest(apps, rank, c, room, tick, random).0 == Some(Single(apps, i))
  {
    var w := Contest(apps, rank, c, room, tick, random).0;
    assert !NoCandidate(apps, rank, c, room);
    var cand := w.value;
    assert cand.members[0] in c;
    assert !ValidPair(apps, rank, c, room, cand);
    var j := cand.members[0];
    assert Single(apps, i) in Candidates(apps, rank, c, room, tick, random).0;
    assert !Beats(ScoreOf(apps[i]), ScoreOf(apps[j]));
  }

  /** A pass whose contenders all want `room` shuffles that one room and handles it alone. */
  lemma PassOneRoom(apps: seq<Applicant>, rank: nat, st: State, random: nat -> nat, c: seq<nat>, room: string)
    requires c == Contenders(apps, rank, st.pool, st.unassigned, |apps|) && c != []
    requires forall j :: j in c ==> RoomOf(apps, rank, j) == room
    ensures Ranked(apps, rank, c) && Increasing(c)
    ensures Pass(apps, rank, st, random) == Step(apps, rank, c, room, st.(tick := Shuffle([room], st.tick, random).1), random)
  {
    assert c[0] in c;
    var rooms := RoomsToProcess(apps, rank, c);
    Sole(rooms, room);
    var (order, t) := Shuffle(rooms, st.tick, random);
    Sole(order, room);
    var st1 := st.(tick := t);
    assert [room][1..] == [];
    var r := Step(apps, rank, c, room, st1, random);
    assert ProcessRooms(apps, rank, c, [room], st1, false, random) == (r.0, false || r.1);
  }

  /**
    A step on a room whose contenders all claim it alone, with `i` beating
    the others: `i` gets the room, which leaves the pool while `i`'s vacated
    room joins it, and the flag is raised exactly when the pool gained a room.
   */
  lemma StepSolo(apps: seq<Applicant>, rank: nat, c: seq<nat>, room: string, st: State, random: nat -> nat, i: nat)
    requires Ranked(apps, rank, c) && Increasing(c)
    requires i in c && RoomOf(apps, rank, i) == room && room in st.pool && apps[i].name !in Names(st.placed)
    requires forall j :: j in c && RoomOf(apps, rank, j) == room ==> CodeOf(apps, rank, j) == ""
    requires forall j :: j in c && RoomOf(apps, rank, j) == room && j != i ==>
               Beats(ScoreOf(apps[i]), ScoreOf(apps[j]))
    ensures var r := Step(apps, rank, c, room, st, random);
            && r.0.placed == st.placed + [Assignment(apps[i].name, Some(room), SingleNote)]
            && r.0.unassigned == st.unassigned - {i}
            && r.0.pool == (st.pool - {room}) + Vacated(apps, [i], room)
            && (r.1 <==> r.0.pool != st.pool - {room})
  {
    var t := Contest(apps, rank, c, room, st.tick, random).1;
    SoloWinner(apps, rank, c, room, i, st.tick, random);
    var st1 := st.(tick := t);
    assert Step(apps, rank, c, room, st, random) == Award(apps, rank, c, room, Single(apps, i), st1);
    AwardSingle(apps, rank, c, room, st1, i);
  }

  /** Awarding a room to a single candidate with a fresh name appends its one entry and takes it off the waiting set. */
  lemma AwardSingle(apps: seq<Applicant>, rank: nat, c: seq<nat>, room: string, st: State, i: nat)
    requires Ranked(apps, rank, c) && i < |apps| && ValidCandidate(apps, rank, c, room, Single(apps, i))
    requires apps[i].name !in Names(st.placed)
    ensures var r := Award(apps, rank, c, room, Single(apps, i), st);
            && r.0.placed == st.placed + [Assignment(apps[i].name, Some(room), SingleNote)]
            && r.0.unassigned == st.unassigned - {i}
            && r.0.pool == (st.pool - {room}) + Vacated(apps, [i], room)
            && (r.1 <==> r.0.pool != st.pool - {room})
  {
    var cand := Single(apps, i);
    AwardPlaced(apps, rank, c, room, cand, st);
    assert FreshNames(apps, st.placed, [i]);
    assert Entries(apps, [i], room, SingleNote) == [Assignment(apps[i].name, Some(room), SingleNote)];
    assert MemberSet(cand) == {i};
  }

  /** The rooms a single member vacates: its current room, unless it has none or it is the room won. */
  lemma VacatedOne(apps: seq<Applicant>, i: nat, room: string)
    requires i < |apps|
    ensures Vacated(apps, [i], room) ==
            if apps[i].currentRoom != "" && apps[i].currentRoom != room then {apps[i].currentRoom} else {}
  {
    assert i in [i];
  }

  /** A pass whose contenders all claim one room alone, with `i` beating the others: the step above, as a pass. */
  lemma PassSolo(apps: seq<Applicant>, rank: nat, st: State, random: nat -> nat, c: seq<nat>, i: nat)
    requires c == Contenders(apps, rank, st.pool, st.unassigned, |apps|)
    requires i in c && apps[i].name !in Names(st.placed)
    requires forall j :: j in c ==> RoomOf(apps, rank, j) == RoomOf(apps, rank, i) && CodeOf(apps, rank, j) == ""
    requires forall j :: j in c && j != i ==> Beats(ScoreOf(apps[i]), ScoreOf(apps[j]))
    ensures var room := RoomOf(apps, rank, i);
            var r := Pass(apps, rank, st, random);
            && r.0.placed == st.placed + [Assignment(apps[i].name, Some(room), SingleNote)]
            && r.0.unassigned == st.unassigned - {i}
            && r.0.pool == (st.pool - {room}) + Vacated(apps, [i], room)
            && (r.1 <==> r.0.pool != st.pool - {room})
  {
    var room := RoomOf(apps, rank, i);
    PassOneRoom(apps, rank, st, random, c, room);
    var t := Shuffle([room], st.tick, random).1;
    StepSolo(apps, rank, c, room, st.(tick := t), random, i);
  }

  /** A pass with a single contender, claiming its room alone: that contender gets the room. */
  lemma PassOnly(apps: seq<Applicant>, rank: nat, st: State, random: nat -> nat, i: nat)
    requires Contenders(apps, rank, st.pool, st.unassigned, |apps|) == [i]
    requires i < |apps| && rank < |apps[i].preferences| && apps[i].preferences[rank].groupCode == ""
    requires apps[i].name !in Names(st.placed)
    ensures var room := apps[i].preferences[rank].room;
            var r := Pass(apps, rank, st, random);
            && r.0.placed == st.placed + [Assignment(apps[i].name, Some(room), SingleNote)]
            && r.0.unassigned == st.unassigned - {i}
            && r.0.pool == (st.pool - {room}) + Vacated(apps, [i], room)
            && (r.1 <==> r.0.pool != st.pool - {room})
  {
    assert forall j :: j in [i] ==> j == i;
    PassSolo(apps, rank, st, random, [i], i);
  }

  /**
    A pass in which a single contender takes the only room on offer: the pool
    then holds just the room it vacated, if any, and a repeat is asked for
    exactly when it vacated one.
   */
  lemma PassAlone(apps: seq<Applicant>, rank: nat, st: State, random: nat -> nat, i: nat)
    requires Contenders(apps, rank, st.pool, st.unassigned, |apps|) == [i]
    requires i < |apps| && rank < |apps[i].preferences| && apps[i].preferences[rank].groupCode == ""
    requires apps[i].name !in Names(st.placed)
    requires st.pool == {apps[i].preferences[rank].room}
    ensures var room := apps[i].preferences[rank].room;
            var freed := apps[i].currentRoom != "" && apps[i].currentRoom != room;
            var r := Pass(apps, rank, st, random);
            && r.0.placed == st.placed + [Assignment(apps[i].name, Some(room), SingleNote)]
            && r.0.unassigned == st.unassigned - {i}
            && r.0.pool == (if freed then {apps[i].currentRoom} else {})
            && (r.1 <==> freed)
  {
    PassOnly(apps, rank, st, random, i);
    VacatedOne(apps, i, apps[i].preferences[rank].room);
  }

  /** The two applicants of the contest, normalized: Ola (seniority 3) and Kari (seniority 5) both want R1. */
  const OlaKari: seq<Applicant> :=
    [Applicant("Ola", 3, 0, "", [Preference("R1", "")]), Applicant("Kari", 5, 0, "", [Preference("R1", "")])]

  /** At the start of the contest both applicants contend at rank 0. */
  lemma OlaKariContenders()
    ensures Contenders(OlaKari, 0, {"R1"}, {0, 1}, 2) == [0, 1]
  {
    assert Contenders(OlaKari, 0, {"R1"}, {0, 1}, 0) == [];
    assert Contenders(OlaKari, 0, {"R1"}, {0, 1}, 1) == [0];
  }

  /** The first pass at rank 0: both want R1 alone, and Kari, the more senior, gets it; no room is freed. */
  lemma OlaKariPass(random: nat -> nat)
    ensures var r := Pass(OlaKari, 0, State({"R1"}, {0, 1}, [], 0), random);
            && r.0.placed == [Assignment("Kari", Some("R1"), SingleNote)]
            && r.0.unassigned == {0} && r.0.pool == {} && !r.1
  {
    OlaKariContenders();
    assert Beats(ScoreOf(OlaKari[1]), ScoreOf(OlaKari[0]));
    PassSolo(OlaKari, 0, State({"R1"}, {0, 1}, [], 0), random, [0, 1], 1);
    VacatedOne(OlaKari, 1, "R1");
  }

  /** With R1 on offer and nobody placed, rank 0 ends after that one pass. */
  lemma OlaKariRank(random: nat -> nat)
    ensures var r := RunRank(OlaKari, 0, State({"R1"}, {0, 1}, [], 0), random);
            r.placed == [Assignment("Kari", Some("R1"), SingleNote)] && r.unassigned == {0} && r.pool == {}
  {
    var st := State({"R1"}, {0, 1}, [], 0);
    OlaKariPass(random);
    assert RunRank(OlaKari, 0, st, random) == Pass(OlaKari, 0, st, random).0;
  }

  /** The whole run of the contest: Kari gets R1 with the solo note, Ola is listed as waiting. */
  lemma OlaKariAssign(random: nat -> nat)
    ensures Assign(Some([Request("Ola", "", 3, "R1"), Request("Kari", "", 5, "R1")]), Some([Some("R1")]), random)
            == Response([Assignment("Kari", Some("R1"), SingleNote)], [Assignment("Ola", None, NoRoomNote)])
  {
    var raws := [Request("Ola", "", 3, "R1"), Request("Kari", "", 5, "R1")];
    var rooms := Some([Some("R1")]);
    NormalizeRequest("Ola", "", 3, "R1");
    NormalizeRequest("Kari", "", 5, "R1");
    NormalizeTwo(raws[0], raws[1]);
    assert NormalizeAll(raws) == OlaKari;
    StartTwo(OlaKari, "R1");
    OlaKariRank(random);
    RunAfterFirstRank(OlaKari, rooms, random);
    AssignReports(raws, rooms, random);
    var u := Run(OlaKari, rooms, random).unassigned;
    assert Waiting(u, 1) == [0];
    assert Waiting(u, 2) == [0];
  }

  /**
    The two applicants of the cascade, normalized: Per (seniority 2) lives in
    H1 and wants R1; Nina (seniority 4) has no room and wants H1.
   */
  const PerNina: seq<Applicant> :=
    [Applicant("Per", 2, 0, "H1", [Preference("R1", "")]), Applicant("Nina", 4, 0, "", [Preference("H1", "")])]

  /** At the start of the cascade only Per contends: H1 is not on offer yet. */
  lemma PerNinaFirstContenders()
    ensures Contenders(PerNina, 0, {"R1"}, {0, 1}, 2) == [0]
  {
    assert Contenders(PerNina, 0, {"R1"}, {0, 1}, 0) == [];
    assert Contenders(PerNina, 0, {"R1"}, {0, 1}, 1) == [0];
  }

  /** Once Per has moved and H1 is on offer, only Nina contends. */
  lemma PerNinaSecondContenders()
    ensures Contenders(PerNina, 0, {"H1"}, {1}, 2) == [1]
  {
    assert Contenders(PerNina, 0, {"H1"}, {1}, 0) == [];
    assert Contenders(PerNina, 0, {"H1"}, {1}, 1) == [];
  }

  /** The first pass at rank 0: Per, the only contender, wins R1 and puts H1 on offer. */
  lemma PerNinaFirstPass(random: nat -> nat)
    ensures var r := Pass(PerNina, 0, State({"R1"}, {0, 1}, [], 0), random);
            && r.0.placed == [Assignment("Per", Some("R1"), SingleNote)]
            && r.0.unassigned == {1} && r.0.pool == {"H1"} && r.1
  {
    var st := State({"R1"}, {0, 1}, [], 0);
    PerNinaFirstContenders();
    PassAlone(PerNina, 0, st, random, 0);
  }

  /** The repeated pass at rank 0: Nina, now the only contender, wins the vacated H1, and the pool is empty. */
  lemma PerNinaSecondPass(st: State, random: nat -> nat)
    requires st.placed == [Assignment("Per", Some("R1"), SingleNote)] && st.unassigned == {1} && st.pool == {"H1"}
    ensures var r := Pass(PerNina, 0, st, random);
            && r.0.placed == [Assignment("Per", Some("R1"), SingleNote), Assignment("Nina", Some("H1"), SingleNote)]
            && r.0.unassigned == {} && r.0.pool == {} && !r.1
  {
    PerNinaSecondContenders();
    assert "Nina" !in Names(st.placed);
    PassAlone(PerNina, 0, st, random, 1);
  }

  /** The cascade at rank 0: Per wins R1, the freed H1 is offered again, and Nina gets it in the same rank. */
  lemma PerNinaRank(random: nat -> nat)
    ensures var r := RunRank(PerNina, 0, State({"R1"}, {0, 1}, [], 0), random);
            && r.placed == [Assignment("Per", Some("R1"), SingleNote), Assignment("Nina", Some("H1"), SingleNote)]
            && r.unassigned == {} && r.pool == {}
  {
    var st0 := State({"R1"}, {0, 1}, [], 0);
    PerNinaFirstPass(random);
    var st1 := Pass(PerNina, 0, st0, random).0;
    assert RunRank(PerNina, 0, st0, random) == RunRank(PerNina, 0, st1, random);
    PerNinaSecondPass(st1, random);
    assert RunRank(PerNina, 0, st1, random) == Pass(PerNina, 0, st1, random).0;
  }

  /** The whole run of the cascade: both applicants are placed, Per first, and nobody is left waiting. */
  lemma PerNinaAssign(random: nat -> nat)
    ensures Assign(Some([Request("Per", "H1", 2, "R1"), Request("Nina", "", 4, "H1")]), Some([Some("R1")]), random)
            == Response([Assignment("Per", Some("R1"), SingleNote), Assignment("Nina", Some("H1"), SingleNote)], [])
  {
    var raws := [Request("Per", "H1", 2, "R1"), Request("Nina", "", 4, "H1")];
    var rooms := Some([Some("R1")]);
    NormalizeRequest("Per", "H1", 2, "R1");
    NormalizeRequest("Nina", "", 4, "H1");
    NormalizeTwo(raws[0], raws[1]);
    assert NormalizeAll(raws) == PerNina;
    StartTwo(PerNina, "R1");
    PerNinaRank(random);
    RunAfterFirstRank(PerNina, rooms, random);
    AssignReports(raws, rooms, random);
    assert Waiting({}, 2) == [];
  }
}
