# Room allocation (romfordeling) — a Dafny model

This project models the room-allocation core of `RoomAllocationService`, a
greedy matcher for student housing. The applicants come as request records:
a name, a current room, a current room class, a seniority and up to eight
ranked room wishes. A wish may carry a group code, which marks a pair that
wants to share a room.

The service works as follows:
- It normalizes the applicants.
- It offers the cleaned list of free rooms.
- It works through the wish ranks 0..7. At each rank it repeats passes for as
  long as a pass puts back on offer a room that was not on offer before.
- Each pass takes a snapshot of who contends for which room.
- Each room of the snapshot gets single candidates and pair candidates. A
  pair is the top two of a tag group.
- The room goes to a candidate that no other candidate beats on (seniority,
  current-room priority). The winners' vacated rooms are then re-offered.
- The response lists the assignments in the order they were won (when no two
  applicants share a name), then one "Ingen ledige rom i ønsker" line for
  every applicant still waiting.

Modules, one per file:

- `Wrappers` (`wrappers.dfy`): `Option`, standing for Java `null`.
- `Text` (`text.dfy`): Java's `String.trim`, `split("\\s+")` on a trimmed
  string, and ASCII lower-casing, with their characterizations.
- `Applicants` (`applicants.dfy`): the request record (`RawApplicant`,
  mirroring `ApplicantRequest`), `ApplicantState.from`, `cleanString`,
  `roomTypePriority`, `normalizePreferences`, `Preference.fromRaw` and
  `cleanRoomList`.
- `Scoring` (`scoring.dfy`): the descending (seniority, priority)
  comparator, and the choice that "shuffle, then stable sort, then take the
  first" makes among the best-scored elements.
- `Contention` (`contention.dfy`): the contenders at a rank, the tag groups,
  `Candidate.single` and `Candidate.pair`, the candidate list of a room, and
  the winner.
- `Assignments` (`assignments.dfy`): the `Assignment` and response records,
  and the name-keyed, insertion-ordered `LinkedHashMap` the service collects
  assignments in.
- `Allocation` (`allocation.dfy`): recording winners, vacating rooms, one
  room step, one pass, the do-while loop at one rank, and the loop over ranks.
- `Service` (`service.dfy`): `assign` itself and the result builder.
- `Scenarios` (`scenarios.dfy`): two runs of `assign` worked through from the
  requests to the response: a contest decided by seniority, and a cascade
  within one rank.

How the source's details are modelled:

- **Applicants are indices** into the normalized sequence.
  `ApplicantState` does not override `equals`, so the waiting set tracks
  objects. The model's waiting set is a `set<nat>` of indices.
- **Randomness is a parameter.** Java's `Random` becomes a draw stream
  `random: nat -> nat`, read at a position the state carries along. It
  serves three purposes:
  - choosing the winner of a room;
  - choosing the two members of a pair;
  - ordering the rooms of a pass, where the source iterates a `HashSet`.

  Every choice falls on an element that nothing beats. Completeness lemmas
  (`Scoring.PickBestComplete`, `Contention.PickPairComplete`,
  `Contention.WinnerComplete`) show that every single choice the sort allows
  is the choice for some draw, and `Allocation.ShuffleComplete` shows that
  every ordering of the rooms of a pass is drawn by some stream.
  - Completeness is proved one choice at a time. That a whole run's
    combination of choices is reachable by one stream is not proved.
  - The service's room order comes from `HashSet` iteration, which depends
    on the rooms' hash codes and not on `Random`. The model lets the stream
    pick any order, so it admits room orders the service never uses.
  - Every property proved here holds for all streams, and so for every
    combination of choices, whichever one the service makes.
- **The assignment map is modelled as written.** It is keyed by the trimmed
  name, and a second winner with the same name replaces the first entry in
  place.
  - So the stronger statement "every applicant appears exactly once, and the
    two lists together are as long as the applicant list" does not hold for
    the code as written.
  - The model proves it under the hypothesis that no two normalized names
    coincide (`Allocation.DistinctNames`).
  - Without that hypothesis, the model still proves that every applicant
    either has its name among the map's keys or is listed as waiting.
- **A room can occur in more than one assignment.** This holds for the two
  members of a pair, and for a room vacated and then won again. The model
  therefore does not claim that rooms are distinct across assignments.

## Model

All source paths are in `src/main/java/com/example/romfordeling/service/RoomAllocationService.java`.

| member | source | states |
|---|---|---|
| Text.Trim | src/main/java/com/example/romfordeling/service/RoomAllocationService.java:189 | the result of `trim` has no character at or below U+0020 at either end |
| Text.TrimIsCore | src/main/java/com/example/romfordeling/service/RoomAllocationService.java:189 | `trim` only cuts characters at or below U+0020 off the two ends of the string |
| Text.TrimCharacterized | src/main/java/com/example/romfordeling/service/RoomAllocationService.java:189 | a string is the trim of `s` if and only if it is obtained from `s` by cutting trim characters off its ends and has none left at either end |
| Text.TrimIdempotent | src/main/java/com/example/romfordeling/service/RoomAllocationService.java:189 | trimming a trimmed string changes nothing, so trimming twice is trimming once |
| Text.LowerTrimmed | src/main/java/com/example/romfordeling/service/RoomAllocationService.java:196 | lower-casing is idempotent and keeps a trimmed string trimmed |
| Text.Tokens | src/main/java/com/example/romfordeling/service/RoomAllocationService.java:210 | every piece that `split("\\s+")` returns is non-empty and free of `\s` characters |
| Text.TokensHead | src/main/java/com/example/romfordeling/service/RoomAllocationService.java:210-211 | a trimmed string splits into no pieces exactly when it is empty; its first piece is a prefix of it, followed by a separator or by the end |
| Text.TokensOfJoin | src/main/java/com/example/romfordeling/service/RoomAllocationService.java:210 | splitting tokens written with separator runs of any length and any `\s` characters between them, and separators around them, gives the same tokens back, in order |
| Text.TokensSplit | src/main/java/com/example/romfordeling/service/RoomAllocationService.java:210 | a string has no pieces exactly when it is all separators; otherwise it is its pieces written with separator runs between them and separators around them |
| Text.TokensCharacterized | src/main/java/com/example/romfordeling/service/RoomAllocationService.java:210 | the pieces of `s` are `ws` if and only if `s` is `ws` written with non-empty separator runs between them and separators around them, that is, the maximal separator-free runs in order |
| Applicants.CleanString | src/main/java/com/example/romfordeling/service/RoomAllocationService.java:185-190 | null gives the empty string; anything else gives its trim; the result is always trimmed |
| Applicants.CleanStringIdempotent | src/main/java/com/example/romfordeling/service/RoomAllocationService.java:185-190 | cleaning a cleaned string changes nothing |
| Applicants.RoomTypePriority | src/main/java/com/example/romfordeling/service/RoomAllocationService.java:192-204 | null gives 0; otherwise the trimmed, lower-cased class is looked up in the four-entry table fleksirom 4, parrom 3, enkeltrom 2, porten 1, and anything else gives 0; the result lies in 0..4 |
| Applicants.CleanClassIdempotent | src/main/java/com/example/romfordeling/service/RoomAllocationService.java:192-204 | normalizing a room class twice is normalizing it once, and the priority of the normalized class is the priority of the raw class |
| Applicants.ParsePreference | src/main/java/com/example/romfordeling/service/RoomAllocationService.java:209-214 | the room is empty exactly when the trimmed entry is empty; otherwise it is the whitespace-free prefix of the trimmed entry that runs up to the first separator or the end; the group code is empty or one whitespace-free token |
| Applicants.ParseOfEntry | src/main/java/com/example/romfordeling/service/RoomAllocationService.java:209-214 | an entry made of tokens separated by runs of `\s` characters, padded with trim characters, parses to its first token as the room and its second token (or `""`) as the group code; further tokens are ignored |
| Applicants.ParseCharacterized | src/main/java/com/example/romfordeling/service/RoomAllocationService.java:209-214 | a non-blank entry parses to (room, code) if and only if its trim is tokens separated by separator runs, the first being the room and the second the code (or the code is `""` and there is one token) |
| Applicants.ParseExample | src/main/java/com/example/romfordeling/service/RoomAllocationService.java:209-214 | the entry `"  R1  X\tY "`, with a doubled blank, a tab and padding, parses to room `R1` and code `X` |
| Applicants.CleanEntries | src/main/java/com/example/romfordeling/service/RoomAllocationService.java:177-179 | the null-to-empty, trim and drop-empty steps never produce more entries than they get; which entries survive, and in which order, is stated by the three lemmas below |
| Applicants.CleanEntriesClean | src/main/java/com/example/romfordeling/service/RoomAllocationService.java:177-179 | every entry that survives the clean-and-filter step is non-blank and trimmed |
| Applicants.CleanEntriesMembers | src/main/java/com/example/romfordeling/service/RoomAllocationService.java:177-179 | a string survives the clean-and-filter step exactly when it is non-blank and some raw entry cleans to it |
| Applicants.CleanEntriesAppend | src/main/java/com/example/romfordeling/service/RoomAllocationService.java:177-179 | cleaning distributes over concatenation: entries keep their order and only blanks are dropped |
| Applicants.Kept | src/main/java/com/example/romfordeling/service/RoomAllocationService.java:177-180 | the kept entries are a prefix of the cleaned entries, of length min(8, number of cleaned entries) |
| Applicants.NormalizePreferences | src/main/java/com/example/romfordeling/service/RoomAllocationService.java:173-183 | null gives no preferences; otherwise the k-th preference is the parse of the k-th cleaned non-blank entry, for the first min(8, count) of them; every preference holds a room token |
| Applicants.PreferencesTruncated | src/main/java/com/example/romfordeling/service/RoomAllocationService.java:180 | once eight non-blank entries are present, whatever follows them does not change the preferences |
| Applicants.CleanPreferencesIdempotent | src/main/java/com/example/romfordeling/service/RoomAllocationService.java:173-183 | feeding the kept entries back in keeps exactly them and yields the same preferences |
| Applicants.Normalize | src/main/java/com/example/romfordeling/service/RoomAllocationService.java:164-171 | the name and current room are cleaned; seniority is max(0, s); the priority comes from the room class; the preferences are normalized; the result has the normal shape (trimmed, seniority at least 0, priority in 0..4, at most 8 parsed preferences) |
| Applicants.NormalizeIdempotent | src/main/java/com/example/romfordeling/service/RoomAllocationService.java:164-204 | normalizing the already-cleaned record gives the same applicant, and cleaning a cleaned record changes nothing |
| Applicants.CleanRoomList | src/main/java/com/example/romfordeling/service/RoomAllocationService.java:241-249 | null gives no rooms; every room offered is non-blank and trimmed |
| Applicants.CleanRoomListMembers | src/main/java/com/example/romfordeling/service/RoomAllocationService.java:241-249 | a room is offered exactly when the list is present and some entry cleans to that non-blank name |
| Scoring.Best | src/main/java/com/example/romfordeling/service/RoomAllocationService.java:111-121 | a non-empty list holds a score that no element beats under the descending (seniority, priority) comparator |
| Scoring.PickBest | src/main/java/com/example/romfordeling/service/RoomAllocationService.java:110-123 | the element that a shuffle followed by the stable sort puts first is at a position that nothing in the list beats |
| Scoring.PickBestComplete | src/main/java/com/example/romfordeling/service/RoomAllocationService.java:110-123 | every position that nothing beats is put first for some draw |
| Contention.Contenders | src/main/java/com/example/romfordeling/service/RoomAllocationService.java:45-53 | an applicant contends at a rank exactly when it is still waiting, has a preference at that rank, and that preference's room is on offer |
| Contention.Group | src/main/java/com/example/romfordeling/service/RoomAllocationService.java:54-61 | a room's group for a code holds exactly the contenders asking for that room with that code (the code `""` gives the singles) |
| Contention.RoomsToProcess | src/main/java/com/example/romfordeling/service/RoomAllocationService.java:68-70 | the rooms of a pass are exactly the rooms some contender asks for, each once |
| Contention.CodesAt | src/main/java/com/example/romfordeling/service/RoomAllocationService.java:83-84 | the tag groups of a room are exactly the non-empty codes some contender uses for it, each once |
| Contention.PickPair | src/main/java/com/example/romfordeling/service/RoomAllocationService.java:88-102 | the two members taken from a tag group are distinct members; nothing in the group beats the first, and nothing but the first beats the second |
| Contention.PickPairComplete | src/main/java/com/example/romfordeling/service/RoomAllocationService.java:88-102 | every such top-two choice is the one taken for some pair of draws |
| Contention.PairOf | src/main/java/com/example/romfordeling/service/RoomAllocationService.java:101-103 | a group of two or more yields a valid pair: two distinct contenders for the room with the same non-empty code, top two of their group, scored by the sums of their seniorities and of their priorities, with the pair note |
| Contention.PairsAt | src/main/java/com/example/romfordeling/service/RoomAllocationService.java:83-104 | every pair candidate built for a room is a valid pair |
| Contention.PairsAtCover | src/main/java/com/example/romfordeling/service/RoomAllocationService.java:83-104 | every tag group of two or more members at the room contributes a pair |
| Contention.Single | src/main/java/com/example/romfordeling/service/RoomAllocationService.java:230-232 | a single candidate holds just that applicant, carries its (seniority, room priority) key as its score, and has the solo note "Tildelt fra ønskeliste"; `Singles` builds one per contender asking for the room without a code, and `ValidSingle` ties each to such a contender |
| Contention.Pair | src/main/java/com/example/romfordeling/service/RoomAllocationService.java:234-238 | a pair candidate holds the two applicants in the order given, its scores are the sum of their seniorities and the sum of their room priorities, and its note is the one every group-coded assignment carries; `PairOf` builds one from a tag group's top two, and `ValidPair` states those members |
| Contention.Singles | src/main/java/com/example/romfordeling/service/RoomAllocationService.java:78-81 | every single candidate belongs to a contender asking for the room without a code, and every such contender has one |
| Contention.Candidates | src/main/java/com/example/romfordeling/service/RoomAllocationService.java:76-104 | each candidate is a valid single or a valid pair for the room; every solo contender's single is there, and so is a pair for every tag group of two or more |
| Contention.CandidatesEmpty | src/main/java/com/example/romfordeling/service/RoomAllocationService.java:76-108 | the candidate list is empty exactly when every contender for the room asks with a code whose group has fewer than two members |
| Contention.PairNeedsTwo | src/main/java/com/example/romfordeling/service/RoomAllocationService.java:84-87 | a pair candidate comes only from a tag group with a non-empty code and at least two members at the room |
| Contention.CandidateMembers | src/main/java/com/example/romfordeling/service/RoomAllocationService.java:123-125 | a candidate has at least one member; each member contends for the room, and the candidate's note is the single note for a code-less claim and the pair note otherwise |
| Contention.Winner | src/main/java/com/example/romfordeling/service/RoomAllocationService.java:110-123 | the winner is one of the candidates, and no candidate beats its (seniority score, priority score) |
| Contention.WinnerComplete | src/main/java/com/example/romfordeling/service/RoomAllocationService.java:110-123 | every candidate that no other beats wins for some draw |
| Contention.Contest | src/main/java/com/example/romfordeling/service/RoomAllocationService.java:106-123 | a room has no winner exactly when no contender can form a candidate; otherwise the winner is a valid candidate that no candidate for the room beats |
| Assignments.Get | src/main/java/com/example/romfordeling/service/RoomAllocationService.java:36 | a lookup finds an entry with the requested name exactly when that name is a key |
| Assignments.Put | src/main/java/com/example/romfordeling/service/RoomAllocationService.java:125 | after `put`, the new entry is present and the keys gain its name; under an existing key the entry at that key's position is replaced and nothing else changes; a new key is appended at the end |
| Assignments.PutGet | src/main/java/com/example/romfordeling/service/RoomAllocationService.java:125 | reading back after `put` gives the new entry under its key and the old entry under every other key |
| Assignments.PutDistinct | src/main/java/com/example/romfordeling/service/RoomAllocationService.java:36 | `put` keeps every key unique |
| Allocation.Record | src/main/java/com/example/romfordeling/service/RoomAllocationService.java:125-126 | the member's name now maps to the won room with the given note and every other name keeps its entry; a name not yet a key is appended at the end; the member leaves the waiting set; the pool is untouched |
| Allocation.RecordConsistent | src/main/java/com/example/romfordeling/service/RoomAllocationService.java:125-126 | recording a granted wish keeps the loop invariant: keys are unique, the keys are the names of those no longer waiting, every entry grants one of its holder's wishes, and with distinct names the counts add up |
| Allocation.RecordAll | src/main/java/com/example/romfordeling/service/RoomAllocationService.java:124-127 | every member of the winner maps to the room with the winner's note, and exactly the members leave the waiting set |
| Allocation.RecordAllFrame | src/main/java/com/example/romfordeling/service/RoomAllocationService.java:124-127 | recording the members leaves the entry under every other name as it was |
| Allocation.RecordAllAppends | src/main/java/com/example/romfordeling/service/RoomAllocationService.java:124-127 | when the members' names are distinct and not yet keys, recording them appends one entry per member, in member order |
| Allocation.RecordAllConsistent | src/main/java/com/example/romfordeling/service/RoomAllocationService.java:124-127 | recording every member of the winner keeps the loop invariant |
| Allocation.Vacate | src/main/java/com/example/romfordeling/service/RoomAllocationService.java:130-136 | the pool gains exactly the members' non-empty current rooms other than the won room, and the flag is raised exactly when the pool grew |
| Allocation.Award | src/main/java/com/example/romfordeling/service/RoomAllocationService.java:124-136 | the members are recorded with the room and the note and leave the waiting set; the pool becomes the old pool minus the room, plus the vacated rooms; the flag is raised exactly when a vacated room was not already on offer |
| Allocation.AwardPlaced | src/main/java/com/example/romfordeling/service/RoomAllocationService.java:124-127 | an award leaves the entry under every non-member name as it was, and with fresh member names it appends one entry per member in member order |
| Allocation.AwardFresh | src/main/java/com/example/romfordeling/service/RoomAllocationService.java:124-127 | with distinct applicant names, members that are all waiting have distinct names that are not keys yet |
| Allocation.AwardAppends | src/main/java/com/example/romfordeling/service/RoomAllocationService.java:124-127 | with distinct names, awarding a room whose contenders are all waiting keeps every earlier entry in place at the front of the map |
| Allocation.AwardConsistent | src/main/java/com/example/romfordeling/service/RoomAllocationService.java:124-127 | awarding a room to a valid candidate keeps the loop invariant, since each member gets its own wish at this rank |
| Allocation.AwardFlag | src/main/java/com/example/romfordeling/service/RoomAllocationService.java:128-136 | for a room on offer, the flag is raised exactly when some room is on offer after the award that was not on offer before it |
| Allocation.AwardShrinks | src/main/java/com/example/romfordeling/service/RoomAllocationService.java:124-126 | when the winner's members were waiting, the waiting set strictly shrinks |
| Allocation.Step | src/main/java/com/example/romfordeling/service/RoomAllocationService.java:73-136 | a room no longer on offer is skipped; a room still on offer after its step had no candidate; only contenders for the room leave the waiting set; the flag means the pool gained a room; a flagged step placed somebody; the loop invariant is kept |
| Allocation.ProcessRooms | src/main/java/com/example/romfordeling/service/RoomAllocationService.java:72-137 | over the rooms of a pass, only snapshot contenders leave the waiting set, a raised flag means somebody was placed, and the loop invariant is kept |
| Allocation.ProcessRoomsQuiet | src/main/java/com/example/romfordeling/service/RoomAllocationService.java:72-137 | a run of rooms that raised no flag never grew the pool, and each of its rooms still on offer had no candidate |
| Allocation.Shuffle | src/main/java/com/example/romfordeling/service/RoomAllocationService.java:68-72 | the processing order holds exactly the rooms to process, each once |
| Allocation.ShuffleFrame | src/main/java/com/example/romfordeling/service/RoomAllocationService.java:68-72 | the order of a pass depends only on the draws at the positions it reads, one per room |
| Allocation.ShuffleComplete | src/main/java/com/example/romfordeling/service/RoomAllocationService.java:68-72 | every ordering of the distinct rooms to process, and so every iteration order of the `HashSet`, is the order drawn for some stream |
| Allocation.Pass | src/main/java/com/example/romfordeling/service/RoomAllocationService.java:42-137 | with no contender nothing changes and no repeat is asked for; only contenders leave the waiting set; a requested repeat follows a pass that placed somebody; the loop invariant is kept |
| Allocation.PassQuiet | src/main/java/com/example/romfordeling/service/RoomAllocationService.java:42-138 | after a pass that asks for no repeat, no room has a candidate at this rank, so one more pass would place nobody |
| Allocation.RunRank | src/main/java/com/example/romfordeling/service/RoomAllocationService.java:40-138 | the do-while loop ends, because a repeat always follows a shrinking of the waiting set; only applicants with a wish at this rank leave the waiting set; it stops with no candidate left at the rank; the invariant is kept |
| Allocation.RunRanks | src/main/java/com/example/romfordeling/service/RoomAllocationService.java:39-139 | running the ranks from `rank` up to 7 only shrinks the waiting set; whoever leaves it has a wish at position `rank`, so an applicant with fewer wishes is never placed by the later ranks; the loop invariant is kept |
| Allocation.StepAppends | src/main/java/com/example/romfordeling/service/RoomAllocationService.java:72-136 | with distinct names, one room step only appends to the map |
| Allocation.ProcessRoomsAppends | src/main/java/com/example/romfordeling/service/RoomAllocationService.java:72-137 | with distinct names, the rooms of a pass only append to the map |
| Allocation.PassAppends | src/main/java/com/example/romfordeling/service/RoomAllocationService.java:42-137 | with distinct names, a pass only appends to the map |
| Allocation.RunRankAppends | src/main/java/com/example/romfordeling/service/RoomAllocationService.java:40-138 | with distinct names, the loop at one rank only appends to the map: every earlier entry keeps its value and place |
| Allocation.RunRanksAppends | src/main/java/com/example/romfordeling/service/RoomAllocationService.java:39-139 | with distinct names, the loop over the ranks only appends to the map, so the map lists the assignments in the order they were won |
| Service.NormalizeAll | src/main/java/com/example/romfordeling/service/RoomAllocationService.java:29-31 | each applicant state is the normalization of the request at the same position |
| Service.Start | src/main/java/com/example/romfordeling/service/RoomAllocationService.java:33-37 | at the start everybody waits, the map is empty, the pool holds exactly the cleaned room list, and the loop invariant holds |
| Service.Waiting | src/main/java/com/example/romfordeling/service/RoomAllocationService.java:142 | the waiting applicants are listed once each, in index order |
| Service.WaitingCard | src/main/java/com/example/romfordeling/service/RoomAllocationService.java:142-144 | the waiting list has one entry per waiting applicant |
| Service.WaitingLines | src/main/java/com/example/romfordeling/service/RoomAllocationService.java:142-144 | every waiting applicant gets one line with a null room and the no-room note, and every line belongs to a waiting applicant |
| Service.Report | src/main/java/com/example/romfordeling/service/RoomAllocationService.java:141-146 | the assignments are the map's entries in order; there is one no-room line per waiting applicant; every applicant is a key of the map or has a no-room line; with distinct names no waiting name is a key and the two lists add up to the number of applicants |
| Service.Run | src/main/java/com/example/romfordeling/service/RoomAllocationService.java:39-139 | the loop over all ranks, run from the start state, ends in a state satisfying the loop invariant |
| Service.Assign | src/main/java/com/example/romfordeling/service/RoomAllocationService.java:23-146 | a null or empty applicant list gives two empty lists; every waiting line has a null room and the no-room note; no name occurs twice among the assignments |
| Service.AssignPlacesEveryone | src/main/java/com/example/romfordeling/service/RoomAllocationService.java:36-146 | every assignment grants an applicant one of its own normalized wishes with the matching note, and every applicant is either among the assignments or listed as waiting with the no-room note |
| Service.AssignPartitions | src/main/java/com/example/romfordeling/service/RoomAllocationService.java:36-146 | with distinct normalized names, each applicant is in exactly one of the two lists, and the two lists together are as long as the applicant list |
| Service.NoRoomsNoAssignments | src/main/java/com/example/romfordeling/service/RoomAllocationService.java:45-66 | when the room list offers nothing, nobody is assigned and every applicant is listed as waiting |
| Scenarios.NormalizeRequest | src/main/java/com/example/romfordeling/service/RoomAllocationService.java:164-190 | a request whose name, current room and single wish are written without blanks or control characters normalizes to that name, seniority and current room, priority 0 for a missing class, and one preference with no group code |
| Scenarios.SoloWinner | src/main/java/com/example/romfordeling/service/RoomAllocationService.java:76-123 | when every contender for a room asks for it without a code and one of them outranks all the others on (seniority, room priority), that one wins the room for every draw |
| Scenarios.PassSolo | src/main/java/com/example/romfordeling/service/RoomAllocationService.java:42-137 | a pass whose contenders all claim one room without a code, one outranking the rest: the map gains that applicant's entry at the end, it leaves the waiting set, the room leaves the pool and the room it held joins it, and a repeat is asked for exactly when the pool gained a room |
| Scenarios.PassAlone | src/main/java/com/example/romfordeling/service/RoomAllocationService.java:42-137 | a pass with one contender taking the only room on offer: afterwards the pool holds just the room it moved out of (if any), and a repeat is asked for exactly when it moved out of one |
| Scenarios.OlaKariAssign | src/main/java/com/example/romfordeling/service/RoomAllocationService.java:23-146 | Ola (seniority 3) and Kari (seniority 5) both want R1, the only room: for every draw stream the response places Kari in R1 with the solo note and lists Ola as waiting with the no-room note |
| Scenarios.PerNinaFirstPass | src/main/java/com/example/romfordeling/service/RoomAllocationService.java:72-136 | Per lives in H1 and wants R1, Nina wants H1, and only R1 is offered: the first pass of rank 0 gives R1 to Per, offers H1 again and asks for a repeat |
| Scenarios.PerNinaRank | src/main/java/com/example/romfordeling/service/RoomAllocationService.java:40-138 | in that cascade rank 0 does not stop after the first pass: the repeated pass gives H1 to Nina, and the rank ends with both placed, Per first, and nothing on offer |
| Scenarios.PerNinaAssign | src/main/java/com/example/romfordeling/service/RoomAllocationService.java:23-146 | the whole response for the cascade, for every draw stream: Per in R1 and then Nina in H1, both with the solo note, and nobody waiting |

## Left out

- Contention.Pair: the pair scores are unbounded sums. Java adds two `int`s, which could wrap around for seniorities near 2^31. Seniority is clamped to at least 0 and realistic values are small, so the wrap-around is not modelled.
- Applicants.RoomTypePriority: `toLowerCase(Locale.ROOT)` is modelled for ASCII letters only.
  - Java also maps some non-ASCII letters onto the table's keys, such as the Kelvin sign to `k`. The model gives such class names priority 0.
- Text.Trim: characters are Dafny `char`s. Supplementary characters are not split into UTF-16 surrogates, which makes no difference to trimming or splitting at the ASCII separators.
- Text.Tokens: the empty string splits into no pieces here and into one empty piece in Java. Both give the room `""` and the code `""` in `Applicants.ParsePreference`.
- `java.util.Random` and the `Collections.shuffle` algorithm: replaced by the draw stream. The completeness lemmas show that every single choice the sort allows is reachable. The probabilities of those outcomes, and whether a whole run's combination of choices is reachable by one stream, are not modelled.
- Allocation.Shuffle: the `HashSet` iteration order of `roomsToProcess` is fixed by the rooms' hash codes in the source. The model draws it from the stream instead, so it admits orders the service never uses. It does not model `String.hashCode` or the hash table's bucket layout.
- Service.Report: the waiting applicants are listed in index order. The source lists them in `HashSet` iteration order, which the program does not fix.
- A null element inside the applicant list makes the source throw a `NullPointerException`. The model takes a list of records; every field of a record may be null.
- The `Assignment` and `AssignmentResponse` model classes are not part of this model beyond their fields. Nor are `RoomAllocationController.java` (HTTP wiring and a null check on the request) and `app.js` (browser-side rendering and input checks).
