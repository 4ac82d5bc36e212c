/**
  The applicant normalizer and the preference parser: how a raw request
  record becomes the immutable applicant state the allocator works on
  (`ApplicantState.from`, `Preference.fromRaw`, `cleanRoomList`).
 */
module Applicants {
  import opened Wrappers
  import opened Text

  /** At most this many preference entries are kept per applicant. */
  const MaxPreferences: nat := 8

  /**
    The request record as it arrives; every reference-typed field may be
    null, and so may each element of the preference list.
   */
  datatype RawApplicant = RawApplicant(
    name: Option<string>,
    currentRoom: Option<string>,
    currentRoomType: Option<string>,
    seniority: int,
    preferences: Option<seq<Option<string>>>)

  /** One parsed preference: the room, and a group code (`""` for a solo claim). */
  datatype Preference = Preference(room: string, groupCode: string)

  /** The normalized applicant state. */
  datatype Applicant = Applicant(
    name: string,
    seniority: int,
    currentRoomPriority: int,
    currentRoom: string,
    preferences: seq<Preference>)

  /** The shape every normalized applicant has. */
  predicate IsNormal(a: Applicant) {
    && IsTrimmed(a.name)
    && IsTrimmed(a.currentRoom)
    && a.seniority >= 0
    && 0 <= a.currentRoomPriority <= 4
    && |a.preferences| <= MaxPreferences
    && forall k :: 0 <= k < |a.preferences| ==> IsParsed(a.preferences[k])
  }

  /** A preference parsed from a non-blank entry: a room token and an optional code token. */
  predicate IsParsed(p: Preference) {
    IsToken(p.room) && (p.groupCode == "" || IsToken(p.groupCode))
  }

  /** `cleanString`: null becomes the empty string, anything else is trimmed. */
  function CleanString(v: Option<string>): (r: string)
    ensures IsTrimmed(r)
    ensures v.None? ==> r == ""
    ensures v.Some? ==> r == Trim(v.value)
  {
    match v
    case None => ""
    case Some(s) => Trim(s)
  }

  /** The closed class table of `roomTypePriority`, keyed by lower-case class name. */
  const RoomClasses: map<string, int> := map["fleksirom" := 4, "parrom" := 3, "enkeltrom" := 2, "porten" := 1]

  /** `roomTypePriority`: the class table, consulted after trimming and lower-casing. */
  function RoomTypePriority(roomType: Option<string>): (p: int)
    ensures 0 <= p <= 4
    ensures roomType.None? ==> p == 0
    ensures roomType.Some? ==> p == (var key := Lower(Trim(roomType.value)); if key in RoomClasses then RoomClasses[key] else 0)
  {
    match roomType
    case None => 0
    case Some(t) =>
      var normalized := Lower(Trim(t));
      if normalized == "fleksirom" then 4
      else if normalized == "parrom" then 3
      else if normalized == "enkeltrom" then 2
      else if normalized == "porten" then 1
      else 0
  }

  /** `Preference.fromRaw`: first token is the room, second the group code, the rest is ignored. */
  function ParsePreference(raw: string): (p: Preference)
    ensures p.room == "" <==> Trim(raw) == ""
    ensures p.room != "" ==> IsToken(p.room) && p.room <= Trim(raw)
    ensures p.room != "" ==> |p.room| == |Trim(raw)| || IsSpace(Trim(raw)[|p.room|])
    ensures p.groupCode == "" || IsToken(p.groupCode)
  {
    var parts := Tokens(Trim(raw));
    var room := if |parts| > 0 then parts[0] else "";
    var code := if |parts| > 1 then parts[1] else "";
    TokensHead(Trim(raw));
    Preference(room, code)
  }

  /**
    An entry written as tokens with separator runs between them, padded with
    trim characters, parses to its first token as the room and its second
    token (or nothing) as the group code; further tokens are ignored.
   */
  lemma ParseOfEntry(lead: string, ws: seq<string>, seps: seq<string>, trail: string)
    requires |ws| >= 1 && |seps| == |ws| - 1 && AllTokens(ws) && AllSeparators(seps)
    requires AllTrim(lead) && AllTrim(trail)
    requires !IsTrimChar(ws[0][0]) && !IsTrimChar(ws[|ws| - 1][|ws[|ws| - 1]| - 1])
    ensures ParsePreference(lead + JoinWith(ws, seps) + trail) == Preference(ws[0], if |ws| > 1 then ws[1] else "")
  {
    var j := JoinWith(ws, seps);
    assert IsToken(ws[0]) && IsToken(ws[|ws| - 1]);
    JoinWithLast(ws, seps);
    TrimOfPadded(lead, j, trail);
    assert j == [] + j + [];
    TokensOfJoin(j, [], ws, seps, []);
  }

  /**
    The parse of a non-blank entry is (`room`, `code`) exactly when its trimmed
    text is tokens separated by separator runs, the first being `room` and the
    second `code` (or `code` is empty and there is no second).
   */
  lemma ParseCharacterized(raw: string, room: string, code: string)
    requires Trim(raw) != ""
    ensures ParsePreference(raw) == Preference(room, code) <==>
            exists ws, seps :: SplitAs(Trim(raw), [], ws, seps, []) && ws[0] == room &&
                               code == (if |ws| > 1 then ws[1] else "")
  {
    var t := Trim(raw);
    TokensSplit(t);
    if ParsePreference(raw) == Preference(room, code) {
      var lead, seps, trail :| SplitAs(t, lead, Tokens(t), seps, trail);
      TrimmedSplit(t, lead, Tokens(t), seps, trail);
    }
    if exists ws, seps :: SplitAs(t, [], ws, seps, []) && ws[0] == room && code == (if |ws| > 1 then ws[1] else "") {
      var ws, seps :| SplitAs(t, [], ws, seps, []) && ws[0] == room && code == (if |ws| > 1 then ws[1] else "");
      TokensOfJoin(t, [], ws, seps, []);
    }
  }

  /** An entry with doubled blanks, a tab and padding: the first two tokens are kept. */
  lemma ParseExample()
    ensures ParsePreference("  R1  X\tY ") == Preference("R1", "X")
  {
    var ws := ["R1", "X", "Y"];
    var seps := ["  ", "\t"];
    assert AllTokens(ws) && AllSeparators(seps);
    assert "  " + JoinWith(ws, seps) + " " == "  R1  X\tY ";
    ParseOfEntry("  ", ws, seps, " ");
  }

  predicate AllClean(r: seq<string>) {
    forall k :: 0 <= k < |r| ==> r[k] != "" && IsTrimmed(r[k])
  }

  lemma AllCleanCons(c: string, r: seq<string>)
    requires c != "" && IsTrimmed(c) && AllClean(r)
    ensures AllClean([c] + r)
  {
    forall k | 0 <= k < |r| + 1
      ensures ([c] + r)[k] != "" && IsTrimmed(([c] + r)[k])
    {
      if k > 0 {
        assert ([c] + r)[k] == r[k - 1];
      }
    }
  }

  /** The trimmed, non-blank entries of a raw list, in their original order. */
  function CleanEntries(xs: seq<Option<string>>): (r: seq<string>)
    ensures |r| <= |xs|
  {
    if xs == [] then []
    else
      var c := CleanString(xs[0]);
      var rest := CleanEntries(xs[1..]);
      if c == "" then rest else [c] + rest
  }

  /** Cleaning leaves only non-blank, trimmed entries. */
  lemma {:induction false} CleanEntriesClean(xs: seq<Option<string>>)
    ensures AllClean(CleanEntries(xs))
  {
    if xs != [] {
      CleanEntriesClean(xs[1..]);
      var c := CleanString(xs[0]);
      if c != "" {
        AllCleanCons(c, CleanEntries(xs[1..]));
      }
    }
  }

  /** A name survives cleaning exactly when some entry cleans to it and it is not blank. */
  lemma {:induction false} CleanEntriesMembers(xs: seq<Option<string>>, x: string)
    ensures x in CleanEntries(xs) <==> x != "" && exists k :: 0 <= k < |xs| && CleanString(xs[k]) == x
  {
    if xs != [] {
      CleanEntriesMembers(xs[1..], x);
      if x != "" && CleanString(xs[0]) != x {
        if k :| 0 <= k < |xs| && CleanString(xs[k]) == x {
          assert k > 0 && xs[1..][k - 1] == xs[k];
        }
      }
    }
  }

  /** `h + (x + y) == (h + x) + y`. */
  lemma AppendAssoc<T>(h: seq<T>, x: seq<T>, y: seq<T>)
    ensures h + (x + y) == (h + x) + y
  {
  }

  /** `a + b` starts with `a[0]` and continues with `a[1..] + b`. */
  lemma AppendSplit(a: seq<Option<string>>, b: seq<Option<string>>)
    requires a != []
    ensures a + b != [] && (a + b)[0] == a[0] && (a + b)[1..] == a[1..] + b
  {
  }

  lemma CleanEntriesAppendStep(a: seq<Option<string>>, b: seq<Option<string>>)
    requires a != [] && CleanEntries(a[1..] + b) == CleanEntries(a[1..]) + CleanEntries(b)
    ensures CleanEntries(a + b) == CleanEntries(a) + CleanEntries(b)
  {
    AppendSplit(a, b);
    var c := CleanString(a[0]);
    AppendAssoc(if c == "" then [] else [c], CleanEntries(a[1..]), CleanEntries(b));
  }

  /** Cleaning distributes over concatenation: nothing is reordered, only blanks dropped. */
  lemma {:induction false} CleanEntriesAppend(a: seq<Option<string>>, b: seq<Option<string>>)
    ensures CleanEntries(a + b) == CleanEntries(a) + CleanEntries(b)
  {
    if a == [] {
      assert a + b == b;
    } else {
      CleanEntriesAppend(a[1..], b);
      CleanEntriesAppendStep(a, b);
    }
  }

  /** `normalizePreferences`: the first `MaxPreferences` non-blank entries, parsed. */
  function NormalizePreferences(prefs: Option<seq<Option<string>>>): (r: seq<Preference>)
    ensures prefs.None? ==> r == []
    ensures |r| <= MaxPreferences
    ensures prefs.Some? ==> |r| == Min(MaxPreferences, |CleanEntries(prefs.value)|)
    ensures prefs.Some? ==> forall k :: 0 <= k < |r| ==> r[k] == ParsePreference(CleanEntries(prefs.value)[k])
    ensures forall k :: 0 <= k < |r| ==> IsParsed(r[k])
  {
    match prefs
    case None => []
    case Some(xs) =>
      var kept := Kept(xs);
      CleanEntriesClean(xs);
      seq(|kept|, k requires 0 <= k < |kept| => ParsePreference(kept[k]))
  }

  function Min(a: int, b: int): int {
    if a <= b then a else b
  }

  /** The entries that survive cleaning and truncation. */
  function Kept(xs: seq<Option<string>>): (r: seq<string>)
    ensures |r| == Min(MaxPreferences, |CleanEntries(xs)|)
    ensures r <= CleanEntries(xs)
  {
    var c := CleanEntries(xs);
    if |c| <= MaxPreferences then c else c[..MaxPreferences]
  }

  /** Entries after the eighth non-blank one never reach the applicant state. */
  lemma PreferencesTruncated(a: seq<Option<string>>, b: seq<Option<string>>)
    requires |CleanEntries(a)| >= MaxPreferences
    ensures NormalizePreferences(Some(a + b)) == NormalizePreferences(Some(a))
  {
    CleanEntriesAppend(a, b);
    assert Kept(a + b) == Kept(a);
  }

  /** `ApplicantState.from`. */
  function Normalize(raw: RawApplicant): (a: Applicant)
    ensures IsNormal(a)
    ensures a.seniority == if raw.seniority < 0 then 0 else raw.seniority
    ensures a.name == CleanString(raw.name) && a.currentRoom == CleanString(raw.currentRoom)
    ensures a.currentRoomPriority == RoomTypePriority(raw.currentRoomType)
    ensures a.preferences == NormalizePreferences(raw.preferences)
  {
    Applicant(
      CleanString(raw.name),
      if raw.seniority < 0 then 0 else raw.seniority,
      RoomTypePriority(raw.currentRoomType),
      CleanString(raw.currentRoom),
      NormalizePreferences(raw.preferences))
  }

  /**
    The raw record with every normalization already applied: names and rooms
    trimmed, the class trimmed and lower-cased, seniority clamped, and the
    preference list reduced to its kept entries.
   */
  function CleanRaw(raw: RawApplicant): RawApplicant {
    RawApplicant(
      Some(CleanString(raw.name)),
      Some(CleanString(raw.currentRoom)),
      CleanClass(raw.currentRoomType),
      if raw.seniority < 0 then 0 else raw.seniority,
      Some(CleanPreferences(raw.preferences)))
  }

  function CleanClass(t: Option<string>): Option<string> {
    match t
    case None => None
    case Some(c) => Some(Lower(Trim(c)))
  }

  function CleanPreferences(prefs: Option<seq<Option<string>>>): seq<Option<string>> {
    match prefs
    case None => []
    case Some(xs) => Somes(Kept(xs))
  }

  function Somes(xs: seq<string>): (r: seq<Option<string>>)
    ensures |r| == |xs| && forall k :: 0 <= k < |xs| ==> r[k] == Some(xs[k])
  {
    seq(|xs|, k requires 0 <= k < |xs| => Some(xs[k]))
  }

  lemma CleanEntriesCons(x: Option<string>, xs: seq<Option<string>>)
    ensures CleanEntries([x] + xs) == (if CleanString(x) == "" then [] else [CleanString(x)]) + CleanEntries(xs)
  {
    assert ([x] + xs)[1..] == xs;
  }

  lemma CleanEntriesOfCleanStep(head: string, tail: seq<string>)
    requires head != "" && IsTrimmed(head)
    requires CleanEntries(Somes(tail)) == tail
    ensures CleanEntries(Somes([head] + tail)) == [head] + tail
  {
    TrimIdempotent(head);
    assert Somes([head] + tail) == [Some(head)] + Somes(tail);
    CleanEntriesCons(Some(head), Somes(tail));
  }

  /** Cleaning a list that is already clean changes nothing. */
  lemma {:induction false} CleanEntriesOfClean(xs: seq<string>)
    requires forall x :: x in xs ==> x != "" && IsTrimmed(x)
    ensures CleanEntries(Somes(xs)) == xs
  {
    if xs != [] {
      var head, tail := xs[0], xs[1..];
      assert xs == [head] + tail;
      assert head in xs;
      assert forall x :: x in tail ==> x in xs;
      CleanEntriesOfClean(tail);
      CleanEntriesOfCleanStep(head, tail);
    }
  }

  lemma CleanStringIdempotent(v: Option<string>)
    ensures CleanString(Some(CleanString(v))) == CleanString(v)
  {
    TrimIdempotent(CleanString(v));
  }

  lemma CleanClassIdempotent(t: Option<string>)
    ensures CleanClass(CleanClass(t)) == CleanClass(t)
    ensures RoomTypePriority(CleanClass(t)) == RoomTypePriority(t)
  {
    if t.Some? {
      var c := Trim(t.value);
      LowerTrimmed(c);
      TrimIdempotent(Lower(c));
    }
  }

  lemma KeptOfClean(xs: seq<Option<string>>)
    ensures Kept(Somes(Kept(xs))) == Kept(xs)
  {
    var k := Kept(xs);
    CleanEntriesClean(xs);
    assert forall x :: x in k ==> x in CleanEntries(xs);
    CleanEntriesOfClean(k);
  }

  lemma CleanPreferencesIdempotent(prefs: Option<seq<Option<string>>>)
    ensures CleanPreferences(Some(CleanPreferences(prefs))) == CleanPreferences(prefs)
    ensures NormalizePreferences(Some(CleanPreferences(prefs))) == NormalizePreferences(prefs)
  {
    match prefs
    case None =>
      assert CleanEntries([]) == [];
    case Some(xs) =>
      KeptOfClean(xs);
  }

  /**
    Normalization is idempotent: normalizing the cleaned record gives the same
    applicant, and cleaning a cleaned record changes nothing.
   */
  lemma NormalizeIdempotent(raw: RawApplicant)
    ensures Normalize(CleanRaw(raw)) == Normalize(raw)
    ensures CleanRaw(CleanRaw(raw)) == CleanRaw(raw)
  {
    CleanStringIdempotent(raw.name);
    CleanStringIdempotent(raw.currentRoom);
    CleanClassIdempotent(raw.currentRoomType);
    CleanPreferencesIdempotent(raw.preferences);
  }

  /** `cleanRoomList`: the trimmed, non-blank room names; null gives none. */
  function CleanRoomList(rooms: Option<seq<Option<string>>>): (r: seq<string>)
    ensures rooms.None? ==> r == []
    ensures forall k :: 0 <= k < |r| ==> r[k] != "" && IsTrimmed(r[k])
  {
    match rooms
    case None => []
    case Some(xs) =>
      CleanEntriesClean(xs);
      CleanEntries(xs)
  }

  /** The rooms offered are exactly the non-blank trimmed names of the input list. */
  lemma CleanRoomListMembers(rooms: Option<seq<Option<string>>>, x: string)
    ensures x in CleanRoomList(rooms) <==> rooms.Some? && x != "" && exists k :: 0 <= k < |rooms.value| && CleanString(rooms.value[k]) == x
  {
    if rooms.Some? {
      CleanEntriesMembers(rooms.value, x);
    }
  }
}
