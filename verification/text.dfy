/**
  The string primitives the normalizer relies on: Java's `String.trim`,
  `split("\\s+")` on a trimmed string, and ASCII lower-casing.
 */
module Text {

  /** `String.trim` strips every character whose code point is at most U+0020. */
  predicate IsTrimChar(c: char) {
    c <= ' '
  }

  /** The six characters of the regular-expression class `\s` (no Unicode flag). */
  predicate IsSpace(c: char) {
    c == ' ' || c == '\t' || c == '\n' || c == '\U{000B}' || c == '\U{000C}' || c == '\r'
  }

  /** A string with no trim character at either end. */
  predicate IsTrimmed(s: string) {
    s == [] || (!IsTrimChar(s[0]) && !IsTrimChar(s[|s| - 1]))
  }

  /** `r` is the slice `s[i..j]` and everything outside it is a trim character. */
  ghost predicate CoreOf(s: string, r: string, i: int, j: int) {
    && 0 <= i <= j <= |s|
    && r == s[i..j]
    && (forall k :: 0 <= k < i ==> IsTrimChar(s[k]))
    && (forall k :: j <= k < |s| ==> IsTrimChar(s[k]))
  }

  ghost predicate TrimmedFrom(s: string, r: string) {
    exists i, j :: CoreOf(s, r, i, j)
  }

  function TrimStart(s: string): (r: string)
    ensures |r| <= |s|
  {
    if s != [] && IsTrimChar(s[0]) then TrimStart(s[1..]) else s
  }

  /** `TrimStart` drops a prefix of trim characters, and stops at the first other character. */
  lemma {:induction false} TrimStartSpec(s: string)
    ensures TrimStart(s) == s[|s| - |TrimStart(s)|..]
    ensures forall k :: 0 <= k < |s| - |TrimStart(s)| ==> IsTrimChar(s[k])
    ensures TrimStart(s) == [] || !IsTrimChar(TrimStart(s)[0])
  {
    if s != [] && IsTrimChar(s[0]) {
      TrimStartSpec(s[1..]);
    }
  }

  function TrimEnd(s: string): (r: string)
    ensures |r| <= |s|
  {
    if s != [] && IsTrimChar(s[|s| - 1]) then TrimEnd(s[..|s| - 1]) else s
  }

  /** `TrimEnd` drops a suffix of trim characters, and stops at the last other character. */
  lemma {:induction false} TrimEndSpec(s: string)
    ensures TrimEnd(s) == s[..|TrimEnd(s)|]
    ensures forall k :: |TrimEnd(s)| <= k < |s| ==> IsTrimChar(s[k])
    ensures TrimEnd(s) == [] || !IsTrimChar(TrimEnd(s)[|TrimEnd(s)| - 1])
  {
    if s != [] && IsTrimChar(s[|s| - 1]) {
      TrimEndSpec(s[..|s| - 1]);
    }
  }

  /** Java's `String.trim`: the trimmed core of `s`. */
  function Trim(s: string): (r: string)
    ensures IsTrimmed(r)
  {
    var a := TrimStart(s);
    TrimStartSpec(s);
    TrimEndSpec(a);
    assert TrimEnd(a) != [] ==> TrimEnd(a)[0] == a[0];
    TrimEnd(a)
  }

  /** `Trim` only cuts trim characters off the two ends. */
  lemma TrimIsCore(s: string)
    ensures TrimmedFrom(s, Trim(s))
  {
    var a := TrimStart(s);
    var b := TrimEnd(a);
    TrimStartSpec(s);
    TrimEndSpec(a);
    var i := |s| - |a|;
    var j := i + |b|;
    assert b == s[i..j] by {
      assert a == s[i..];
      assert b == a[..|b|];
    }
    forall k | j <= k < |s|
      ensures IsTrimChar(s[k])
    {
      assert s[k] == a[k - i];
    }
    assert CoreOf(s, b, i, j);
  }

  /** A trimmed non-empty core starts and ends at the outermost non-trim characters. */
  lemma CoreEnds(s: string, r: string, i: int, j: int)
    requires CoreOf(s, r, i, j) && IsTrimmed(r) && r != []
    ensures i < j && !IsTrimChar(s[i]) && !IsTrimChar(s[j - 1])
  {
    assert r[0] == s[i];
    assert r[|r| - 1] == s[j - 1];
  }

  /** An empty core means the whole string is made of trim characters. */
  lemma EmptyCore(s: string, i: int, j: int)
    requires CoreOf(s, [], i, j)
    ensures forall k :: 0 <= k < |s| ==> IsTrimChar(s[k])
  {
    assert i == j;
  }

  /** Two trimmed cores of the same string coincide. */
  lemma CoreUnique(s: string, r1: string, i1: int, j1: int, r2: string, i2: int, j2: int)
    requires CoreOf(s, r1, i1, j1) && IsTrimmed(r1)
    requires CoreOf(s, r2, i2, j2) && IsTrimmed(r2)
    ensures r1 == r2
  {
    if r1 == [] {
      EmptyCore(s, i1, j1);
      if r2 != [] {
        CoreEnds(s, r2, i2, j2);
      }
    } else if r2 == [] {
      EmptyCore(s, i2, j2);
      CoreEnds(s, r1, i1, j1);
    } else {
      CoreEnds(s, r1, i1, j1);
      CoreEnds(s, r2, i2, j2);
      assert i1 == i2;
      assert j1 == j2;
    }
  }

  /** `Trim` is the only trimmed string obtained from `s` by cutting trim characters off its ends. */
  lemma TrimCharacterized(s: string, r: string)
    ensures (TrimmedFrom(s, r) && IsTrimmed(r)) <==> r == Trim(s)
  {
    TrimIsCore(s);
    if TrimmedFrom(s, r) && IsTrimmed(r) {
      var i1, j1 :| CoreOf(s, r, i1, j1);
      var t := Trim(s);
      TrimIsCore(s);
      var i2, j2 :| CoreOf(s, t, i2, j2);
      CoreUnique(s, r, i1, j1, t, i2, j2);
    }
  }

  /** Trimming leaves an already trimmed string alone; hence `Trim` is idempotent. */
  lemma TrimIdempotent(s: string)
    ensures IsTrimmed(s) ==> Trim(s) == s
    ensures Trim(Trim(s)) == Trim(s)
  {
    if IsTrimmed(s) {
      assert CoreOf(s, s, 0, |s|);
      TrimCharacterized(s, s);
    }
    var t := Trim(s);
    assert CoreOf(t, t, 0, |t|);
    TrimCharacterized(t, t);
  }

  /** `toLowerCase(Locale.ROOT)` restricted to ASCII letters. */
  function LowerChar(c: char): char {
    if 'A' <= c <= 'Z' then (c as int + 32) as char else c
  }

  function Lower(s: string): (r: string)
    ensures |r| == |s|
    ensures forall k :: 0 <= k < |s| ==> r[k] == LowerChar(s[k])
  {
    seq(|s|, k requires 0 <= k < |s| => LowerChar(s[k]))
  }

  /** Lower-casing is idempotent and keeps a trimmed string trimmed. */
  lemma LowerTrimmed(s: string)
    ensures Lower(Lower(s)) == Lower(s)
    ensures IsTrimmed(s) ==> IsTrimmed(Lower(s))
  {
  }

  /** A token of `split("\\s+")`: non-empty, with no separator character. */
  predicate IsToken(w: string) {
    w != [] && forall k :: 0 <= k < |w| ==> !IsSpace(w[k])
  }

  predicate AllTokens(ts: seq<string>) {
    forall k :: 0 <= k < |ts| ==> IsToken(ts[k])
  }

  lemma AllTokensCons(w: string, ts: seq<string>)
    requires IsToken(w) && AllTokens(ts)
    ensures AllTokens([w] + ts)
  {
    forall k | 0 <= k < |ts| + 1
      ensures IsToken(([w] + ts)[k])
    {
      if k > 0 {
        assert ([w] + ts)[k] == ts[k - 1];
      }
    }
  }

  function DropSpaces(s: string): (r: string)
    ensures |r| <= |s|
  {
    if s != [] && IsSpace(s[0]) then DropSpaces(s[1..]) else s
  }

  /** `DropSpaces` drops the leading separators and nothing else. */
  lemma {:induction false} DropSpacesSpec(s: string)
    ensures DropSpaces(s) == s[|s| - |DropSpaces(s)|..]
    ensures forall k :: 0 <= k < |s| - |DropSpaces(s)| ==> IsSpace(s[k])
    ensures DropSpaces(s) == [] || !IsSpace(DropSpaces(s)[0])
  {
    if s != [] && IsSpace(s[0]) {
      DropSpacesSpec(s[1..]);
    }
  }

  /** The longest prefix of `s` free of separator characters. */
  function Word(s: string): (w: string)
    ensures |w| <= |s|
  {
    if s == [] || IsSpace(s[0]) then [] else [s[0]] + Word(s[1..])
  }

  lemma {:induction false} WordSpec(s: string)
    ensures Word(s) == s[..|Word(s)|]
    ensures IsToken(Word(s)) || Word(s) == []
    ensures |Word(s)| == |s| || IsSpace(s[|Word(s)|])
  {
    if !(s == [] || IsSpace(s[0])) {
      WordSpec(s[1..]);
      var w := Word(s[1..]);
      assert Word(s) == [s[0]] + w;
      assert s == [s[0]] + s[1..];
    }
  }

  /**
    The tokens of `s`: the maximal runs of non-separator characters, in order.
    For a string that does not start with a separator (every trimmed string)
    this is exactly the array Java's `split("\\s+")` returns, except that the
    empty string splits to `[""]` there and to `[]` here.
   */
  function Tokens(s: string): (ts: seq<string>)
    ensures AllTokens(ts)
    decreases |s|
  {
    var t := DropSpaces(s);
    if t == [] then []
    else
      var w := Word(t);
      DropSpacesSpec(s);
      WordSpec(t);
      var rest := Tokens(t[|w|..]);
      AllTokensCons(w, rest);
      [w] + rest
  }

  /**
    A trimmed string has tokens exactly when it is non-empty; its first token
    is a prefix of it, followed by a separator or by nothing.
   */
  lemma TokensHead(s: string)
    requires IsTrimmed(s)
    ensures s == [] ==> Tokens(s) == []
    ensures s != [] ==> |Tokens(s)| > 0 && Tokens(s)[0] <= s
    ensures s != [] ==> |Tokens(s)[0]| == |s| || IsSpace(s[|Tokens(s)[0]|])
  {
    if s == [] {
      TokensOfEmpty();
    } else {
      assert !IsSpace(s[0]);
      assert DropSpaces(s) == s;
      var w := Word(s);
      WordSpec(s);
      assert Tokens(s) == [w] + Tokens(s[|w|..]);
    }
  }

  lemma {:induction false} WordOfToken(w: string, rest: string)
    requires IsToken(w)
    requires rest == [] || IsSpace(rest[0])
    ensures Word(w + rest) == w
    decreases |w|
  {
    var s := w + rest;
    assert s[0] == w[0];
    if |w| == 1 {
      assert s[1..] == rest;
    } else {
      assert s[1..] == w[1..] + rest;
      WordOfToken(w[1..], rest);
      assert [w[0]] + w[1..] == w;
    }
  }

  lemma TokensCons(w: string, rest: string)
    requires IsToken(w)
    requires rest == [] || IsSpace(rest[0])
    ensures Tokens(w + rest) == [w] + Tokens(rest)
  {
    var s := w + rest;
    assert s[0] == w[0];
    assert DropSpaces(s) == s;
    WordOfToken(w, rest);
    assert s[|w|..] == rest;
  }

  lemma TokensOfEmpty()
    ensures Tokens([]) == []
  {
    assert DropSpaces([]) == [];
  }

  /** A string made only of separator characters (possibly none). */
  predicate AllSpace(s: string) {
    forall k :: 0 <= k < |s| ==> IsSpace(s[k])
  }

  /** A string made only of trim characters (possibly none). */
  predicate AllTrim(s: string) {
    forall k :: 0 <= k < |s| ==> IsTrimChar(s[k])
  }

  /** What `\s+` matches between two tokens: one or more separator characters. */
  predicate IsSeparator(s: string) {
    s != [] && AllSpace(s)
  }

  predicate AllSeparators(seps: seq<string>) {
    forall k :: 0 <= k < |seps| ==> IsSeparator(seps[k])
  }

  /** The words `ws` with `seps[k]` written between `ws[k]` and `ws[k + 1]`. */
  function JoinWith(ws: seq<string>, seps: seq<string>): (s: string)
    requires |ws| >= 1 && |seps| == |ws| - 1
    ensures ws[0] != [] ==> s != [] && s[0] == ws[0][0]
    decreases |ws|
  {
    if |ws| == 1 then ws[0] else ws[0] + seps[0] + JoinWith(ws[1..], seps[1..])
  }

  /**
    `s` consists of the tokens `ws`, separated by the runs `seps`, with
    separator characters (possibly none) before the first and after the last.
   */
  predicate SplitAs(s: string, lead: string, ws: seq<string>, seps: seq<string>, trail: string) {
    && |ws| >= 1 && |seps| == |ws| - 1
    && AllTokens(ws) && AllSeparators(seps) && AllSpace(lead) && AllSpace(trail)
    && s == lead + JoinWith(ws, seps) + trail
  }

  lemma {:induction false} DropSpacesOfSpaces(lead: string, x: string)
    requires AllSpace(lead)
    ensures DropSpaces(lead + x) == DropSpaces(x)
    decreases |lead|
  {
    if lead != [] {
      assert (lead + x)[0] == lead[0];
      assert (lead + x)[1..] == lead[1..] + x;
      DropSpacesOfSpaces(lead[1..], x);
    } else {
      assert lead + x == x;
    }
  }

  /** Leading separators do not change the tokens. */
  lemma TokensOfSpaces(lead: string, x: string)
    requires AllSpace(lead)
    ensures Tokens(lead + x) == Tokens(x)
  {
    DropSpacesOfSpaces(lead, x);
  }

  /** A string of separators has no tokens. */
  lemma TokensOfAllSpace(s: string)
    requires AllSpace(s)
    ensures Tokens(s) == []
  {
    DropSpacesOfSpaces(s, []);
    assert s + [] == s;
    TokensOfEmpty();
  }

  /** A join of two or more words is the first word, the first separator, then the join of the rest. */
  lemma JoinWithCons(ws: seq<string>, seps: seq<string>, trail: string)
    requires |ws| >= 2 && |seps| == |ws| - 1
    ensures JoinWith(ws, seps) + trail == ws[0] + (seps[0] + (JoinWith(ws[1..], seps[1..]) + trail))
  {
  }

  /** Without its first word and separator, a join's word and separator lists keep their shape. */
  lemma TailSplit(ws: seq<string>, seps: seq<string>)
    requires |ws| >= 2 && |seps| == |ws| - 1 && AllTokens(ws) && AllSeparators(seps)
    ensures AllTokens(ws[1..]) && AllSeparators(seps[1..]) && IsSeparator(seps[0]) && IsToken(ws[0])
  {
    assert forall k :: 0 <= k < |ws| - 1 ==> ws[1..][k] == ws[k + 1];
    assert forall k :: 0 <= k < |seps| - 1 ==> seps[1..][k] == seps[k + 1];
  }

  lemma {:induction false} TokensOfJoinTail(ws: seq<string>, seps: seq<string>, trail: string)
    requires |ws| >= 1 && |seps| == |ws| - 1
    requires AllTokens(ws) && AllSeparators(seps) && AllSpace(trail)
    ensures Tokens(JoinWith(ws, seps) + trail) == ws
    decreases |ws|
  {
    if |ws| == 1 {
      TokensCons(ws[0], trail);
      TokensOfAllSpace(trail);
      assert ws == [ws[0]];
    } else {
      TailSplit(ws, seps);
      var rest := JoinWith(ws[1..], seps[1..]) + trail;
      TokensOfJoinTail(ws[1..], seps[1..], trail);
      JoinWithCons(ws, seps, trail);
      assert (seps[0] + rest)[0] == seps[0][0];
      TokensCons(ws[0], seps[0] + rest);
      TokensOfSpaces(seps[0], rest);
      assert ws == [ws[0]] + ws[1..];
    }
  }

  /**
    Splitting tokens written with any separator runs between them, and any
    separators around them, gives the same tokens back, in order.
   */
  lemma TokensOfJoin(s: string, lead: string, ws: seq<string>, seps: seq<string>, trail: string)
    requires SplitAs(s, lead, ws, seps, trail)
    ensures Tokens(s) == ws
  {
    var j := JoinWith(ws, seps);
    assert s == lead + (j + trail);
    TokensOfSpaces(lead, j + trail);
    TokensOfJoinTail(ws, seps, trail);
  }

  lemma SplitOne(s: string, lead: string, w: string, rest: string)
    requires s == lead + w + rest && AllSpace(lead) && AllSpace(rest) && IsToken(w)
    ensures SplitAs(s, lead, [w], [], rest)
  {
    assert AllTokens([w]);
  }

  lemma SplitCons(s: string, lead: string, w: string, rest: string,
                  sep: string, ws: seq<string>, seps: seq<string>, trail: string)
    requires s == lead + w + rest && AllSpace(lead) && IsToken(w) && IsSeparator(sep)
    requires SplitAs(rest, sep, ws, seps, trail)
    ensures SplitAs(s, lead, [w] + ws, [sep] + seps, trail)
  {
    var all := [w] + ws;
    var alls := [sep] + seps;
    assert all[1..] == ws && alls[1..] == seps;
    assert JoinWith(all, alls) == w + sep + JoinWith(ws, seps);
    AllTokensCons(w, ws);
    assert AllSeparators(alls) by {
      forall k | 0 <= k < |alls| ensures IsSeparator(alls[k]) {
        if k > 0 { assert alls[k] == seps[k - 1]; }
      }
    }
    assert s == lead + JoinWith(all, alls) + trail;
  }

  /** The unfolding of `Tokens` at a string with a token in it. */
  lemma TokensUnfold(s: string) returns (lead: string, w: string, rest: string)
    requires DropSpaces(s) != []
    ensures s == lead + w + rest && AllSpace(lead) && IsToken(w)
    ensures rest == [] || IsSpace(rest[0])
    ensures Tokens(s) == [w] + Tokens(rest) && |rest| < |s|
  {
    var t := DropSpaces(s);
    DropSpacesSpec(s);
    lead := s[..|s| - |t|];
    w := Word(t);
    WordSpec(t);
    rest := t[|w|..];
    assert t == w + rest;
    assert s == lead + t;
  }

  lemma NoTokensAllSpace(s: string)
    requires DropSpaces(s) == []
    ensures Tokens(s) == [] && AllSpace(s)
  {
    DropSpacesSpec(s);
  }

  /**
    Every string either consists of separators only and has no tokens, or is
    its tokens written with separator runs between them and separators around.
   */
  lemma {:induction false} TokensSplit(s: string)
    ensures Tokens(s) == [] <==> AllSpace(s)
    ensures Tokens(s) != [] ==> exists lead, seps, trail :: SplitAs(s, lead, Tokens(s), seps, trail)
    decreases |s|
  {
    if DropSpaces(s) == [] {
      NoTokensAllSpace(s);
    } else {
      var lead, w, rest := TokensUnfold(s);
      assert s[|lead|] == w[0];
      TokensSplit(rest);
      if Tokens(rest) == [] {
        SplitOne(s, lead, w, rest);
        assert Tokens(s) == [w];
      } else {
        var sep, seps, trail :| SplitAs(rest, sep, Tokens(rest), seps, trail);
        assert sep != [];
        SplitCons(s, lead, w, rest, sep, Tokens(rest), seps, trail);
      }
    }
  }

  /**
    The tokens of `s` are `ws` exactly when `s` is `ws` written with separator
    runs between them and separators around them: the maximal runs of
    non-separator characters, in order.
   */
  lemma TokensCharacterized(s: string, ws: seq<string>)
    requires ws != []
    ensures Tokens(s) == ws <==> exists lead, seps, trail :: SplitAs(s, lead, ws, seps, trail)
  {
    TokensSplit(s);
    if exists lead, seps, trail :: SplitAs(s, lead, ws, seps, trail) {
      var lead, seps, trail :| SplitAs(s, lead, ws, seps, trail);
      TokensOfJoin(s, lead, ws, seps, trail);
    }
  }

  lemma JoinWithLast(ws: seq<string>, seps: seq<string>)
    requires |ws| >= 1 && |seps| == |ws| - 1 && ws[|ws| - 1] != []
    ensures var s := JoinWith(ws, seps);
            s != [] && s[|s| - 1] == ws[|ws| - 1][|ws[|ws| - 1]| - 1]
    decreases |ws|
  {
    if |ws| > 1 {
      JoinWithLast(ws[1..], seps[1..]);
    }
  }

  /** Trim characters around a trimmed string are exactly what `Trim` cuts off. */
  lemma TrimOfPadded(lead: string, r: string, trail: string)
    requires AllTrim(lead) && AllTrim(trail) && IsTrimmed(r)
    ensures Trim(lead + r + trail) == r
  {
    var s := lead + r + trail;
    var i := |lead|;
    var j := |lead| + |r|;
    assert s[i..j] == r;
    assert forall k :: 0 <= k < i ==> s[k] == lead[k];
    assert forall k :: j <= k < |s| ==> s[k] == trail[k - j];
    assert CoreOf(s, r, i, j);
    TrimCharacterized(s, r);
  }

  /** A trimmed string written as tokens and separators has nothing around its tokens. */
  lemma TrimmedSplit(s: string, lead: string, ws: seq<string>, seps: seq<string>, trail: string)
    requires IsTrimmed(s) && SplitAs(s, lead, ws, seps, trail)
    ensures lead == [] && trail == []
  {
    assert IsToken(ws[0]);
  }
}
