/**
  The result records of the service and the name-keyed, insertion-ordered
  map (`LinkedHashMap<String, Assignment>`) it collects assignments in.
 */
module Assignments {
  import opened Wrappers

  /** One line of the response: a name, the room it got (none when unassigned), and a note. */
  datatype Assignment = Assignment(name: string, room: Option<string>, note: string)

  /** The response: the assignments in insertion order, then everyone left without a room. */
  datatype Response = Response(assignments: seq<Assignment>, unassigned: seq<Assignment>)

  /** The keys of the map. */
  function Names(m: seq<Assignment>): set<string> {
    set x | x in m :: x.name
  }

  /** No key occurs twice: the shape of a map's entry list. */
  predicate NamesDistinct(m: seq<Assignment>) {
    forall p, q :: 0 <= p < q < |m| ==> m[p].name != m[q].name
  }

  lemma NamesCons(x: Assignment, m: seq<Assignment>)
    ensures Names([x] + m) == {x.name} + Names(m)
  {
    assert forall y :: y in [x] + m <==> y == x || y in m;
  }

  /** The entry stored under `name`. */
  function Get(m: seq<Assignment>, name: string): (r: Option<Assignment>)
    ensures r.Some? ==> r.value in m && r.value.name == name
    ensures r.None? <==> name !in Names(m)
  {
    if m == [] then None
    else
      NamesCons(m[0], m[1..]);
      assert m == [m[0]] + m[1..];
      if m[0].name == name then Some(m[0]) else Get(m[1..], name)
  }

  /**
    `LinkedHashMap.put`: a key already present keeps its position and gets the
    new value; a new key is appended at the end.
   */
  function Put(m: seq<Assignment>, a: Assignment): (r: seq<Assignment>)
    ensures a in r
    ensures forall x :: x in r ==> x == a || x in m
    ensures Names(r) == Names(m) + {a.name}
    ensures a.name in Names(m) ==> |r| == |m|
    ensures a.name !in Names(m) ==> r == m + [a]
    ensures a.name in Names(m) ==> exists k :: 0 <= k < |m| && m[k].name == a.name && r == m[k := a]
  {
    if m == [] then [a]
    else
      NamesCons(m[0], m[1..]);
      assert m == [m[0]] + m[1..];
      if m[0].name == a.name then
        NamesCons(a, m[1..]);
        assert [a] + m[1..] == m[0 := a];
        [a] + m[1..]
      else
        var rest := Put(m[1..], a);
        NamesCons(m[0], rest);
        UpdateCons(m[0], m[1..], rest, a);
        [m[0]] + rest
  }

  lemma UpdateCons(x: Assignment, m: seq<Assignment>, rest: seq<Assignment>, a: Assignment)
    ensures (exists k :: 0 <= k < |m| && m[k].name == a.name && rest == m[k := a]) ==>
            exists k :: 0 <= k < |m| + 1 && ([x] + m)[k].name == a.name && [x] + rest == ([x] + m)[k := a]
  {
    if exists k :: 0 <= k < |m| && m[k].name == a.name && rest == m[k := a] {
      var k :| 0 <= k < |m| && m[k].name == a.name && rest == m[k := a];
      assert ([x] + m)[k + 1] == m[k];
      assert [x] + rest == ([x] + m)[k + 1 := a];
    }
  }

  lemma DistinctCons(x: Assignment, m: seq<Assignment>)
    ensures NamesDistinct([x] + m) <==> NamesDistinct(m) && x.name !in Names(m)
  {
    var r := [x] + m;
    assert forall q :: 0 <= q < |m| ==> r[q + 1] == m[q];
    if x.name in Names(m) {
      var y :| y in m && y.name == x.name;
      var q :| 0 <= q < |m| && m[q] == y;
      assert r[0].name == r[q + 1].name;
    }
    if NamesDistinct(m) && x.name !in Names(m) {
      forall p, q | 0 <= p < q < |r| ensures r[p].name != r[q].name {
        assert r[q] == m[q - 1];
        if p == 0 {
          assert m[q - 1] in m;
        } else {
          assert r[p] == m[p - 1];
        }
      }
    }
  }

  /** `put` keeps the map a map. */
  lemma {:induction false} PutDistinct(m: seq<Assignment>, a: Assignment)
    requires NamesDistinct(m)
    ensures NamesDistinct(Put(m, a))
  {
    if m != [] {
      assert m == [m[0]] + m[1..];
      DistinctCons(m[0], m[1..]);
      if m[0].name == a.name {
        DistinctCons(a, m[1..]);
      } else {
        PutDistinct(m[1..], a);
        DistinctCons(m[0], Put(m[1..], a));
      }
    }
  }

  /** Reading back after `put`: the new value under its key, the old value under every other key. */
  lemma {:induction false} PutGet(m: seq<Assignment>, a: Assignment, name: string)
    ensures Get(Put(m, a), name) == if name == a.name then Some(a) else Get(m, name)
  {
    if m != [] {
      if m[0].name != a.name {
        PutGet(m[1..], a, name);
        assert ([m[0]] + Put(m[1..], a))[1..] == Put(m[1..], a);
      } else {
        assert ([a] + m[1..])[1..] == m[1..];
      }
    }
  }
}
