/** What filtering a list and reading off a value means, without a loop or a fold: the
    values at exactly the places that pass the test, in order. */
module Selection {
  ghost predicate Selects<S(!new), T>(s: seq<S>, p: S -> bool, f: S -> T, out: seq<T>, places: seq<nat>) {
    |places| == |out| &&
    (forall i, j :: 0 <= i < j < |places| ==> places[i] < places[j]) &&
    (forall i: nat :: i in places <==> i < |s| && p(s[i])) &&
    (forall j :: 0 <= j < |out| ==> places[j] < |s| && out[j] == f(s[places[j]]))
  }

  ghost predicate IsSelection<S(!new), T>(s: seq<S>, p: S -> bool, f: S -> T, out: seq<T>) {
    exists places :: Selects(s, p, f, out, places)
  }

  lemma SelectNone<S(!new), T>(p: S -> bool, f: S -> T)
    ensures IsSelection([], p, f, [])
  {
    assert Selects([], p, f, [], []);
  }

  lemma SelectsSkip<S(!new), T>(s: seq<S>, p: S -> bool, f: S -> T, out: seq<T>, places: seq<nat>, x: S)
    requires Selects(s, p, f, out, places) && !p(x)
    ensures Selects(s + [x], p, f, out, places)
  {
    var t := s + [x];
    forall i: nat ensures i in places <==> i < |t| && p(t[i]) {
      if i < |s| { assert t[i] == s[i]; }
    }
  }

  lemma SelectsTake<S(!new), T>(s: seq<S>, p: S -> bool, f: S -> T, out: seq<T>, places: seq<nat>, x: S)
    requires Selects(s, p, f, out, places) && p(x)
    ensures Selects(s + [x], p, f, out + [f(x)], places + [|s|])
  {
    var t, next: seq<nat> := s + [x], places + [|s|];
    forall i: nat ensures i in next <==> i < |t| && p(t[i]) {
      assert i in next <==> i in places || i == |s|;
      if i < |s| { assert t[i] == s[i]; }
    }
    forall j | 0 <= j < |places| ensures places[j] < |s| && t[places[j]] == s[places[j]] {}
  }

  lemma SelectNext<S(!new), T>(s: seq<S>, p: S -> bool, f: S -> T, out: seq<T>, x: S)
    requires IsSelection(s, p, f, out)
    ensures IsSelection(s + [x], p, f, if p(x) then out + [f(x)] else out)
  {
    hide Selects;
    var places: seq<nat> :| Selects(s, p, f, out, places);
    if p(x) { SelectsTake(s, p, f, out, places, x); } else { SelectsSkip(s, p, f, out, places, x); }
  }

  lemma SelectionEmptyIff<S(!new), T>(s: seq<S>, p: S -> bool, f: S -> T, out: seq<T>)
    requires IsSelection(s, p, f, out)
    ensures out == [] <==> forall r :: r in s ==> !p(r)
  {
    var places: seq<nat> :| Selects(s, p, f, out, places);
    if r :| r in s && p(r) {
      var i: nat :| i < |s| && s[i] == r;
      assert i in places;
    }
    if out != [] { assert places[0] in places && s[places[0]] in s; }
  }

  lemma SelectionMembers<S(!new), T(!new)>(s: seq<S>, p: S -> bool, f: S -> T, out: seq<T>)
    requires IsSelection(s, p, f, out)
    ensures forall n :: n in out <==> exists r :: r in s && p(r) && f(r) == n
  {
    var places: seq<nat> :| Selects(s, p, f, out, places);
    forall n ensures n in out <==> exists r :: r in s && p(r) && f(r) == n {
      if n in out {
        var k :| 0 <= k < |out| && out[k] == n;
        assert places[k] in places && s[places[k]] in s;
      }
      if r :| r in s && p(r) && f(r) == n {
        var i: nat :| i < |s| && s[i] == r;
        assert i in places;
        var k :| 0 <= k < |places| && places[k] == i;
        assert out[k] == n;
      }
    }
  }

  /** There is one selection only. */
  lemma SelectionUnique<S(!new), T>(s: seq<S>, p: S -> bool, f: S -> T, a: seq<T>, b: seq<T>)
    requires IsSelection(s, p, f, a) && IsSelection(s, p, f, b)
    ensures a == b
  {
    var x: seq<nat> :| Selects(s, p, f, a, x);
    var y: seq<nat> :| Selects(s, p, f, b, y);
    forall i: nat ensures i in x <==> i in y {}
    SamePlaces(x, y);
  }

  lemma EmptyToo(x: seq<nat>, y: seq<nat>)
    requires forall i: nat :: i in x <==> i in y
    ensures x == [] ==> y == []
  {
    var first := if y == [] then 0 else y[0];
    assert y != [] ==> first in y;
  }

  lemma {:induction false} SamePlaces(x: seq<nat>, y: seq<nat>)
    requires forall i, j :: 0 <= i < j < |x| ==> x[i] < x[j]
    requires forall i, j :: 0 <= i < j < |y| ==> y[i] < y[j]
    requires forall i: nat :: i in x <==> i in y
    ensures x == y
  {
    EmptyToo(x, y);
    EmptyToo(y, x);
    if x != [] {
      var m, n := |x| - 1, |y| - 1;
      assert x[m] in x && y[n] in y;
      var i :| 0 <= i < |y| && y[i] == x[m];
      var j :| 0 <= j < |x| && x[j] == y[n];
      forall k: nat ensures k in x[..m] <==> k in y[..n] {
        assert k in x <==> k in x[..m] || k == x[m];
        assert k in y <==> k in y[..n] || k == y[n];
      }
      SamePlaces(x[..m], y[..n]);
    }
  }

  /* ------------------------------------------------------ first occurrences */

  /** Nothing before the i-th value is the same. */
  predicate IsNew<S>(s: seq<S>, same: (S, S) -> bool, i: nat)
    requires i < |s|
  {
    forall j :: 0 <= j < i ==> !same(s[j], s[i])
  }

  ghost predicate PicksFirsts<S(!new)>(s: seq<S>, same: (S, S) -> bool, out: seq<S>, places: seq<nat>) {
    |places| == |out| &&
    (forall i, j :: 0 <= i < j < |places| ==> places[i] < places[j]) &&
    (forall i: nat :: i in places <==> i < |s| && IsNew(s, same, i)) &&
    (forall j :: 0 <= j < |out| ==> places[j] < |s| && out[j] == s[places[j]])
  }

  /** The values that nothing before them is the same as, in order. */
  ghost predicate AreFirsts<S(!new)>(s: seq<S>, same: (S, S) -> bool, out: seq<S>) {
    exists places :: PicksFirsts(s, same, out, places)
  }

  lemma FirstsNone<S(!new)>(same: (S, S) -> bool)
    ensures AreFirsts([], same, [])
  {
    assert PicksFirsts([], same, [], []);
  }

  lemma NewBefore<S>(s: seq<S>, same: (S, S) -> bool, x: S, i: nat)
    requires i < |s|
    ensures IsNew(s + [x], same, i) <==> IsNew(s, same, i)
  {
    var t := s + [x];
    forall j | 0 <= j <= i ensures t[j] == s[j] {}
  }

  lemma NewLast<S>(s: seq<S>, same: (S, S) -> bool, x: S)
    ensures IsNew(s + [x], same, |s|) <==> forall j :: 0 <= j < |s| ==> !same(s[j], x)
  {
    var t := s + [x];
    assert t[|s|] == x;
    forall j | 0 <= j < |s| ensures t[j] == s[j] {}
  }

  lemma FirstsSkip<S(!new)>(s: seq<S>, same: (S, S) -> bool, out: seq<S>, places: seq<nat>, x: S)
    requires PicksFirsts(s, same, out, places) && exists j :: 0 <= j < |s| && same(s[j], x)
    ensures PicksFirsts(s + [x], same, out, places)
  {
    hide IsNew;
    var t := s + [x];
    NewLast(s, same, x);
    forall i: nat ensures i in places <==> i < |t| && IsNew(t, same, i) {
      if i < |s| { NewBefore(s, same, x, i); }
    }
  }

  lemma FirstsTake<S(!new)>(s: seq<S>, same: (S, S) -> bool, out: seq<S>, places: seq<nat>, x: S)
    requires PicksFirsts(s, same, out, places) && !exists j :: 0 <= j < |s| && same(s[j], x)
    ensures PicksFirsts(s + [x], same, out + [x], places + [|s|])
  {
    hide IsNew;
    var t, next: seq<nat> := s + [x], places + [|s|];
    NewLast(s, same, x);
    forall i: nat ensures i in next <==> i < |t| && IsNew(t, same, i) {
      assert i in next <==> i in places || i == |s|;
      if i < |s| { NewBefore(s, same, x, i); }
    }
    forall j | 0 <= j < |places| ensures places[j] < |s| && t[places[j]] == s[places[j]] {}
  }

  lemma FirstsNext<S(!new)>(s: seq<S>, same: (S, S) -> bool, out: seq<S>, x: S)
    requires AreFirsts(s, same, out)
    ensures AreFirsts(s + [x], same, if exists j :: 0 <= j < |s| && same(s[j], x) then out else out + [x])
  {
    hide PicksFirsts;
    var places: seq<nat> :| PicksFirsts(s, same, out, places);
    if exists j :: 0 <= j < |s| && same(s[j], x) {
      FirstsSkip(s, same, out, places, x);
    } else {
      FirstsTake(s, same, out, places, x);
    }
  }
}
