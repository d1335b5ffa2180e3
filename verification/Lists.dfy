/** In-order subsequences and renumbered lists. */
module Lists {

  function Filter<T>(s: seq<T>, keep: T -> bool): seq<T> {
    if s == [] then [] else (if keep(s[0]) then [s[0]] else []) + Filter(s[1..], keep)
  }

  function Map<T, U>(s: seq<T>, f: T -> U): seq<U> {
    seq(|s|, i requires 0 <= i < |s| => f(s[i]))
  }

  function Both<T>(p: T -> bool, q: T -> bool): T -> bool {
    x => p(x) && q(x)
  }

  ghost predicate Distinct<T>(s: seq<T>) {
    forall i, j :: 0 <= i < j < |s| ==> s[i] != s[j]
  }

  lemma {:induction false} FilterMembers<T>(s: seq<T>, keep: T -> bool)
    ensures forall x :: x in Filter(s, keep) <==> x in s && keep(x)
    ensures |Filter(s, keep)| <= |s|
  {
    if s != [] {
      FilterMembers(s[1..], keep);
      assert s == [s[0]] + s[1..];
    }
  }

  lemma MapMembers<T, U>(s: seq<T>, f: T -> U)
    ensures forall x :: x in s ==> f(x) in Map(s, f)
    ensures forall y :: y in Map(s, f) ==> exists x :: x in s && f(x) == y
  {
    forall x | x in s ensures f(x) in Map(s, f) {
      var i :| 0 <= i < |s| && s[i] == x;
      assert Map(s, f)[i] == f(x);
    }
    forall y | y in Map(s, f) ensures exists x :: x in s && f(x) == y {
      var i :| 0 <= i < |s| && Map(s, f)[i] == y;
      assert s[i] in s;
    }
  }

  lemma {:induction false} FilterAgree<T>(s: seq<T>, p: T -> bool, q: T -> bool)
    requires forall x :: x in s ==> p(x) == q(x)
    ensures Filter(s, p) == Filter(s, q)
  {
    if s != [] {
      assert s[0] in s;
      assert forall x :: x in s[1..] ==> x in s;
      FilterAgree(s[1..], p, q);
    }
  }

  lemma {:induction false} FilterAll<T>(s: seq<T>, keep: T -> bool)
    requires forall x :: x in s ==> keep(x)
    ensures Filter(s, keep) == s
  {
    if s != [] {
      assert s[0] in s;
      assert forall x :: x in s[1..] ==> x in s;
      FilterAll(s[1..], keep);
    }
  }

  lemma {:induction false} FilterAppend<T>(s: seq<T>, t: seq<T>, keep: T -> bool)
    ensures Filter(s + t, keep) == Filter(s, keep) + Filter(t, keep)
  {
    if s == [] {
      assert s + t == t;
    } else {
      var head := if keep(s[0]) then [s[0]] else [];
      FilterAppend(s[1..], t, keep);
      FilterHead(s, t, keep);
      Associate(head, Filter(s[1..], keep), Filter(t, keep));
    }
  }

  lemma FilterHead<T>(s: seq<T>, t: seq<T>, keep: T -> bool)
    requires s != []
    ensures Filter(s + t, keep) == (if keep(s[0]) then [s[0]] else []) + Filter(s[1..] + t, keep)
  {
    var u := s + t;
    assert u[0] == s[0] && u[1..] == s[1..] + t;
  }

  lemma Associate<T>(a: seq<T>, b: seq<T>, c: seq<T>)
    ensures a + (b + c) == (a + b) + c
  { }

  /** Filtering twice keeps what both keep. */
  lemma {:induction false} FilterTwice<T>(s: seq<T>, p: T -> bool, q: T -> bool)
    ensures Filter(Filter(s, p), q) == Filter(s, Both(p, q))
  {
    if s != [] {
      FilterTwice(s[1..], p, q);
      var head := if p(s[0]) then [s[0]] else [];
      FilterAppend(head, Filter(s[1..], p), q);
      assert Filter(head, q) == if p(s[0]) && q(s[0]) then [s[0]] else [];
    }
  }

  lemma {:induction false} FilterOfMap<T, U>(s: seq<T>, f: T -> U, p: U -> bool, q: T -> bool)
    requires forall x :: x in s ==> p(f(x)) == q(x)
    ensures Filter(Map(s, f), p) == Map(Filter(s, q), f)
  {
    if s != [] {
      assert s[0] in s;
      assert forall x :: x in s[1..] ==> x in s;
      FilterOfMap(s[1..], f, p, q);
      assert Map(s, f)[1..] == Map(s[1..], f);
    }
  }

  lemma {:induction false} FilterDistinct<T>(s: seq<T>, keep: T -> bool)
    requires Distinct(s)
    ensures Distinct(Filter(s, keep))
  {
    if s != [] {
      var rest := s[1..];
      assert Distinct(rest) by {
        forall i, j | 0 <= i < j < |rest| ensures rest[i] != rest[j] {
          assert rest[i] == s[i + 1] && rest[j] == s[j + 1];
        }
      }
      FilterDistinct(rest, keep);
      FilterMembers(rest, keep);
      assert s[0] !in rest;
      var r := Filter(s, keep);
      forall i, j | 0 <= i < j < |r| ensures r[i] != r[j] {
        if keep(s[0]) {
          assert r[j] == Filter(rest, keep)[j - 1];
          if i > 0 { assert r[i] == Filter(rest, keep)[i - 1]; } else { assert r[j] in Filter(rest, keep); }
        }
      }
    }
  }

  /** Narrowing a list that an old filter left is the same as filtering the whole list afresh exactly
      when the new filter keeps nothing that the old one dropped. */
  lemma NarrowingExact<T>(s: seq<T>, before: T -> bool, now: T -> bool)
    ensures Filter(Filter(s, before), now) == Filter(s, now) <==> forall x :: x in s && now(x) ==> before(x)
  {
    FilterTwice(s, before, now);
    var both := Both(before, now);
    if forall x :: x in s && now(x) ==> before(x) {
      FilterAgree(s, both, now);
    }
    if Filter(s, both) == Filter(s, now) {
      FilterMembers(s, both);
      FilterMembers(s, now);
      forall x | x in s && now(x) ensures before(x) {
        assert x in Filter(s, now);
      }
    }
  }
}
