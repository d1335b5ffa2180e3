/** Removing rows by index: the row list is spliced, the index lists are renumbered in place, and so is
    the list of the indexes still to be removed. */
module RowRemoval {
  import opened Lists

  function Lower(t: int, x: int): int {
    if x > t then x - 1 else x
  }

  function Lowerer(t: int): int -> int {
    x => Lower(t, x)
  }

  function Other(t: int): int -> bool {
    x => x != t
  }

  function NotIn(items: seq<int>): int -> bool {
    x => x !in items
  }

  function Lowered(a: seq<int>, t: int): seq<int> {
    Map(a, Lowerer(t))
  }

  /** Position of the last t in a, -1 when there is none. */
  function LastIndex(a: seq<int>, t: int): int
    ensures -1 <= LastIndex(a, t) < |a|
    ensures LastIndex(a, t) >= 0 ==> a[LastIndex(a, t)] == t
    ensures forall i :: LastIndex(a, t) < i < |a| ==> a[i] != t
  {
    if a == [] then -1 else if a[|a| - 1] == t then |a| - 1 else LastIndex(a[..|a| - 1], t)
  }

  function Cut<T>(s: seq<T>, i: nat): seq<T>
    requires i < |s|
  {
    s[..i] + s[i + 1..]
  }

  /** `_fnDeleteIndex`: lower what is above t and take t itself out, unless the caller keeps it. */
  method DeleteIndex(a: seq<int>, t: int, splice: bool) returns (b: seq<int>)
    ensures b == if splice then Deleted(a, t) else Lowered(a, t)
  {
    var target := -1;
    b := a;
    for i := 0 to |a|
      invariant |b| == |a| && b[i..] == a[i..]
      invariant b[..i] == Lowered(a[..i], t)
      invariant target == LastIndex(a[..i], t)
    {
      assert a[..i + 1][..i] == a[..i];
      if b[i] == t {
        target := i;
      } else if b[i] > t {
        b := b[i := b[i] - 1];
      }
    }
    assert a[..|a|] == a && b[..|a|] == b;
    if target != -1 && splice {
      b := b[..target] + b[target + 1..];
    }
  }

  function Deleted(a: seq<int>, t: int): seq<int> {
    if LastIndex(a, t) == -1 then Lowered(a, t) else Cut(Lowered(a, t), LastIndex(a, t))
  }

  // ---------------------------------------------------------------- one row, and a list of rows

  datatype Indexed<R> = Indexed(rows: seq<R>, master: seq<int>, display: seq<int>)

  function RemoveOne<R>(s: Indexed<R>, row: nat): Indexed<R>
    requires row < |s.rows|
  {
    Indexed(Cut(s.rows, row), Deleted(s.master, row), Deleted(s.display, row))
  }

  ghost predicate ValidItems(items: seq<int>, n: int) {
    Distinct(items) && forall x :: x in items ==> 0 <= x < n
  }

  /** The removal of a list of rows, as the loop does it: after each row the rest of the list is
      renumbered as well. */
  ghost function RemoveAll<R>(s: Indexed<R>, items: seq<int>): Indexed<R>
    requires ValidItems(items, |s.rows|)
    decreases |items|
  {
    if items == [] then s
    else
      RestIsValid(items, |s.rows|);
      RemoveAll(RemoveOne(s, items[0]), Lowered(items[1..], items[0]))
  }

  lemma RestIsValid(items: seq<int>, n: int)
    requires ValidItems(items, n) && items != []
    ensures 0 <= items[0] < n && items[0] !in items[1..]
    ensures ValidItems(Lowered(items[1..], items[0]), n - 1)
  {
    var t, rest := items[0], items[1..];
    assert t in items;
    assert forall i :: 0 <= i < |rest| ==> rest[i] == items[i + 1] && items[i + 1] != t && items[i + 1] in items;
    var low := Lowered(rest, t);
    forall i, j | 0 <= i < j < |low| ensures low[i] != low[j] {
      assert rest[i] != rest[j];
    }
  }

  lemma RemoveStep<R>(s: Indexed<R>, items: seq<int>)
    requires ValidItems(items, |s.rows|) && items != []
    ensures 0 <= items[0] < |s.rows| && ValidItems(Lowered(items[1..], items[0]), |s.rows| - 1)
    ensures RemoveAll(s, items) == RemoveAll(RemoveOne(s, items[0]), Lowered(items[1..], items[0]))
  {
    RestIsValid(items, |s.rows|);
  }

  // ---------------------------------------------------------------- what is left

  /** How many of the removed indexes are smaller. */
  function Below(items: seq<int>, x: int): int {
    if items == [] then 0 else (if items[0] < x then 1 else 0) + Below(items[1..], x)
  }

  /** The number a surviving row has afterwards. */
  function Renumber(items: seq<int>, x: int): int {
    x - Below(items, x)
  }

  /** The first n rows without the removed ones. */
  function Kept<R>(rows: seq<R>, items: seq<int>, n: nat): seq<R>
    requires n <= |rows|
  {
    if n == 0 then [] else Kept(rows, items, n - 1) + if n - 1 in items then [] else [rows[n - 1]]
  }

  function Renumberer(items: seq<int>): int -> int {
    x => Renumber(items, x)
  }

  /** The surviving entries of an index list, in order, under their new numbers. */
  function Survivors(a: seq<int>, items: seq<int>): seq<int> {
    Map(Filter(a, NotIn(items)), Renumberer(items))
  }

  lemma FilterSnoc(b: seq<int>, x: int, keep: int -> bool)
    ensures Filter(b + [x], keep) == Filter(b, keep) + if keep(x) then [x] else []
  {
    FilterAppend(b, [x], keep);
    assert [x][1..] == [];
  }

  lemma {:induction false} DeletedIsFiltered(a: seq<int>, t: int)
    requires Distinct(a)
    ensures Deleted(a, t) == Map(Filter(a, Other(t)), Lowerer(t))
  {
    if a != [] {
      var b, x := a[..|a| - 1], a[|a| - 1];
      assert a == b + [x];
      FilterSnoc(b, x, Other(t));
      assert Lowered(a, t) == Lowered(b, t) + [Lower(t, x)];
      if x == t {
        assert forall y :: y in b ==> y != t;
        FilterAll(b, Other(t));
      } else {
        DeletedIsFiltered(b, t);
        DeletedSnoc(b, x, t);
        MapSnoc(Filter(b, Other(t)), x, Lowerer(t));
      }
    }
  }

  lemma DeletedSnoc(b: seq<int>, x: int, t: int)
    requires x != t
    ensures Deleted(b + [x], t) == Deleted(b, t) + [Lower(t, x)]
  {
    MapSnoc(b, x, Lowerer(t));
    LastIndexSnoc(b, x, t);
    if LastIndex(b, t) != -1 {
      CutSnoc(Lowered(b, t), Lower(t, x), LastIndex(b, t));
    }
  }

  lemma LastIndexSnoc(b: seq<int>, x: int, t: int)
    requires x != t
    ensures LastIndex(b + [x], t) == LastIndex(b, t)
  {
    var a := b + [x];
    assert a[..|a| - 1] == b;
  }

  lemma CutSnoc(b: seq<int>, x: int, i: nat)
    requires i < |b|
    ensures Cut(b + [x], i) == Cut(b, i) + [x]
  { }

  lemma MapSnoc(b: seq<int>, x: int, f: int -> int)
    ensures Map(b + [x], f) == Map(b, f) + [f(x)]
  { }

  lemma {:induction false} InLowered(rest: seq<int>, t: int, x: int)
    requires t !in rest && x != t
    ensures Lower(t, x) in Lowered(rest, t) <==> x in rest
  {
    if x in rest {
      var i :| 0 <= i < |rest| && rest[i] == x;
      assert Lowered(rest, t)[i] == Lower(t, x);
    }
    if Lower(t, x) in Lowered(rest, t) {
      var i :| 0 <= i < |rest| && Lowered(rest, t)[i] == Lower(t, x);
      assert rest[i] in rest;
    }
  }

  lemma {:induction false} BelowLowered(rest: seq<int>, t: int, x: int)
    requires t !in rest && x != t
    ensures Below(Lowered(rest, t), Lower(t, x)) == Below(rest, x)
  {
    if rest != [] {
      assert rest[0] in rest;
      assert forall y :: y in rest[1..] ==> y in rest;
      BelowLowered(rest[1..], t, x);
      assert Lowered(rest, t)[1..] == Lowered(rest[1..], t);
    }
  }

  /** Numbering in two steps is numbering at once. */
  lemma RenumberStep(items: seq<int>, x: int)
    requires items != [] && items[0] !in items[1..] && x != items[0]
    ensures Renumber(Lowered(items[1..], items[0]), Lower(items[0], x)) == Renumber(items, x)
    ensures Lower(items[0], x) in Lowered(items[1..], items[0]) <==> x in items
  {
    BelowLowered(items[1..], items[0], x);
    InLowered(items[1..], items[0], x);
  }

  lemma SpareAtOnce(a: seq<int>, items: seq<int>)
    requires items != []
    ensures Filter(Filter(a, Other(items[0])), NotIn(items)) == Filter(a, NotIn(items))
  {
    var p, q := Other(items[0]), NotIn(items);
    FilterTwice(a, p, q);
    assert items[0] in items;
    assert forall x :: q(x) ==> p(x);
    FilterAgree(a, Both(p, q), q);
  }

  /** Of the entries that survive the first removal, the later removals spare the right ones. */
  lemma SparedStep(a: seq<int>, items: seq<int>)
    requires Distinct(a) && items != [] && items[0] !in items[1..]
    ensures var t := items[0];
            Filter(Deleted(a, t), NotIn(Lowered(items[1..], t))) == Map(Filter(a, NotIn(items)), Lowerer(t))
  {
    var t, rest := items[0], Lowered(items[1..], items[0]);
    var kept := Filter(a, Other(t));
    FilterMembers(a, Other(t));
    forall x | x in kept ensures NotIn(rest)(Lowerer(t)(x)) == NotIn(items)(x) { RenumberStep(items, x); }
    FilterOfMap(kept, Lowerer(t), NotIn(rest), NotIn(items));
    DeletedIsFiltered(a, t);
    SpareAtOnce(a, items);
  }

  lemma SurvivorsStep(a: seq<int>, items: seq<int>)
    requires Distinct(a) && items != [] && items[0] !in items[1..]
    ensures Survivors(Deleted(a, items[0]), Lowered(items[1..], items[0])) == Survivors(a, items)
  {
    var t, rest := items[0], Lowered(items[1..], items[0]);
    var left := Filter(a, NotIn(items));
    SparedStep(a, items);
    FilterMembers(a, NotIn(items));
    forall i | 0 <= i < |left| ensures Renumber(rest, Lower(t, left[i])) == Renumber(items, left[i]) {
      assert left[i] in left;
      RenumberStep(items, left[i]);
    }
  }

  lemma {:induction false} KeptStep<R>(rows: seq<R>, items: seq<int>, n: nat)
    requires items != [] && items[0] !in items[1..] && 0 <= items[0] < |rows| && n <= |rows|
    ensures var t, rest, cut := items[0], Lowered(items[1..], items[0]), Cut(rows, items[0]);
            if n <= t then Kept(cut, rest, n) == Kept(rows, items, n)
            else Kept(cut, rest, n - 1) == Kept(rows, items, n)
  {
    var t, rest, cut := items[0], Lowered(items[1..], items[0]), Cut(rows, items[0]);
    if n > 0 {
      KeptStep(rows, items, n - 1);
      if n - 1 != t {
        RenumberStep(items, n - 1);
        assert cut[Lower(t, n - 1)] == rows[n - 1];
      }
    }
  }

  lemma DeletedDistinct(a: seq<int>, t: int)
    requires Distinct(a)
    ensures Distinct(Deleted(a, t))
  {
    DeletedIsFiltered(a, t);
    FilterDistinct(a, Other(t));
    FilterMembers(a, Other(t));
    var f := Filter(a, Other(t));
    forall i, j | 0 <= i < j < |f| ensures Lower(t, f[i]) != Lower(t, f[j]) {
      assert f[i] in f && f[j] in f;
    }
  }

  /** Exactly the other rows, in order, and both index lists naming the surviving rows, in the same
      order, by their new numbers. */
  function Without<R>(s: Indexed<R>, items: seq<int>): Indexed<R> {
    Indexed(Kept(s.rows, items, |s.rows|), Survivors(s.master, items), Survivors(s.display, items))
  }

  lemma WithoutNone<R>(s: Indexed<R>)
    ensures Without(s, []) == s
  {
    KeptAll(s.rows, |s.rows|);
    SurvivorsOfNone(s.master);
    SurvivorsOfNone(s.display);
  }

  lemma WithoutStep<R>(s: Indexed<R>, items: seq<int>)
    requires ValidItems(items, |s.rows|) && items != [] && Distinct(s.master) && Distinct(s.display)
    ensures 0 <= items[0] < |s.rows|
    ensures Without(RemoveOne(s, items[0]), Lowered(items[1..], items[0])) == Without(s, items)
  {
    RestIsValid(items, |s.rows|);
    KeptStep(s.rows, items, |s.rows|);
    SurvivorsStep(s.master, items);
    SurvivorsStep(s.display, items);
  }

  /** Removing any duplicate-free list of rows, in any order, leaves exactly the rest. */
  lemma {:induction false} RemovalIsExact<R>(s: Indexed<R>, items: seq<int>)
    requires ValidItems(items, |s.rows|) && Distinct(s.master) && Distinct(s.display)
    ensures RemoveAll(s, items) == Without(s, items)
    decreases |items|
  {
    if items == [] {
      WithoutNone(s);
    } else {
      RestIsValid(items, |s.rows|);
      DeletedDistinct(s.master, items[0]);
      DeletedDistinct(s.display, items[0]);
      WithoutStep(s, items);
      RemovalIsExact(RemoveOne(s, items[0]), Lowered(items[1..], items[0]));
    }
  }

  lemma {:induction false} KeptAll<R>(rows: seq<R>, n: nat)
    requires n <= |rows|
    ensures Kept(rows, [], n) == rows[..n]
  {
    if n > 0 { KeptAll(rows, n - 1); }
  }

  lemma SurvivorsOfNone(a: seq<int>)
    ensures Survivors(a, []) == a
  {
    FilterAll(a, NotIn([]));
  }

  /** The new number of a surviving row is the position where it is kept. */
  lemma {:induction false} SurvivorIsThere<R>(rows: seq<R>, items: seq<int>, x: nat)
    requires ValidItems(items, |rows|) && x < |rows| && x !in items
    ensures var kept := Kept(rows, items, |rows|);
            0 <= Renumber(items, x) < |kept| && kept[Renumber(items, x)] == rows[x]
    decreases |items|
  {
    if items == [] {
      KeptAll(rows, |rows|);
    } else {
      RestIsValid(items, |rows|);
      var t := items[0];
      assert t in items;
      RenumberStep(items, x);
      KeptStep(rows, items, |rows|);
      SurvivorIsThere(Cut(rows, t), Lowered(items[1..], t), Lower(t, x));
    }
  }
}
