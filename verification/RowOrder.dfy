/** The multi-column comparator of the table, with the position before the sort as the last key. */
module RowOrder {
  import opened Lists

  datatype SortCol = SortCol(col: nat, asc: bool)

  /** Sort key of a row in a column. Keys are totally ordered. */
  type Keys = (int, nat) -> real

  function Sign(x: real, y: real): int {
    if x < y then -1 else if x > y then 1 else 0
  }

  function Position(s: seq<int>, x: int): nat {
    if s == [] || s[0] == x then 0 else 1 + Position(s[1..], x)
  }

  /** `orig` is the order of the rows before the sort. */
  function Compare(keys: Keys, order: seq<SortCol>, orig: seq<int>, a: int, b: int): int {
    if order == [] then Sign(Position(orig, a) as real, Position(orig, b) as real)
    else
      var test := Sign(keys(a, order[0].col), keys(b, order[0].col));
      if test != 0 then (if order[0].asc then test else -test) else Compare(keys, order[1..], orig, a, b)
  }

  function Precedes(keys: Keys, order: seq<SortCol>, orig: seq<int>): (int, int) -> bool {
    (a, b) => Compare(keys, order, orig, a, b) < 0
  }

  ghost predicate EqualKeys(keys: Keys, order: seq<SortCol>, a: int, b: int) {
    forall c <- order :: keys(a, c.col) == keys(b, c.col)
  }

  // ---------------------------------------------------------------- a strict total order

  lemma {:induction false} CompareFlips(keys: Keys, order: seq<SortCol>, orig: seq<int>, a: int, b: int)
    ensures Compare(keys, order, orig, a, b) == -Compare(keys, order, orig, b, a)
  {
    if order != [] { CompareFlips(keys, order[1..], orig, a, b); }
  }

  lemma {:induction false} CompareTransitive(keys: Keys, order: seq<SortCol>, orig: seq<int>, a: int, b: int, c: int)
    requires Compare(keys, order, orig, a, b) < 0 && Compare(keys, order, orig, b, c) < 0
    ensures Compare(keys, order, orig, a, c) < 0
  {
    if order != [] && keys(a, order[0].col) == keys(b, order[0].col) == keys(c, order[0].col) {
      CompareTransitive(keys, order[1..], orig, a, b, c);
    }
  }

  /** With equal keys the old positions decide. */
  lemma {:induction false} CompareEqualKeys(keys: Keys, order: seq<SortCol>, orig: seq<int>, a: int, b: int)
    requires EqualKeys(keys, order, a, b)
    ensures Compare(keys, order, orig, a, b) == Sign(Position(orig, a) as real, Position(orig, b) as real)
  {
    if order != [] {
      assert order[0] in order;
      assert forall c :: c in order[1..] ==> c in order;
      CompareEqualKeys(keys, order[1..], orig, a, b);
    }
  }

  /** Rows that compare equal are at the same old position. */
  lemma {:induction false} CompareZero(keys: Keys, order: seq<SortCol>, orig: seq<int>, a: int, b: int)
    requires Compare(keys, order, orig, a, b) == 0
    ensures Position(orig, a) == Position(orig, b)
  {
    if order != [] { CompareZero(keys, order[1..], orig, a, b); }
  }

  lemma {:induction false} PositionOf(s: seq<int>, x: int)
    ensures x in s <==> Position(s, x) < |s|
    ensures x in s ==> s[Position(s, x)] == x
    ensures Position(s, x) <= |s|
  {
    if s != [] && s[0] != x {
      PositionOf(s[1..], x);
      assert s == [s[0]] + s[1..];
    }
  }

  lemma {:induction false} PositionAt(s: seq<int>, i: nat)
    requires Distinct(s) && i < |s|
    ensures Position(s, s[i]) == i
  {
    PositionOf(s, s[i]);
  }

  ghost predicate StrictTotal(less: (int, int) -> bool, s: seq<int>) {
    && (forall a, b :: a in s && b in s && a != b ==> (less(a, b) <==> !less(b, a)))
    && (forall a :: a in s ==> !less(a, a))
    && (forall a, b, c :: a in s && b in s && c in s && less(a, b) && less(b, c) ==> less(a, c))
  }

  /** For any columns and directions the comparator orders the rows strictly and totally. */
  lemma PrecedesIsStrictTotal(keys: Keys, order: seq<SortCol>, orig: seq<int>)
    ensures StrictTotal(Precedes(keys, order, orig), orig)
  {
    var less := Precedes(keys, order, orig);
    forall a, b | a in orig && b in orig && a != b ensures less(a, b) <==> !less(b, a) {
      CompareFlips(keys, order, orig, a, b);
      if Compare(keys, order, orig, a, b) == 0 {
        CompareZero(keys, order, orig, a, b);
        PositionOf(orig, a);
        PositionOf(orig, b);
        assert false;
      }
    }
    forall a | a in orig ensures !less(a, a) { CompareFlips(keys, order, orig, a, a); }
    forall a, b, c | a in orig && b in orig && c in orig && less(a, b) && less(b, c) ensures less(a, c) {
      CompareTransitive(keys, order, orig, a, b, c);
    }
  }

  // ---------------------------------------------------------------- what the comparator means

  /** Strictly before b in a column, in its direction. */
  predicate Before(keys: Keys, c: SortCol, a: int, b: int) {
    if c.asc then keys(a, c.col) < keys(b, c.col) else keys(a, c.col) > keys(b, c.col)
  }

  /** In the first column in which the keys differ a comes before b; and if they differ in none, a was
      before b. */
  ghost predicate Lexicographic(keys: Keys, order: seq<SortCol>, orig: seq<int>, a: int, b: int) {
    || (exists k :: 0 <= k < |order| && EqualKeys(keys, order[..k], a, b) && Before(keys, order[k], a, b))
    || (EqualKeys(keys, order, a, b) && Position(orig, a) < Position(orig, b))
  }

  /** Columns with equal keys play no part. */
  lemma {:induction false} CompareSkips(keys: Keys, order: seq<SortCol>, orig: seq<int>, a: int, b: int, k: nat)
    requires k <= |order| && EqualKeys(keys, order[..k], a, b)
    ensures Compare(keys, order, orig, a, b) == Compare(keys, order[k..], orig, a, b)
  {
    if k == 0 {
      assert order[0..] == order;
    } else {
      var rest := order[1..];
      assert order[0] in order[..k];
      assert forall c :: c in rest[..k - 1] ==> c in order[..k];
      CompareSkips(keys, rest, orig, a, b, k - 1);
      assert rest[k - 1..] == order[k..];
    }
  }

  /** The first column in which the keys differ. */
  lemma {:induction false} FirstDifference(keys: Keys, order: seq<SortCol>, a: int, b: int) returns (k: nat)
    ensures k <= |order| && EqualKeys(keys, order[..k], a, b)
    ensures k < |order| ==> keys(a, order[k].col) != keys(b, order[k].col)
  {
    if order == [] || keys(a, order[0].col) != keys(b, order[0].col) {
      k := 0;
    } else {
      k := FirstDifference(keys, order[1..], a, b);
      k := k + 1;
      assert order[..k] == [order[0]] + order[1..][..k - 1];
    }
  }

  lemma ComparesThere(keys: Keys, order: seq<SortCol>, orig: seq<int>, a: int, b: int, k: nat)
    requires k < |order| && EqualKeys(keys, order[..k], a, b) && keys(a, order[k].col) != keys(b, order[k].col)
    ensures Compare(keys, order, orig, a, b) < 0 <==> Before(keys, order[k], a, b)
  {
    CompareSkips(keys, order, orig, a, b, k);
    assert order[k..][0] == order[k];
  }

  /** The comparator is the lexicographic order by columns, then by old position. */
  lemma PrecedesIsLexicographic(keys: Keys, order: seq<SortCol>, orig: seq<int>, a: int, b: int)
    ensures Precedes(keys, order, orig)(a, b) <==> Lexicographic(keys, order, orig, a, b)
  {
    var k := FirstDifference(keys, order, a, b);
    if k < |order| {
      ComparesThere(keys, order, orig, a, b, k);
      assert order[k] in order;
      if l :| 0 <= l < |order| && EqualKeys(keys, order[..l], a, b) && Before(keys, order[l], a, b) {
        if l < k { assert order[..k][l] == order[l]; }
      }
    } else {
      assert order[..k] == order;
      CompareEqualKeys(keys, order, orig, a, b);
      assert forall l :: 0 <= l < |order| ==> order[l] in order;
    }
  }

  // ---------------------------------------------------------------- sorting

  ghost predicate SortedBy(s: seq<int>, less: (int, int) -> bool) {
    forall i, j :: 0 <= i < j < |s| ==> less(s[i], s[j])
  }

  /** A stand-in for the built-in sort; `AnySortAgrees` says that its choice does not matter. */
  function Insert(x: int, s: seq<int>, less: (int, int) -> bool): seq<int> {
    if s == [] || less(x, s[0]) then [x] + s else [s[0]] + Insert(x, s[1..], less)
  }

  function Sort(s: seq<int>, less: (int, int) -> bool): seq<int> {
    if s == [] then [] else Insert(s[0], Sort(s[1..], less), less)
  }

  lemma {:induction false} InsertKeepsElements(x: int, s: seq<int>, less: (int, int) -> bool)
    ensures multiset(Insert(x, s, less)) == multiset([x] + s)
  {
    if s != [] && !less(x, s[0]) {
      InsertKeepsElements(x, s[1..], less);
      assert s == [s[0]] + s[1..];
    }
  }

  lemma {:induction false} SortKeepsElements(s: seq<int>, less: (int, int) -> bool)
    ensures multiset(Sort(s, less)) == multiset(s)
  {
    if s != [] {
      SortKeepsElements(s[1..], less);
      InsertKeepsElements(s[0], Sort(s[1..], less), less);
      assert s == [s[0]] + s[1..];
    }
  }

  lemma SameMembers(s: seq<int>, t: seq<int>)
    requires multiset(s) == multiset(t)
    ensures |s| == |t| && forall x :: x in s <==> x in t
  {
    assert |multiset(s)| == |multiset(t)|;
    forall x ensures x in s <==> x in t { assert x in multiset(s) <==> x in multiset(t); }
  }

  lemma TailSorted(s: seq<int>, less: (int, int) -> bool)
    requires s != [] && SortedBy(s, less)
    ensures SortedBy(s[1..], less) && forall y :: y in s[1..] ==> less(s[0], y)
  {
    assert forall i :: 0 <= i < |s| - 1 ==> s[1..][i] == s[i + 1];
  }

  lemma ConsSorted(x: int, s: seq<int>, less: (int, int) -> bool)
    requires SortedBy(s, less) && forall y :: y in s ==> less(x, y)
    ensures SortedBy([x] + s, less)
  {
    var t := [x] + s;
    forall i, j | 0 <= i < j < |t| ensures less(t[i], t[j]) {
      assert t[j] == s[j - 1] && s[j - 1] in s;
    }
  }

  lemma {:induction false} InsertSorts(x: int, s: seq<int>, less: (int, int) -> bool, all: seq<int>)
    requires StrictTotal(less, all) && x in all && x !in s && SortedBy(s, less)
    requires forall y :: y in s ==> y in all
    ensures SortedBy(Insert(x, s, less), less)
  {
    if s == [] {
    } else if less(x, s[0]) {
      TailSorted(s, less);
      assert s[0] in s;
      forall y | y in s ensures less(x, y) {
        if y != s[0] { assert y in s[1..]; }
      }
      ConsSorted(x, s, less);
    } else {
      TailSorted(s, less);
      assert s[0] in s && forall y :: y in s[1..] ==> y in s;
      InsertSorts(x, s[1..], less, all);
      InsertKeepsElements(x, s[1..], less);
      SameMembers(Insert(x, s[1..], less), [x] + s[1..]);
      ConsSorted(s[0], Insert(x, s[1..], less), less);
    }
  }

  lemma {:induction false} SortSorts(s: seq<int>, less: (int, int) -> bool, all: seq<int>)
    requires StrictTotal(less, all) && Distinct(s) && forall y :: y in s ==> y in all
    ensures SortedBy(Sort(s, less), less)
  {
    if s != [] {
      var rest := s[1..];
      assert forall i :: 0 <= i < |rest| ==> rest[i] == s[i + 1];
      assert s[0] in s && forall y :: y in rest ==> y in s;
      SortSorts(rest, less, all);
      SortKeepsElements(rest, less);
      SameMembers(Sort(rest, less), rest);
      InsertSorts(s[0], Sort(rest, less), less, all);
    }
  }

  /** The first row of a sorted arrangement is the least. */
  lemma SameHead(s: seq<int>, t: seq<int>, less: (int, int) -> bool, all: seq<int>)
    requires StrictTotal(less, all) && (forall y :: y in s ==> y in all) && s != []
    requires multiset(s) == multiset(t) && SortedBy(s, less) && SortedBy(t, less)
    ensures t != [] && s[0] == t[0]
  {
    SameMembers(s, t);
    var x, y, rest, rest' := s[0], t[0], s[1..], t[1..];
    assert s == [x] + rest && t == [y] + rest';
    assert x in s && y in t;
    assert x in t && y in s && x in all && y in all;
    TailSorted(s, less);
    TailSorted(t, less);
    assert x != y ==> x in rest' && y in rest;
  }

  lemma SameTail(x: int, s: seq<int>, t: seq<int>)
    requires multiset([x] + s) == multiset([x] + t)
    ensures multiset(s) == multiset(t)
  {
    assert multiset(s) == multiset([x] + s) - multiset{x};
    assert multiset(t) == multiset([x] + t) - multiset{x};
  }

  /** Two sorted arrangements of the same rows are equal. */
  lemma {:induction false} SortedUnique(s: seq<int>, t: seq<int>, less: (int, int) -> bool, all: seq<int>)
    requires StrictTotal(less, all) && (forall y :: y in s ==> y in all)
    requires multiset(s) == multiset(t) && SortedBy(s, less) && SortedBy(t, less)
    ensures s == t
  {
    if s == [] {
      SameMembers(s, t);
    } else {
      SameHead(s, t, less, all);
      var x, rest, rest' := s[0], s[1..], t[1..];
      assert s == [x] + rest && t == [x] + rest';
      SameTail(x, rest, rest');
      TailSorted(s, less);
      TailSorted(t, less);
      SortedUnique(rest, rest', less, all);
    }
  }

  /** The row order after a sort; without sort columns it stays. */
  function SortRows(keys: Keys, order: seq<SortCol>, master: seq<int>): seq<int> {
    if order == [] then master else Sort(master, Precedes(keys, order, master))
  }

  lemma {:induction false} MasterIsInOrder(keys: Keys, master: seq<int>)
    requires Distinct(master)
    ensures SortedBy(master, Precedes(keys, [], master))
  {
    forall i, j | 0 <= i < j < |master| ensures Compare(keys, [], master, master[i], master[j]) < 0 {
      PositionAt(master, i);
      PositionAt(master, j);
    }
  }

  /** Whatever algorithm sorts, as long as it rearranges the rows and leaves them in order by the
      comparator, the result is the same. */
  lemma AnySortAgrees(keys: Keys, order: seq<SortCol>, master: seq<int>, result: seq<int>)
    requires Distinct(master)
    requires multiset(result) == multiset(master) && SortedBy(result, Precedes(keys, order, master))
    ensures result == SortRows(keys, order, master)
  {
    var less := Precedes(keys, order, master);
    PrecedesIsStrictTotal(keys, order, master);
    SameMembers(result, master);
    if order == [] {
      MasterIsInOrder(keys, master);
      SortedUnique(result, master, less, master);
    } else {
      SortSorts(master, less, master);
      SortKeepsElements(master, less);
      SortedUnique(result, Sort(master, less), less, master);
    }
  }

  lemma SortRowsIsSorted(keys: Keys, order: seq<SortCol>, master: seq<int>)
    requires Distinct(master)
    ensures var r := SortRows(keys, order, master);
            multiset(r) == multiset(master) && SortedBy(r, Precedes(keys, order, master))
  {
    var less := Precedes(keys, order, master);
    PrecedesIsStrictTotal(keys, order, master);
    if order == [] {
      MasterIsInOrder(keys, master);
    } else {
      SortSorts(master, less, master);
      SortKeepsElements(master, less);
    }
  }

  /** The sort is stable in both directions: rows with equal keys keep the order they had. */
  lemma SortIsStable(keys: Keys, order: seq<SortCol>, master: seq<int>, i: nat, j: nat)
    requires Distinct(master) && i < j < |master|
    requires EqualKeys(keys, order, master[i], master[j])
    ensures var r := SortRows(keys, order, master);
            Position(r, master[i]) < Position(r, master[j]) < |r|
  {
    var r := SortRows(keys, order, master);
    SortRowsIsSorted(keys, order, master);
    SameMembers(r, master);
    var a, b := master[i], master[j];
    assert a in r && b in r;
    PositionOf(r, a);
    PositionOf(r, b);
    PositionAt(master, i);
    PositionAt(master, j);
    CompareEqualKeys(keys, order, master, a, b);
    CompareFlips(keys, order, master, a, b);
    forall k, l | 0 <= k < l < |r| ensures Compare(keys, order, master, r[k], r[l]) < 0 {
      assert Precedes(keys, order, master)(r[k], r[l]);
    }
  }

  /** Among rows with equal keys in the first k columns, the next column is in its direction. */
  lemma ColumnsSorted(keys: Keys, order: seq<SortCol>, master: seq<int>, k: nat, i: nat, j: nat)
    requires Distinct(master) && k < |order| && i < j < |master|
    ensures var r, c := SortRows(keys, order, master), order[k];
            && |r| == |master|
            && ((forall l :: 0 <= l < k ==> keys(r[i], order[l].col) == keys(r[j], order[l].col)) ==>
                  if c.asc then keys(r[i], c.col) <= keys(r[j], c.col) else keys(r[i], c.col) >= keys(r[j], c.col))
  {
    SortRowsIsSorted(keys, order, master);
    var r := SortRows(keys, order, master);
    SameMembers(r, master);
    if (forall l :: 0 <= l < k ==> keys(r[i], order[l].col) == keys(r[j], order[l].col))
       && keys(r[i], order[k].col) != keys(r[j], order[k].col)
    {
      assert Precedes(keys, order, master)(r[i], r[j]);
      ComparesThere(keys, order, master, r[i], r[j], k);
    }
  }
}
