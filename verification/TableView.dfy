/** What a table should show: the rows in master order that the searches accept; and how the list of
    shown rows relates to it between two filter passes. */
module TableView {
  import opened Wrappers
  import opened Lists
  import opened TableSearch
  import opened RowRemoval
  import opened RowOrder

  /** Searchable columns, the filter text of a cell after type formatting, its sort key, whether row
      nodes are created only when a row is drawn, and whether sorting and filtering are switched on. */
  datatype Config<!D> = Config(searchable: seq<bool>, text: (D, nat) -> string, key: (D, nat) -> real,
                               matcher: Matcher, deferRender: bool, sorts: bool, filters: bool)

  datatype Cache = Cache(cells: seq<string>, joined: string)

  datatype Row<D> = Row(data: D, cache: Option<Cache>, nTr: Option<nat>)

  function Strip(s: string): string {
    Filter(s, c => c != '\r' && c != '\n')
  }

  function Cells<D>(c: Config<D>, d: D): (r: seq<string>)
    ensures |r| == |c.searchable|
  {
    seq(|c.searchable|, j requires 0 <= j < |c.searchable| => if c.searchable[j] then Strip(c.text(d, j)) else "")
  }

  function Join(cells: seq<string>): string {
    if cells == [] then "" else if |cells| == 1 then cells[0] else cells[0] + "  " + Join(cells[1..])
  }

  function CacheOf<D>(c: Config<D>, d: D): Cache {
    Cache(Cells(c, d), Join(Cells(c, d)))
  }

  // ---------------------------------------------------------------- what is accepted

  predicate GlobalAccepts<D>(c: Config<D>, s: Search, d: D) {
    Accepts(c.matcher, s, CacheOf(c, d).joined)
  }

  /** The searches of the first n columns. */
  predicate ColumnsAccept<D>(c: Config<D>, cols: seq<Search>, n: nat, d: D)
    requires n <= |cols| == |c.searchable|
  {
    forall j :: 0 <= j < n ==> Accepts(c.matcher, cols[j], Cells(c, d)[j])
  }

  // ---------------------------------------------------------------- what a row has to contain

  /** Line ends are taken out, and nothing else. */
  lemma StripTakesLineEnds(a: string, x: char, b: string)
    ensures Strip("") == ""
    ensures Strip(a + [x] + b) == Strip(a) + (if x == '\r' || x == '\n' then "" else [x]) + Strip(b)
  {
    var keep := (c: char) => c != '\r' && c != '\n';
    StripIs(a + [x] + b);
    FilterAppend(a + [x], b, keep);
    FilterAppend(a, [x], keep);
    assert [x][1..] == [];
    StripIs(a);
    StripIs(b);
  }

  lemma StripIs(s: string)
    ensures Strip(s) == Filter(s, (c: char) => c != '\r' && c != '\n')
  {
    FilterAgree(s, (c: char) => c != '\r' && c != '\n', c => c != '\r' && c != '\n');
  }

  /** The cells of a row stand behind one another with two spaces in between. */
  lemma {:induction false} JoinSpaces(a: seq<string>, b: seq<string>)
    requires a != [] && b != []
    ensures Join(a + b) == Join(a) + "  " + Join(b) && Join([a[0]]) == a[0]
  {
    var t := a + b;
    if |a| == 1 {
      assert t[1..] == b;
    } else {
      assert t[1..] == a[1..] + b;
      JoinSpaces(a[1..], b);
      Associate(a[0] + "  ", Join(a[1..]), "  " + Join(b));
      assert Join(a[1..]) + "  " + Join(b) == Join(a[1..]) + ("  " + Join(b));
      assert Join(a) + "  " + Join(b) == Join(a) + ("  " + Join(b));
    }
  }

  /** No other character is taken for a space. */
  ghost predicate SpacesApart(m: Matcher, caseInsensitive: bool) {
    forall c :: SameChar(m, ' ', c, caseInsensitive) ==> c == ' '
  }

  ghost predicate IsOneWord(w: string) {
    w != "" && ' ' !in w
  }

  lemma NoSpaceInside(m: Matcher, s: string, k: nat, w: string, caseInsensitive: bool)
    requires IsOneWord(w) && SpacesApart(m, caseInsensitive) && FoundAt(m, s, k, w, caseInsensitive)
    ensures forall at :: k <= at < k + |w| ==> s[at] != ' '
  {
    forall at | k <= at < k + |w| ensures s[at] != ' ' {
      var i := at - k;
      assert SameChar(m, s[k + i], w[i], caseInsensitive) && w[i] in w;
    }
  }

  /** A word does not reach across the spaces between two texts. */
  lemma WordOnOneSide(m: Matcher, x: string, y: string, w: string, caseInsensitive: bool)
    requires IsOneWord(w) && SpacesApart(m, caseInsensitive)
    ensures Contains(m, x + "  " + y, w, caseInsensitive) <==>
            Contains(m, x, w, caseInsensitive) || Contains(m, y, w, caseInsensitive)
  {
    var s := x + "  " + y;
    if Contains(m, x, w, caseInsensitive) {
      var k :| 0 <= k <= |x| && FoundAt(m, x, k, w, caseInsensitive);
      FoundMoves(m, s, x, k, k, w, caseInsensitive);
    }
    if Contains(m, y, w, caseInsensitive) {
      var k :| 0 <= k <= |y| && FoundAt(m, y, k, w, caseInsensitive);
      FoundMoves(m, s, y, |x| + 2 + k, k, w, caseInsensitive);
    }
    if Contains(m, s, w, caseInsensitive) {
      var k :| 0 <= k <= |s| && FoundAt(m, s, k, w, caseInsensitive);
      NoSpaceInside(m, s, k, w, caseInsensitive);
      assert s[|x|] == ' ' && s[|x| + 1] == ' ';
      if k + |w| <= |x| {
        assert s[k..k + |w|] == x[k..k + |w|];
        FoundMoves(m, x, s, k, k, w, caseInsensitive);
      } else {
        var i := k - |x| - 2;
        assert i >= 0;
        assert s == (x + "  ") + y;
        assert s[k..k + |w|] == y[i..i + |w|];
        FoundMoves(m, y, s, i, k, w, caseInsensitive);
      }
    }
  }

  /** The same characters in another text. */
  lemma FoundMoves(m: Matcher, s: string, t: string, i: nat, j: nat, w: string, caseInsensitive: bool)
    requires FoundAt(m, t, j, w, caseInsensitive)
    requires i + |w| <= |s| && s[i..i + |w|] == t[j..j + |w|]
    ensures Contains(m, s, w, caseInsensitive)
  {
    forall n | 0 <= n < |w| ensures SameChar(m, s[i + n], w[n], caseInsensitive) {
      assert s[i..i + |w|][n] == t[j..j + |w|][n];
      assert SameChar(m, t[j + n], w[n], caseInsensitive);
    }
    assert FoundAt(m, s, i, w, caseInsensitive);
  }

  lemma {:induction false} WordInJoined(m: Matcher, cells: seq<string>, w: string, caseInsensitive: bool)
    requires IsOneWord(w) && SpacesApart(m, caseInsensitive)
    ensures Contains(m, Join(cells), w, caseInsensitive) <==>
            exists j :: 0 <= j < |cells| && Contains(m, cells[j], w, caseInsensitive)
  {
    if |cells| > 1 {
      WordOnOneSide(m, cells[0], Join(cells[1..]), w, caseInsensitive);
      WordInJoined(m, cells[1..], w, caseInsensitive);
      if j :| 0 <= j < |cells[1..]| && Contains(m, cells[1..][j], w, caseInsensitive) {
        assert Contains(m, cells[j + 1], w, caseInsensitive);
      }
      if j :| 0 <= j < |cells| && Contains(m, cells[j], w, caseInsensitive) {
        assert j > 0 ==> Contains(m, cells[1..][j - 1], w, caseInsensitive);
      }
    } else if |cells| == 1 {
      assert Join(cells) == cells[0];
    }
  }

  lemma {:induction false} LinesOfJoined(cells: seq<string>)
    ensures OneLine(Join(cells)) <==> forall j :: 0 <= j < |cells| ==> OneLine(cells[j])
  {
    if |cells| > 1 {
      LinesOfJoined(cells[1..]);
      LineOfBoth(cells[0], Join(cells[1..]));
      assert forall j :: 0 <= j < |cells| - 1 ==> cells[1..][j] == cells[j + 1];
      assert (forall j :: 0 <= j < |cells| ==> OneLine(cells[j])) <==>
             OneLine(cells[0]) && forall j :: 0 <= j < |cells| - 1 ==> OneLine(cells[1..][j]);
    }
  }

  lemma LineOfBoth(x: string, y: string)
    ensures OneLine(x + "  " + y) <==> OneLine(x) && OneLine(y)
  {
    var s := x + "  " + y;
    assert forall i :: 0 <= i < |x| ==> s[i] == x[i];
    assert forall i :: 0 <= i < |y| ==> s[|x| + 2 + i] == y[i];
  }

  /** What a search finds in column j. */
  function CellText<D>(c: Config<D>, d: D, j: nat): string
    requires j < |c.searchable|
  {
    if c.searchable[j] then Strip(c.text(d, j)) else ""
  }

  ghost predicate InSomeColumn<D>(c: Config<D>, s: Search, d: D, w: string) {
    exists j :: 0 <= j < |c.searchable| && c.searchable[j]
                && Occurs(c.matcher, Strip(c.text(d, j)), w, s.caseInsensitive)
  }

  /** The global search: every word is in some searchable column, and all of them are one line. */
  lemma GlobalSearchMeans<D>(c: Config<D>, s: Search, d: D)
    requires IsPlain(s) && s.smart && s.text != "" && SpacesApart(c.matcher, s.caseInsensitive)
    ensures GlobalAccepts(c, s, d) <==>
            && (forall j :: 0 <= j < |c.searchable| ==> OneLine(CellText(c, d, j)))
            && forall w :: IsWord(s.text, w) ==> InSomeColumn(c, s, d, w)
  {
    var cells := Cells(c, d);
    LinesOfJoined(cells);
    assert forall j :: 0 <= j < |cells| ==> cells[j] == CellText(c, d, j);
    forall w ensures w in Words(s.text) <==> IsWord(s.text, w) { WordsAreRuns(s.text, w); }
    forall w | IsWord(s.text, w)
      ensures Contains(c.matcher, Join(cells), w, s.caseInsensitive) <==> InSomeColumn(c, s, d, w)
    {
      WordOfRow(c, s, d, w);
    }
  }

  lemma WordOfRow<D>(c: Config<D>, s: Search, d: D, w: string)
    requires IsWord(s.text, w) && SpacesApart(c.matcher, s.caseInsensitive)
    ensures Contains(c.matcher, Join(Cells(c, d)), w, s.caseInsensitive) <==> InSomeColumn(c, s, d, w)
  {
    var cells := Cells(c, d);
    var i, k :| IsWordAt(s.text, i, k) && s.text[i..k] == w;
    assert forall n :: 0 <= n < |w| ==> w[n] == s.text[i + n];
    WordInJoined(c.matcher, cells, w, s.caseInsensitive);
    forall j | 0 <= j < |c.searchable|
      ensures Contains(c.matcher, cells[j], w, s.caseInsensitive) <==>
              c.searchable[j] && Occurs(c.matcher, Strip(c.text(d, j)), w, s.caseInsensitive)
    {
      ContainsIsOccurs(c.matcher, cells[j], w, s.caseInsensitive);
    }
  }

  /** The searches of columns: each means its own column; one that is not searchable is taken for empty. */
  lemma ColumnSearchesMean<D>(c: Config<D>, cols: seq<Search>, d: D)
    requires |cols| == |c.searchable| && forall s <- cols :: IsPlain(s)
    ensures ColumnsAccept(c, cols, |cols|, d) <==>
            forall j :: 0 <= j < |cols| ==> cols[j].text == "" || Means(c.matcher, cols[j], CellText(c, d, j))
  {
    forall j | 0 <= j < |cols|
      ensures Accepts(c.matcher, cols[j], Cells(c, d)[j]) <==>
              cols[j].text == "" || Means(c.matcher, cols[j], CellText(c, d, j))
    {
      PlainSearchMeans(c.matcher, cols[j], Cells(c, d)[j]);
    }
  }

  /** Columns that are not searchable play no part. */
  lemma HiddenColumnsDoNotMatter<D>(c: Config<D>, s: Search, cols: seq<Search>, d: D, e: D)
    requires |cols| == |c.searchable|
    requires forall j :: 0 <= j < |c.searchable| && c.searchable[j] ==> c.text(d, j) == c.text(e, j)
    ensures GlobalAccepts(c, s, d) <==> GlobalAccepts(c, s, e)
    ensures ColumnsAccept(c, cols, |cols|, d) <==> ColumnsAccept(c, cols, |cols|, e)
  {
    assert Cells(c, d) == Cells(c, e);
  }

  // ---------------------------------------------------------------- accepted rows

  function Global<D>(c: Config<D>, rows: seq<Row<D>>, s: Search): int -> bool {
    i => 0 <= i < |rows| && GlobalAccepts(c, s, rows[i].data)
  }

  function Columns<D>(c: Config<D>, rows: seq<Row<D>>, cols: seq<Search>, n: nat): int -> bool
    requires n <= |cols| == |c.searchable|
  {
    i => 0 <= i < |rows| && ColumnsAccept(c, cols, n, rows[i].data)
  }

  /** Rows that the global search and all column searches accept. */
  function Shown<D>(c: Config<D>, rows: seq<Row<D>>, s: Search, cols: seq<Search>): int -> bool
    requires |cols| == |c.searchable|
  {
    i => 0 <= i < |rows| && GlobalAccepts(c, s, rows[i].data) && ColumnsAccept(c, cols, |cols|, rows[i].data)
  }

  function Cached<D>(rows: seq<Row<D>>): int -> bool {
    i => 0 <= i < |rows| && rows[i].cache.Some?
  }

  function CachedShown<D>(c: Config<D>, rows: seq<Row<D>>, s: Search, cols: seq<Search>): int -> bool
    requires |cols| == |c.searchable|
  {
    Both(Cached(rows), Shown(c, rows, s, cols))
  }

  // ---------------------------------------------------------------- consistency of the index lists

  ghost predicate InRange(a: seq<int>, n: nat) {
    forall x :: x in a ==> 0 <= x < n
  }

  /** The master list is a permutation of the row numbers, the display list names some of them, each
      at most once. */
  ghost predicate WellIndexed<R>(s: Indexed<R>) {
    && Distinct(s.master) && InRange(s.master, |s.rows|) && (forall i :: 0 <= i < |s.rows| ==> i in s.master)
    && Distinct(s.display) && InRange(s.display, |s.rows|)
  }

  ghost predicate CachesRight<D>(c: Config<D>, rows: seq<Row<D>>) {
    forall i :: 0 <= i < |rows| && rows[i].cache.Some? ==> rows[i].cache.value == CacheOf(c, rows[i].data)
  }

  /** Among the rows with cached filter data, the display list shows what it should, in master order. */
  ghost predicate InSync<D>(c: Config<D>, s: Indexed<Row<D>>, search: Search, cols: seq<Search>) {
    |cols| == |c.searchable| &&
    Filter(s.display, Cached(s.rows)) == Filter(s.master, CachedShown(c, s.rows, search, cols))
  }

  ghost predicate AllCached<D>(rows: seq<Row<D>>) {
    forall i :: 0 <= i < |rows| ==> rows[i].cache.Some?
  }

  /** With all rows cached the display list is exactly the filtered master list. */
  lemma InSyncWhenCached<D>(c: Config<D>, s: Indexed<Row<D>>, search: Search, cols: seq<Search>)
    requires WellIndexed(s) && AllCached(s.rows) && |cols| == |c.searchable|
    ensures InSync(c, s, search, cols) <==> s.display == Filter(s.master, Shown(c, s.rows, search, cols))
  {
    FilterAll(s.display, Cached(s.rows));
    FilterAgree(s.master, CachedShown(c, s.rows, search, cols), Shown(c, s.rows, search, cols));
  }

  // ---------------------------------------------------------------- adding and changing rows

  lemma AddKeepsSync<D>(c: Config<D>, s: Indexed<Row<D>>, row: Row<D>, search: Search, cols: seq<Search>)
    requires WellIndexed(s) && row.cache.None?
    ensures var t := Indexed(s.rows + [row], s.master + [|s.rows|], s.display);
            WellIndexed(t) && (InSync(c, s, search, cols) ==> InSync(c, t, search, cols))
  {
    var n := |s.rows|;
    var t := Indexed(s.rows + [row], s.master + [n], s.display);
    assert n !in s.master;
    assert Distinct(t.master);
    if InSync(c, s, search, cols) {
      FilterAgree(s.display, Cached(t.rows), Cached(s.rows));
      var p, q := CachedShown(c, s.rows, search, cols), CachedShown(c, t.rows, search, cols);
      FilterAgree(s.master, q, p);
      FilterSnoc(s.master, n, q);
    }
  }

  lemma FilterBut(a: seq<int>, k: int, p: int -> bool, q: int -> bool)
    requires forall x :: x in a ==> q(x) == (p(x) && x != k)
    ensures Filter(a, q) == Filter(Filter(a, p), Other(k))
  {
    FilterTwice(a, p, Other(k));
    forall x | x in a ensures Both(p, Other(k))(x) == q(x) { }
    FilterAgree(a, Both(p, Other(k)), q);
  }

  /** A row without cached data drops out of both sides. */
  lemma InvalidateKeepsSync<D>(c: Config<D>, s: Indexed<Row<D>>, k: nat, row: Row<D>, search: Search, cols: seq<Search>)
    requires WellIndexed(s) && k < |s.rows| && row.cache.None?
    ensures var t := s.(rows := s.rows[k := row]);
            WellIndexed(t) && (InSync(c, s, search, cols) ==> InSync(c, t, search, cols))
  {
    var t := s.(rows := s.rows[k := row]);
    if InSync(c, s, search, cols) {
      FilterBut(s.display, k, Cached(s.rows), Cached(t.rows));
      FilterBut(s.master, k, CachedShown(c, s.rows, search, cols), CachedShown(c, t.rows, search, cols));
    }
  }

  // ---------------------------------------------------------------- removing rows

  lemma RemoveOneKeeps<R>(s: Indexed<R>, row: nat)
    requires WellIndexed(s) && row < |s.rows|
    ensures WellIndexed(RemoveOne(s, row))
  {
    DeletedMembers(s.master, row);
    DeletedMembers(s.display, row);
    var t := RemoveOne(s, row);
    forall i | 0 <= i < |t.rows| ensures i in t.master {
      var x := if i < row then i else i + 1;
      assert x in s.master && Lower(row, x) == i;
    }
  }

  lemma DeletedMembers(a: seq<int>, t: int)
    requires Distinct(a)
    ensures Distinct(Deleted(a, t))
    ensures forall x :: x in a && x != t ==> Lower(t, x) in Deleted(a, t)
    ensures forall y :: y in Deleted(a, t) ==> exists x :: x in a && x != t && y == Lower(t, x)
  {
    DeletedDistinct(a, t);
    DeletedIsFiltered(a, t);
    FilterMembers(a, Other(t));
    MapMembers(Filter(a, Other(t)), Lowerer(t));
  }

  /** Removal moves both sides of the synchronisation in the same way. */
  lemma RemovalKeepsSync<D>(c: Config<D>, s: Indexed<Row<D>>, items: seq<int>, search: Search, cols: seq<Search>)
    requires WellIndexed(s) && InSync(c, s, search, cols) && ValidItems(items, |s.rows|)
    ensures InSync(c, Without(s, items), search, cols)
  {
    var t := Without(s, items);
    var p, q := CachedShown(c, s.rows, search, cols), CachedShown(c, t.rows, search, cols);
    forall x: int | 0 <= x < |s.rows| && x !in items
      ensures Cached(t.rows)(Renumberer(items)(x)) == Cached(s.rows)(x) && q(Renumberer(items)(x)) == p(x)
    {
      SurvivorIsThere(s.rows, items, x);
    }
    SurvivorsFilter(s.display, items, |s.rows|, Cached(t.rows), Cached(s.rows));
    SurvivorsFilter(s.master, items, |s.rows|, q, p);
    FilterSwap(s.display, NotIn(items), Cached(s.rows));
    FilterSwap(s.master, NotIn(items), p);
  }

  lemma SurvivorsFilter(a: seq<int>, items: seq<int>, n: nat, now: int -> bool, before: int -> bool)
    requires InRange(a, n)
    requires forall x :: 0 <= x < n && x !in items ==> now(Renumberer(items)(x)) == before(x)
    ensures Filter(Survivors(a, items), now) == Map(Filter(Filter(a, NotIn(items)), before), Renumberer(items))
  {
    FilterMembers(a, NotIn(items));
    FilterOfMap(Filter(a, NotIn(items)), Renumberer(items), now, before);
  }

  lemma FilterSwap(a: seq<int>, p: int -> bool, q: int -> bool)
    ensures Filter(Filter(a, p), q) == Filter(Filter(a, q), p)
  {
    FilterTwice(a, p, q);
    FilterTwice(a, q, p);
    FilterAgree(a, Both(p, q), Both(q, p));
  }

  // ---------------------------------------------------------------- filtering

  function ColumnTest<D>(c: Config<D>, rows: seq<Row<D>>, search: Search, j: nat): int -> bool
    requires j < |c.searchable|
  {
    i => 0 <= i < |rows| && Accepts(c.matcher, search, Cells(c, rows[i].data)[j])
  }

  lemma ColumnsAcceptNext<D>(c: Config<D>, cols: seq<Search>, n: nat, d: D)
    requires n < |cols| == |c.searchable|
    ensures ColumnsAccept(c, cols, n + 1, d) <==>
            ColumnsAccept(c, cols, n, d) && Accepts(c.matcher, cols[n], Cells(c, d)[n])
  { }

  /** The next column search. */
  lemma ColumnStep<D>(c: Config<D>, rows: seq<Row<D>>, cols: seq<Search>, n: nat, a: seq<int>)
    requires n < |cols| == |c.searchable|
    ensures Filter(Filter(a, Columns(c, rows, cols, n)), ColumnTest(c, rows, cols[n], n))
            == Filter(a, Columns(c, rows, cols, n + 1))
  {
    var p, test, q := Columns(c, rows, cols, n), ColumnTest(c, rows, cols[n], n), Columns(c, rows, cols, n + 1);
    FilterTwice(a, p, test);
    forall x | x in a ensures Both(p, test)(x) == q(x) {
      if 0 <= x < |rows| { ColumnsAcceptNext(c, cols, n, rows[x].data); }
    }
    FilterAgree(a, Both(p, test), q);
  }

  lemma ColumnPass<D>(c: Config<D>, rows: seq<Row<D>>, cols: seq<Search>, n: nat, a: seq<int>)
    requires n < |cols| == |c.searchable|
    ensures InRange(Filter(a, Columns(c, rows, cols, n)), |rows|)
    ensures Filter(Filter(a, Columns(c, rows, cols, n)), ColumnTest(c, rows, cols[n], n))
            == Filter(a, Columns(c, rows, cols, n + 1))
  {
    FilterMembers(a, Columns(c, rows, cols, n));
    ColumnStep(c, rows, cols, n, a);
  }

  /** From the whole master list: the global search and then the columns. */
  lemma FilterAfresh<D>(c: Config<D>, rows: seq<Row<D>>, search: Search, cols: seq<Search>, master: seq<int>)
    requires |cols| == |c.searchable|
    ensures Filter(Filter(master, Global(c, rows, search)), Columns(c, rows, cols, |cols|))
            == Filter(master, Shown(c, rows, search, cols))
  {
    FilterTwice(master, Global(c, rows, search), Columns(c, rows, cols, |cols|));
    FilterAgree(master, Both(Global(c, rows, search), Columns(c, rows, cols, |cols|)), Shown(c, rows, search, cols));
  }

  /** What the narrowed display list has to be for a new search: refining it gives the rows of the whole
      list exactly when the old global search dropped none of them. */
  lemma RefinementExact<D>(
    c: Config<D>, rows: seq<Row<D>>, before: Search, now: Search, cols: seq<Search>, master: seq<int>)
    requires |cols| == |c.searchable|
    ensures Filter(Filter(Filter(master, Shown(c, rows, before, cols)), Global(c, rows, now)),
              Columns(c, rows, cols, |cols|))
            == Filter(master, Shown(c, rows, now, cols))
            <==> forall x :: x in master && Shown(c, rows, now, cols)(x) ==> GlobalAccepts(c, before, rows[x].data)
  {
    var old_, new_ := Shown(c, rows, before, cols), Shown(c, rows, now, cols);
    NarrowingExact(master, old_, new_);
    FilterAfresh(c, rows, now, cols, Filter(master, old_));
    forall x | x in master && new_(x) ensures old_(x) <==> GlobalAccepts(c, before, rows[x].data) { }
  }

  /** Where it fails: one row, the text `b`, not shown by the search `a`. Typing `|b` behind it refines
      the empty display list, and the row stays hidden; filtering the master list would show it. */
  lemma RegexRefinementMisses()
    ensures var (m, before, now) := RegexExample();
            var c: Config<string> := Config([true], (d, j) => d, (d, j) => 0.0, m, false, true, true);
            var rows: seq<Row<string>> := [Row("b", Some(CacheOf(c, "b")), None)];
            var cols := [Search("", false, false, false)];
            var shown := Filter([0], Shown(c, rows, before, cols));
            && before.text <= now.text
            && Filter(Filter(shown, Global(c, rows, now)), Columns(c, rows, cols, 1)) == []
            && Filter([0], Shown(c, rows, now, cols)) == [0]
  {
    var (m, before, now) := RegexExample();
    var c: Config<string> := Config([true], (d, j) => d, (d, j) => 0.0, m, false, true, true);
    var rows: seq<Row<string>> := [Row("b", Some(CacheOf(c, "b")), None)];
    var cols := [Search("", false, false, false)];
    assert Strip("b") == "b";
    assert Cells(c, "b") == ["b"] && CacheOf(c, "b").joined == "b";
    RegexMatchesMore();
    assert GlobalAccepts(c, now, "b") && !GlobalAccepts(c, before, "b");
    assert ColumnsAccept(c, cols, 1, "b");
    assert [0][1..] == [];
    assert Filter([0], Shown(c, rows, before, cols)) == [];
  }

  /** A search that the table may refine from what it shows: the same again, a plain one that continues
      the old one, or one for which it starts afresh anyway. */
  predicate Refinable(before: Search, now: Search) {
    || now == before || now.text == "" || !(before.text <= now.text)
    || (IsPlain(now) && before == now.(text := before.text))
  }

  lemma FilterRefined<D>(
    c: Config<D>, rows: seq<Row<D>>, before: Search, now: Search, cols: seq<Search>, master: seq<int>)
    requires |cols| == |c.searchable| && Refinable(before, now) && before.text <= now.text && now.text != ""
    ensures Filter(Filter(Filter(master, Shown(c, rows, before, cols)), Global(c, rows, now)),
              Columns(c, rows, cols, |cols|))
            == Filter(master, Shown(c, rows, now, cols))
  {
    RefinementExact(c, rows, before, now, cols, master);
    forall x | x in master && Shown(c, rows, now, cols)(x) ensures GlobalAccepts(c, before, rows[x].data) {
      if now != before {
        LongerMatchesLess(c.matcher, before, now, CacheOf(c, rows[x].data).joined);
      }
    }
  }

  // ---------------------------------------------------------------- tests on the cached data

  function JoinedTest<D>(c: Config<D>, rows: seq<Row<D>>, s: Search): int -> bool {
    i => 0 <= i < |rows| && rows[i].cache.Some? && Matches(c.matcher, s, rows[i].cache.value.joined)
  }

  function CellTest<D>(c: Config<D>, rows: seq<Row<D>>, s: Search, j: nat): int -> bool {
    i => 0 <= i < |rows| && rows[i].cache.Some? && j < |rows[i].cache.value.cells|
         && Matches(c.matcher, s, rows[i].cache.value.cells[j])
  }

  lemma CachedTests<D>(c: Config<D>, rows: seq<Row<D>>, s: Search, j: nat, a: seq<int>)
    requires AllCached(rows) && CachesRight(c, rows) && s.text != "" && j < |c.searchable|
    ensures Filter(a, CellTest(c, rows, s, j)) == Filter(a, ColumnTest(c, rows, s, j))
  {
    FilterAgree(a, CellTest(c, rows, s, j), ColumnTest(c, rows, s, j));
  }

  lemma CachedGlobal<D>(c: Config<D>, rows: seq<Row<D>>, s: Search, a: seq<int>)
    requires AllCached(rows) && CachesRight(c, rows) && s.text != ""
    ensures Filter(a, JoinedTest(c, rows, s)) == Filter(a, Global(c, rows, s))
  {
    FilterAgree(a, JoinedTest(c, rows, s), Global(c, rows, s));
  }

  /** Nodes play no part in what is shown. */
  ghost predicate SameButNodes<D>(a: seq<Row<D>>, b: seq<Row<D>>) {
    |a| == |b| && forall i :: 0 <= i < |a| ==> a[i].data == b[i].data && a[i].cache == b[i].cache
  }

  lemma ShownIgnoresNodes<D>(
    c: Config<D>, a: seq<int>, before: seq<Row<D>>, rows: seq<Row<D>>, search: Search, cols: seq<Search>)
    requires SameButNodes(before, rows) && |cols| == |c.searchable|
    ensures Filter(a, Shown(c, rows, search, cols)) == Filter(a, Shown(c, before, search, cols))
  {
    FilterAgree(a, Shown(c, rows, search, cols), Shown(c, before, search, cols));
  }

  lemma SyncIgnoresNodes<D>(c: Config<D>, s: Indexed<Row<D>>, rows: seq<Row<D>>, search: Search, cols: seq<Search>)
    requires InSync(c, s, search, cols) && SameButNodes(s.rows, rows)
    ensures InSync(c, s.(rows := rows), search, cols)
  {
    FilterAgree(s.display, Cached(rows), Cached(s.rows));
    FilterAgree(s.master, CachedShown(c, rows, search, cols), CachedShown(c, s.rows, search, cols));
  }

  // ---------------------------------------------------------------- sorting

  function KeysOf<D>(c: Config<D>, rows: seq<Row<D>>): Keys {
    (i: int, col: nat) => if 0 <= i < |rows| then c.key(rows[i].data, col) else 0.0
  }

  lemma SortKeepsIndexed<R>(s: Indexed<R>, keys: Keys, order: seq<SortCol>)
    requires WellIndexed(s)
    ensures WellIndexed(s.(master := SortRows(keys, order, s.master)))
  {
    var r := SortRows(keys, order, s.master);
    SortRowsIsSorted(keys, order, s.master);
    SameMembers(r, s.master);
    PrecedesIsStrictTotal(keys, order, s.master);
    forall i, j | 0 <= i < j < |r| ensures r[i] != r[j] {
      var x := r[i];
      assert x in r;
      assert Precedes(keys, order, s.master)(x, r[j]);
    }
  }

  /** The rows in a sorted master list, by the sort keys of their data: among rows with equal keys in the
      first k sort columns the next one is in its direction. */
  lemma SortedByData<D>(c: Config<D>, rows: seq<Row<D>>, order: seq<SortCol>, master: seq<int>, k: nat, i: nat, j: nat)
    requires Distinct(master) && InRange(master, |rows|) && k < |order| && i < j < |master|
    ensures var r := SortRows(KeysOf(c, rows), order, master);
            && |r| == |master| && 0 <= r[i] < |rows| && 0 <= r[j] < |rows|
            && var a, b, col := rows[r[i]].data, rows[r[j]].data, order[k].col;
            && ((forall l :: 0 <= l < k ==> c.key(a, order[l].col) == c.key(b, order[l].col)) ==>
                  if order[k].asc then c.key(a, col) <= c.key(b, col) else c.key(a, col) >= c.key(b, col))
  {
    var r := SortRows(KeysOf(c, rows), order, master);
    SortRowsIsSorted(KeysOf(c, rows), order, master);
    SameMembers(r, master);
    assert r[i] in r && r[j] in r;
    ColumnsSorted(KeysOf(c, rows), order, master, k, i, j);
  }
}
