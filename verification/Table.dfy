/** The data side of the table widget: rows, index lists, searches, sorting and removal, all updated in
    place. */
module Table {
  import opened Wrappers
  import opened Lists
  import opened TableSearch
  import opened RowRemoval
  import opened RowOrder
  import opened TableView

  class Table<D(!new)> {
    const config: Config<D>
    var aoData: seq<Row<D>>
    var aiDisplayMaster: seq<int>
    var aiDisplay: seq<int>
    var previousSearch: Search
    var preSearchCols: seq<Search>
    var sorting: seq<SortCol>
    var bSorted: bool
    /** The index stored on each row node, and the number of nodes created so far. */
    var rowIndex: map<nat, int>
    var nodes: nat

    function Contents(): Indexed<Row<D>>
      reads this
    {
      Indexed(aoData, aiDisplayMaster, aiDisplay)
    }

    /** Nodes belong to one row each, and know where it is. */
    ghost predicate NodesRight()
      reads this
    {
      && (forall i :: 0 <= i < |aoData| && aoData[i].nTr.Some? ==>
            aoData[i].nTr.value < nodes && aoData[i].nTr.value in rowIndex && rowIndex[aoData[i].nTr.value] == i)
    }

    ghost predicate Consistent()
      reads this
    {
      && WellIndexed(Contents()) && CachesRight(config, aoData) && NodesRight()
      && |preSearchCols| == |config.searchable|
    }

    /** What holds between any two calls. */
    ghost predicate Valid()
      reads this
    {
      Consistent() && InSync(config, Contents(), previousSearch, preSearchCols)
    }

    /** The rows that the current searches accept, in master order. */
    function Filtered(): seq<int>
      requires |preSearchCols| == |config.searchable|
      reads this
    {
      Filter(aiDisplayMaster, Shown(config, aoData, previousSearch, preSearchCols))
    }

    constructor (config: Config<D>, search: Search, cols: seq<Search>, sorting: seq<SortCol>)
      requires |cols| == |config.searchable|
      ensures Valid() && this.config == config && Contents() == Indexed([], [], [])
      ensures previousSearch == search && preSearchCols == cols && this.sorting == sorting
    {
      this.config := config;
      aoData, aiDisplayMaster, aiDisplay := [], [], [];
      previousSearch, preSearchCols, this.sorting, bSorted := search, cols, sorting, false;
      rowIndex, nodes := map[], 0;
    }

    // -------------------------------------------------------------- rows

    /** The node of row i. */
    method CreateTr(i: nat)
      requires Consistent() && i < |aoData|
      modifies this`aoData, this`rowIndex, this`nodes
      ensures Consistent()
      ensures aoData == if old(aoData[i]).nTr.Some? then old(aoData)
                        else old(aoData)[i := old(aoData[i]).(nTr := Some(old(nodes)))]
      ensures HasNode(aoData, i) && SameButNodes(old(aoData), aoData)
      ensures forall k :: HasNode(old(aoData), k) ==> HasNode(aoData, k)
    {
      if aoData[i].nTr.None? {
        aoData := aoData[i := aoData[i].(nTr := Some(nodes))];
        rowIndex := rowIndex[nodes := i];
        nodes := nodes + 1;
      }
    }

    method AddData(d: D) returns (row: nat)
      requires Consistent()
      modifies this
      ensures Consistent() && (old(Valid()) ==> Valid())
      ensures row == |old(aoData)| && |aoData| == row + 1
      ensures aoData[..row] == old(aoData) && aoData[row].data == d && aoData[row].cache.None?
      ensures aoData[row].nTr.Some? <==> !config.deferRender
      ensures aiDisplayMaster == old(aiDisplayMaster) + [row] && aiDisplay == old(aiDisplay)
      ensures previousSearch == old(previousSearch) && preSearchCols == old(preSearchCols)
      ensures sorting == old(sorting) && bSorted == old(bSorted)
    {
      row := |aoData|;
      var added := Row(d, None, if config.deferRender then None else Some(nodes));
      AddKeepsSync(config, Contents(), added, previousSearch, preSearchCols);
      aoData := aoData + [added];
      aiDisplayMaster := aiDisplayMaster + [row];
      if !config.deferRender {
        rowIndex := rowIndex[nodes := row];
        nodes := nodes + 1;
      }
    }

    /** New data for a row; what was derived from the old data is dropped. */
    method SetData(row: nat, d: D)
      requires Consistent() && row < |aoData|
      modifies this`aoData
      ensures Consistent() && (old(Valid()) ==> Valid())
      ensures aoData == old(aoData)[row := old(aoData[row]).(data := d, cache := None)]
    {
      var changed := aoData[row].(data := d, cache := None);
      InvalidateKeepsSync(config, Contents(), row, changed, previousSearch, preSearchCols);
      aoData := aoData[row := changed];
    }

    method Clear()
      requires Consistent()
      modifies this`aoData, this`aiDisplayMaster, this`aiDisplay
      ensures Valid() && Contents() == Indexed([], [], [])
    {
      aoData, aiDisplayMaster, aiDisplay := [], [], [];
    }

    /** Stores the position of every row on its node. */
    method NumberNodes()
      requires DistinctNodes(aoData, nodes)
      modifies this`rowIndex
      ensures NodesRight()
    {
      for i := 0 to |aoData|
        invariant forall k :: 0 <= k < i && aoData[k].nTr.Some? ==>
                    aoData[k].nTr.value in rowIndex && rowIndex[aoData[k].nTr.value] == k
      {
        if aoData[i].nTr.Some? {
          rowIndex := rowIndex[aoData[i].nTr.value := i];
        }
      }
    }

    /** The removal of one of the rows: splice, renumber the nodes, renumber the index lists. */
    method RemoveRow(row: nat)
      requires Consistent() && row < |aoData|
      modifies this`aoData, this`aiDisplayMaster, this`aiDisplay, this`rowIndex
      ensures Consistent() && Contents() == RemoveOne(old(Contents()), row)
    {
      RemoveOneKeeps(Contents(), row);
      CutKeepsRows(config, aoData, nodes, row);
      aoData := Cut(aoData, row);
      NumberNodes();
      aiDisplayMaster := DeleteIndex(aiDisplayMaster, row, true);
      aiDisplay := DeleteIndex(aiDisplay, row, true);
    }

    /** The walk over the list of rows to remove, which is renumbered on the way. */
    method RemoveEach(items: seq<int>)
      requires Consistent() && ValidItems(items, |aoData|)
      modifies this`aoData, this`aiDisplayMaster, this`aiDisplay, this`rowIndex
      ensures Consistent() && Contents() == RemoveAll(old(Contents()), items)
    {
      ghost var result, left := RemoveAll(Contents(), items), items;
      var that := items;
      for j := 0 to |items|
        invariant |that| == |items| && left == that[j..]
        invariant Consistent() && ValidItems(left, |aoData|)
        invariant result == RemoveAll(Contents(), left)
      {
        RemoveStep(Contents(), left);
        var row := that[j];
        RemoveRow(row);
        that := DeleteIndex(that, row, false);
        left := Lowered(left[1..], row);
        assert that[j + 1..] == left;
      }
    }

    /** Removing a duplicate-free list of rows leaves exactly the others. */
    method RemoveRows(items: seq<int>)
      requires Consistent() && ValidItems(items, |aoData|)
      modifies this`aoData, this`aiDisplayMaster, this`aiDisplay, this`rowIndex
      ensures Consistent() && (old(Valid()) ==> Valid())
      ensures Contents() == Without(old(Contents()), items)
    {
      RemovalIsExact(Contents(), items);
      if InSync(config, Contents(), previousSearch, preSearchCols) {
        RemovalKeepsSync(config, Contents(), items, previousSearch, preSearchCols);
      }
      RemoveEach(items);
    }

    // -------------------------------------------------------------- filtering

    /** Computes the filter data that is missing; true when there was some. */
    method FilterData() returns (wasInvalidated: bool)
      requires Consistent()
      modifies this`aoData
      ensures Consistent() && AllCached(aoData) && |aoData| == |old(aoData)|
      ensures forall i :: 0 <= i < |aoData| ==>
                aoData[i] == old(aoData[i]).(cache := Some(CacheOf(config, aoData[i].data)))
      ensures wasInvalidated == !AllCached(old(aoData)) && (!wasInvalidated ==> aoData == old(aoData))
    {
      wasInvalidated := false;
      ghost var before := aoData;
      for i := 0 to |aoData|
        invariant |aoData| == |before| && aoData[i..] == before[i..]
        invariant forall k :: 0 <= k < i ==> aoData[k] == before[k].(cache := Some(CacheOf(config, before[k].data)))
        invariant wasInvalidated == exists k :: 0 <= k < i && before[k].cache.None?
        invariant !wasInvalidated ==> aoData == before
      {
        if aoData[i].cache.None? {
          aoData := aoData[i := aoData[i].(cache := Some(CacheOf(config, aoData[i].data)))];
          wasInvalidated := true;
        }
      }
    }

    /** Takes out of the display list, from its end, the rows that fail a test. */
    method Refine(test: int -> bool)
      modifies this`aiDisplay
      ensures aiDisplay == Filter(old(aiDisplay), test)
    {
      ghost var before := aiDisplay;
      var i := |aiDisplay|;
      while i > 0
        invariant 0 <= i <= |before| && i <= |aiDisplay|
        invariant aiDisplay[..i] == before[..i]
        invariant aiDisplay[i..] == Filter(before[i..], test)
      {
        i := i - 1;
        assert before[i..] == [before[i]] + before[i + 1..];
        if !test(aiDisplay[i]) {
          aiDisplay := aiDisplay[..i] + aiDisplay[i + 1..];
        }
      }
    }

    /** A global search starts from the whole master list; otherwise from what is shown. */
    ghost predicate StartsAfresh(input: Search, force: bool)
      reads this
    {
      || force || bSorted || input.text == "" || !(previousSearch.text <= input.text)
      || !AllCached(aoData)
    }

    /** The global search. */
    method FilterGlobal(input: Search, force: bool)
      requires Consistent()
      modifies this`aoData, this`aiDisplay
      ensures AllCached(aoData) && CachesRight(config, aoData) && NodesRight() && |aoData| == |old(aoData)|
      ensures forall i :: 0 <= i < |aoData| ==>
                aoData[i] == old(aoData[i]).(cache := Some(CacheOf(config, aoData[i].data)))
      ensures !old(StartsAfresh(input, force)) ==> aoData == old(aoData)
      ensures aiDisplay == Filter(if old(StartsAfresh(input, force)) then aiDisplayMaster else old(aiDisplay),
                             Global(config, aoData, input))
    {
      var invalidated := FilterData();
      if |input.text| <= 0 {
        aiDisplay := aiDisplayMaster;
        FilterAll(aiDisplayMaster, Global(config, aoData, input));
      } else {
        if invalidated || force || |previousSearch.text| > |input.text|
           || !(previousSearch.text <= input.text) || bSorted
        {
          aiDisplay := aiDisplayMaster;
        }
        CachedGlobal(config, aoData, input, aiDisplay);
        Refine(JoinedTest(config, aoData, input));
      }
    }

    /** The search of column j. */
    method FilterColumn(j: nat)
      requires AllCached(aoData) && CachesRight(config, aoData) && j < |preSearchCols| == |config.searchable|
      requires InRange(aiDisplay, |aoData|)
      modifies this`aiDisplay
      ensures aiDisplay == Filter(old(aiDisplay), ColumnTest(config, aoData, preSearchCols[j], j))
    {
      if preSearchCols[j].text == "" {
        FilterAll(aiDisplay, ColumnTest(config, aoData, preSearchCols[j], j));
        return;
      }
      CachedTests(config, aoData, preSearchCols[j], j, aiDisplay);
      Refine(CellTest(config, aoData, preSearchCols[j], j));
    }

    method FilterColumns()
      requires AllCached(aoData) && CachesRight(config, aoData) && |preSearchCols| == |config.searchable|
      requires InRange(aiDisplay, |aoData|)
      modifies this`aiDisplay
      ensures aiDisplay == Filter(old(aiDisplay), Columns(config, aoData, preSearchCols, |preSearchCols|))
    {
      ghost var passed, rows, cols := aiDisplay, aoData, preSearchCols;
      FilterAll(passed, Columns(config, rows, cols, 0));
      for i := 0 to |preSearchCols|
        invariant aiDisplay == Filter(passed, Columns(config, rows, cols, i))
      {
        ColumnPass(config, rows, cols, i, passed);
        FilterColumn(i);
      }
    }

    /** The search before accepts every row that the new one shows. */
    ghost predicate Covers(before: Search)
      requires |preSearchCols| == |config.searchable|
      reads this
    {
      forall x <- Filtered() :: 0 <= x < |aoData| && GlobalAccepts(config, before, aoData[x].data)
    }

    /** The global search and then the columns, from the master list or from what is shown. */
    method FilterPass(input: Search, force: bool)
      requires Consistent()
      modifies this`aoData, this`aiDisplay, this`previousSearch
      ensures AllCached(aoData) && CachesRight(config, aoData) && NodesRight() && SameData(aoData, old(aoData))
      ensures previousSearch == input && (!old(StartsAfresh(input, force)) ==> aoData == old(aoData))
      ensures aiDisplay == Filter(if old(StartsAfresh(input, force)) then aiDisplayMaster else old(aiDisplay),
                             Shown(config, aoData, input, preSearchCols))
    {
      ghost var from := if StartsAfresh(input, force) then aiDisplayMaster else aiDisplay;
      FilterGlobal(input, force);
      previousSearch := input;
      ghost var rows, cols := aoData, preSearchCols;
      FilterMembers(from, Global(config, rows, input));
      FilterAfresh(config, rows, input, cols, from);
      FilterColumns();
    }

    /** One filter pass. A display list that was in step with the search before is then exactly the
        filtered master list, if and only if the pass started afresh or the search before accepts every
        row that the new one shows; so it is for the same search again and for a plain one that continues
        it. */
    method FilterComplete(input: Search, force: bool)
      requires Consistent()
      modifies this`aoData, this`aiDisplay, this`previousSearch
      ensures Consistent() && AllCached(aoData) && previousSearch == input && SameData(aoData, old(aoData))
      ensures aiDisplay == Filter(if old(StartsAfresh(input, force)) then aiDisplayMaster else old(aiDisplay),
                             Shown(config, aoData, input, preSearchCols))
      ensures Valid() <==> aiDisplay == Filtered()
      ensures old(StartsAfresh(input, force)) ==> aiDisplay == Filtered()
      ensures old(Valid()) ==>
                (aiDisplay == Filtered() <==> old(StartsAfresh(input, force)) || Covers(old(previousSearch)))
      ensures old(Valid()) && Refinable(old(previousSearch), input) ==> aiDisplay == Filtered()
    {
      ghost var before, shown, afresh := Contents(), previousSearch, StartsAfresh(input, force);
      ghost var from := if afresh then aiDisplayMaster else aiDisplay;
      FilterPass(input, force);
      FilteredIsIndexed(config, Contents(), from, input, preSearchCols);
      if !afresh && InSync(config, before, shown, preSearchCols) {
        RefinedPass(config, before, shown, input, preSearchCols);
      }
    }

    // -------------------------------------------------------------- sorting, drawing and the public calls

    /** Sorts the master list; the display list is stale until the next filter pass. */
    method SortMaster()
      requires Consistent()
      modifies this`aiDisplayMaster, this`bSorted
      ensures Consistent() && bSorted
      ensures aiDisplayMaster == SortRows(KeysOf(config, aoData), sorting, old(aiDisplayMaster))
    {
      SortKeepsIndexed(Contents(), KeysOf(config, aoData), sorting);
      if |sorting| != 0 {
        aiDisplayMaster := Sort(aiDisplayMaster, Precedes(KeysOf(config, aoData), sorting, aiDisplayMaster));
      }
      bSorted := true;
    }

    /** Draws the rows at positions start to end of the display list; those without a node get one. */
    method Draw(start: nat, end: nat)
      requires Consistent() && start <= end <= |aiDisplay|
      modifies this`aoData, this`rowIndex, this`nodes, this`bSorted
      ensures Consistent() && (old(Valid()) ==> Valid()) && !bSorted && SameButNodes(old(aoData), aoData)
      ensures forall j :: start <= j < end ==> HasNode(aoData, aiDisplay[j])
      ensures Filtered() == old(Filtered())
    {
      ghost var before := Contents();
      for j := start to end
        invariant Consistent() && SameButNodes(before.rows, aoData)
        invariant Contents() == before.(rows := aoData)
        invariant forall k :: start <= k < j ==> HasNode(aoData, aiDisplay[k])
      {
        var row := aiDisplay[j];
        assert row in aiDisplay;
        CreateTr(row);
      }
      ShownIgnoresNodes(config, aiDisplayMaster, before.rows, aoData, previousSearch, preSearchCols);
      if InSync(config, before, previousSearch, preSearchCols) {
        SyncIgnoresNodes(config, before, aoData, previousSearch, preSearchCols);
      }
      bSorted := false;
    }

    /** A full redraw: sort, filter, draw. Sorting makes the pass start afresh, so the rows shown are then
        the filtered ones whatever was shown before. */
    method ReDraw()
      requires Consistent()
      modifies this
      ensures Consistent() && !bSorted
      ensures config.filters && (config.sorts || old(Valid())) ==> Valid() && aiDisplay == Filtered()
      ensures !config.filters ==> aiDisplay == aiDisplayMaster
      ensures aiDisplayMaster ==
              if config.sorts then SortRows(KeysOf(config, old(aoData)), sorting, old(aiDisplayMaster))
              else old(aiDisplayMaster)
      ensures previousSearch == old(previousSearch) && preSearchCols == old(preSearchCols) && sorting == old(sorting)
    {
      if config.sorts {
        SortMaster();
      }
      if config.filters {
        FilterComplete(previousSearch, false);
      } else {
        aiDisplay := aiDisplayMaster;
      }
      Draw(0, |aiDisplay|);
    }

    /** The user typed in the search box. */
    method SearchBox(text: string)
      requires Consistent()
      modifies this
      ensures Consistent() && previousSearch == old(previousSearch).(text := text)
      ensures aiDisplayMaster == old(aiDisplayMaster) && preSearchCols == old(preSearchCols)
      ensures text == old(previousSearch).text ==> Contents() == old(Contents())
      ensures text != old(previousSearch).text && old(StartsAfresh(previousSearch.(text := text), false)) ==>
                aiDisplay == Filtered()
      ensures text != old(previousSearch).text && old(Valid()) ==>
                (aiDisplay == Filtered() <==>
                   old(StartsAfresh(previousSearch.(text := text), false)) || Covers(old(previousSearch)))
      ensures old(Valid()) && (aiDisplay == Filtered() || text == old(previousSearch).text) ==> Valid()
    {
      if text != previousSearch.text {
        FilterComplete(previousSearch.(text := text), false);
        Draw(0, |aiDisplay|);
      }
    }

    /** The search call of the API: any search, from the whole list. */
    method SearchAll(search: Search)
      requires Consistent()
      modifies this`aoData, this`aiDisplay, this`previousSearch
      ensures Valid() && previousSearch == search && aiDisplay == Filtered()
    {
      FilterComplete(search, true);
    }

    method SearchColumn(column: nat, search: Search)
      requires Consistent() && column < |preSearchCols|
      modifies this`aoData, this`aiDisplay, this`previousSearch, this`preSearchCols
      ensures Valid() && preSearchCols == old(preSearchCols)[column := search] && aiDisplay == Filtered()
      ensures previousSearch == old(previousSearch)
    {
      preSearchCols := preSearchCols[column := search];
      FilterComplete(previousSearch, true);
    }

    method SetOrder(order: seq<SortCol>)
      requires Consistent()
      modifies this`sorting
      ensures Consistent() && (old(Valid()) ==> Valid()) && sorting == order
    {
      sorting := order;
    }
  }

  /** A pass that refined a display list in step with the search before. */
  lemma RefinedPass<D>(c: Config<D>, s: Indexed<Row<D>>, before: Search, now: Search, cols: seq<Search>)
    requires WellIndexed(s) && AllCached(s.rows) && InSync(c, s, before, cols)
    requires before.text <= now.text && now.text != ""
    ensures var all := Filter(s.master, Shown(c, s.rows, now, cols));
            && (Filter(s.display, Shown(c, s.rows, now, cols)) == all <==>
                  forall x <- all :: 0 <= x < |s.rows| && GlobalAccepts(c, before, s.rows[x].data))
            && (Refinable(before, now) ==> Filter(s.display, Shown(c, s.rows, now, cols)) == all)
  {
    InSyncWhenCached(c, s, before, cols);
    FilterAfresh(c, s.rows, now, cols, s.display);
    RefinementExact(c, s.rows, before, now, cols, s.master);
    FilterMembers(s.master, Shown(c, s.rows, now, cols));
    if Refinable(before, now) { FilterRefined(c, s.rows, before, now, cols, s.master); }
  }

  /** What a pass leaves is indexed well, and in step with the search exactly when it is all of the
      filtered rows. */
  lemma FilteredIsIndexed<D>(c: Config<D>, s: Indexed<Row<D>>, from: seq<int>, search: Search, cols: seq<Search>)
    requires WellIndexed(s.(display := from)) && AllCached(s.rows) && |cols| == |c.searchable|
    requires s.display == Filter(from, Shown(c, s.rows, search, cols))
    ensures WellIndexed(s)
    ensures InSync(c, s, search, cols) <==> s.display == Filter(s.master, Shown(c, s.rows, search, cols))
  {
    FilterMembers(from, Shown(c, s.rows, search, cols));
    FilterDistinct(from, Shown(c, s.rows, search, cols));
    InSyncWhenCached(c, s, search, cols);
  }

  ghost predicate DistinctNodes<D>(rows: seq<Row<D>>, nodes: nat) {
    && (forall i :: 0 <= i < |rows| && rows[i].nTr.Some? ==> rows[i].nTr.value < nodes)
    && (forall i, j :: 0 <= i < j < |rows| && rows[i].nTr.Some? ==> rows[i].nTr != rows[j].nTr)
  }

  ghost predicate HasNode<D>(rows: seq<Row<D>>, i: int) {
    0 <= i < |rows| && rows[i].nTr.Some?
  }

  /** Same rows, whatever filter data they have cached. */
  ghost predicate SameData<D>(a: seq<Row<D>>, b: seq<Row<D>>) {
    |a| == |b| && forall i :: 0 <= i < |a| ==> a[i].data == b[i].data && a[i].nTr == b[i].nTr
  }

  lemma CutKeepsRows<D>(c: Config<D>, rows: seq<Row<D>>, nodes: nat, row: nat)
    requires CachesRight(c, rows) && DistinctNodes(rows, nodes) && row < |rows|
    ensures CachesRight(c, Cut(rows, row)) && DistinctNodes(Cut(rows, row), nodes)
  {
    var now := Cut(rows, row);
    assert forall i :: 0 <= i < |now| ==> now[i] == rows[if i < row then i else i + 1];
  }
}
