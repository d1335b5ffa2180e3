/** One visit of the block indexer to a chain, and the scan it is compared with. The producer of a block
    is the name of its witness here. */
module IndexScan {
  import opened Wrappers

  /** The time stamp is None when it does not parse. */
  datatype Block = Block(producer: string, timestamp: Option<int>)

  /** What one `get_block` call does. */
  datatype Answer = Raises | Missing | Got(block: Block)

  /** Answers during one visit, by block number and attempt. */
  type Node = (nat, nat) -> Answer

  datatype Config = Config(indexFullBlockchain: bool, witnesses: seq<string>)

  datatype Db = Db(lastIndexed: int, totalProduced: map<string, int>, lastProduced: map<string, int>)

  // ---------------------------------------------------------------- one visit

  /** A missing block is asked for again, three times. */
  function Fetch(node: Node, n: nat, attempt: nat): Answer
    requires attempt <= 3
    decreases 3 - attempt
  {
    if node(n, attempt).Missing? && attempt < 3 then Fetch(node, n, attempt + 1) else node(n, attempt)
  }

  /** A block counts as missing only after four attempts; otherwise the first other answer counts. */
  lemma {:induction false} FetchTriesFourTimes(node: Node, n: nat, attempt: nat)
    requires attempt <= 3
    ensures Fetch(node, n, attempt).Missing? <==> forall i :: attempt <= i <= 3 ==> node(n, i).Missing?
    ensures forall i | attempt <= i <= 3 && !node(n, i).Missing?
                       && (forall j :: attempt <= j < i ==> node(n, j).Missing?) ::
              Fetch(node, n, attempt) == node(n, i)
    decreases 3 - attempt
  {
    if node(n, attempt).Missing? && attempt < 3 {
      FetchTriesFourTimes(node, n, attempt + 1);
    }
  }

  ghost predicate HasTotals(c: Config, db: Db) {
    forall w <- c.witnesses :: w in db.totalProduced
  }

  predicate Monitored(c: Config, block: Option<Block>) {
    block.Some? && block.value.producer in c.witnesses
  }

  /** A block that is counted, but whose time stamp then raises. */
  predicate Unreadable(c: Config, block: Block) {
    block.producer in c.witnesses && block.timestamp.None?
  }

  function Counted(db: Db, w: string): Db
    requires w in db.totalProduced
  {
    db.(totalProduced := db.totalProduced[w := db.totalProduced[w] + 1])
  }

  /** The database after block n was seen to be `block`, None when it stayed missing. */
  function Record(c: Config, db: Db, n: int, block: Option<Block>): (r: Db)
    requires HasTotals(c, db)
    ensures HasTotals(c, r)
  {
    if !Monitored(c, block) then db.(lastIndexed := n)
    else
      var w := block.value.producer;
      var dated := if block.value.timestamp.None? then db
                   else db.(lastProduced := db.lastProduced[w := block.value.timestamp.value]);
      Counted(dated, w).(lastIndexed := n)
  }

  /** What is done about a block: it is recorded, or counted and then raises. */
  function Indexed(c: Config, db: Db, n: int, block: Option<Block>): (r: (Db, bool))
    requires HasTotals(c, db)
    ensures HasTotals(c, r.0) && (r.1 ==> r.0.lastIndexed == n)
  {
    if block.Some? && Unreadable(c, block.value) then (Counted(db, block.value.producer), false)
    else (Record(c, db, n, block), true)
  }

  function Advance(c: Config, db: Db, head: nat, node: Node): (r: (Db, bool))
    requires HasTotals(c, db) && -1 <= db.lastIndexed
    ensures HasTotals(c, r.0)
    decreases head - db.lastIndexed
  {
    if head <= db.lastIndexed then (db, true)
    else
      var n := db.lastIndexed + 1;
      match Fetch(node, n, 0)
      case Raises => (db, false)
      case Missing => Advance(c, Record(c, db, n, None), head, node)
      case Got(b) =>
        if Unreadable(c, b) then (Counted(db, b.producer), false)
        else Advance(c, Record(c, db, n, Some(b)), head, node)
  }

  /** What makes a visit stop at a block. */
  predicate Stops(c: Config, answer: Answer) {
    answer.Raises? || (answer.Got? && Unreadable(c, answer.block))
  }

  /** The block an answer shows. */
  function Shown(answer: Answer): Option<Block> {
    if answer.Got? then Some(answer.block) else None
  }

  lemma AdvanceNext(c: Config, db: Db, head: nat, node: Node)
    requires HasTotals(c, db) && -1 <= db.lastIndexed < head
    ensures var answer := Fetch(node, db.lastIndexed + 1, 0);
            Advance(c, db, head, node) ==
            if answer.Raises? then (db, false)
            else if Stops(c, answer) then (Counted(db, answer.block.producer), false)
            else Advance(c, Record(c, db, db.lastIndexed + 1, Shown(answer)), head, node)
  { }

  /** Unless the whole chain is wanted, an index that has not started yet begins at the block before
      the head. */
  function Begin(c: Config, db: Db, head: nat): Db {
    if !c.indexFullBlockchain && db.lastIndexed == 0 then db.(lastIndexed := head - 1) else db
  }


  datatype Visit = Visit(head: nat, node: Node)

  lemma {:induction false} AdvanceGrows(c: Config, db: Db, head: nat, node: Node)
    requires HasTotals(c, db) && -1 <= db.lastIndexed
    ensures var (r, ok) := Advance(c, db, head, node);
            && db.lastIndexed <= r.lastIndexed
            && (ok ==> r.lastIndexed == if head <= db.lastIndexed then db.lastIndexed else head)
            && (!ok ==> r.lastIndexed < head && Stops(c, Fetch(node, r.lastIndexed + 1, 0)))
            && forall n: nat | db.lastIndexed < n <= r.lastIndexed :: !Stops(c, Fetch(node, n, 0))
    decreases head - db.lastIndexed
  {
    if head > db.lastIndexed {
      var n := db.lastIndexed + 1;
      var answer := Fetch(node, n, 0);
      AdvanceNext(c, db, head, node);
      if !Stops(c, answer) { AdvanceGrows(c, Record(c, db, n, Shown(answer)), head, node); }
    }
  }

  function VisitOnce(c: Config, db: Db, v: Visit): (r: Db)
    requires HasTotals(c, db) && -1 <= db.lastIndexed
    ensures HasTotals(c, r) && Begin(c, db, v.head).lastIndexed <= r.lastIndexed
  {
    AdvanceGrows(c, Begin(c, db, v.head), v.head, v.node);
    Advance(c, Begin(c, db, v.head), v.head, v.node).0
  }

  /** The witness whose block a visit counted without getting past it. */
  function Recount(c: Config, db: Db, v: Visit): seq<string>
    requires HasTotals(c, db) && -1 <= db.lastIndexed
  {
    var (r, ok) := Advance(c, Begin(c, db, v.head), v.head, v.node);
    if ok || r.lastIndexed < -1 then []
    else
      var answer := Fetch(v.node, r.lastIndexed + 1, 0);
      if answer.Got? then [answer.block.producer] else []
  }

  // ---------------------------------------------------------------- scanning from scratch

  type Chain = nat -> Option<Block>

  /** A straightforward scan of the chain up to block `upto`. */
  function Scan(c: Config, db: Db, chain: Chain, upto: int): (r: Db)
    requires HasTotals(c, db) && -1 <= db.lastIndexed
    ensures HasTotals(c, r)
    decreases upto - db.lastIndexed
  {
    if upto <= db.lastIndexed then db else Record(c, Scan(c, db, chain, upto - 1), upto, chain(upto))
  }

  lemma {:induction false} ScanComposes(c: Config, db: Db, chain: Chain, m: int, upto: int)
    requires HasTotals(c, db) && -1 <= db.lastIndexed <= m <= upto
    ensures Scan(c, db, chain, m).lastIndexed == m
    ensures Scan(c, Scan(c, db, chain, m), chain, upto) == Scan(c, db, chain, upto)
    decreases upto
  {
    if m < upto { ScanComposes(c, db, chain, m, upto - 1); }
    if m > db.lastIndexed { ScanComposes(c, db, chain, m - 1, m - 1); }
  }

  /** The blocks after `from` and up to `upto` were answered as they are in the chain. */
  ghost predicate Agrees(node: Node, chain: Chain, from: int, upto: int) {
    forall n: nat | from < n <= upto :: chain(n) == Shown(Fetch(node, n, 0))
  }

  ghost predicate AllReadable(c: Config, chain: Chain, from: int, upto: int) {
    forall n: nat | from < n <= upto && chain(n).Some? :: !Unreadable(c, chain(n).value)
  }

  /** Blocks counted once more. */
  function CountedAll(db: Db, ws: seq<string>): (r: Db)
    requires forall w <- ws :: w in db.totalProduced
    ensures r.totalProduced.Keys == db.totalProduced.Keys && r.lastIndexed == db.lastIndexed
    ensures r.lastProduced == db.lastProduced
  {
    if ws == [] then db else Counted(CountedAll(db, ws[..|ws| - 1]), ws[|ws| - 1])
  }

  lemma RecordOfCounted(c: Config, db: Db, w: string, n: int, block: Option<Block>)
    requires HasTotals(c, db) && w in db.totalProduced
    ensures Record(c, Counted(db, w), n, block) == Counted(Record(c, db, n, block), w)
  {
    if Monitored(c, block) {
      var t, x := db.totalProduced, block.value.producer;
      var u := Counted(db, w).totalProduced;
      assert u[x := u[x] + 1] == if w == x then t[w := t[w] + 2] else t[w := t[w] + 1][x := t[x] + 1];
      var v := t[x := t[x] + 1];
      assert v[w := v[w] + 1] == if w == x then t[w := t[w] + 2] else t[w := t[w] + 1][x := t[x] + 1];
    }
  }

  lemma {:induction false} ScanKeeps(c: Config, db: Db, chain: Chain, upto: int)
    requires HasTotals(c, db) && -1 <= db.lastIndexed
    ensures Scan(c, db, chain, upto).totalProduced.Keys == db.totalProduced.Keys
    decreases upto - db.lastIndexed
  {
    if db.lastIndexed < upto { ScanKeeps(c, db, chain, upto - 1); }
  }

  lemma {:induction false} ScanOfCounted(c: Config, db: Db, w: string, chain: Chain, upto: int)
    requires HasTotals(c, db) && -1 <= db.lastIndexed && w in db.totalProduced
    ensures w in Scan(c, db, chain, upto).totalProduced
    ensures Scan(c, Counted(db, w), chain, upto) == Counted(Scan(c, db, chain, upto), w)
    decreases upto - db.lastIndexed
  {
    if db.lastIndexed < upto {
      ScanOfCounted(c, db, w, chain, upto - 1);
      RecordOfCounted(c, Scan(c, db, chain, upto - 1), w, upto, chain(upto));
    }
  }

  lemma {:induction false} ScanOfCountedAll(c: Config, db: Db, ws: seq<string>, chain: Chain, upto: int)
    requires HasTotals(c, db) && -1 <= db.lastIndexed && forall w <- ws :: w in c.witnesses
    ensures HasTotals(c, CountedAll(db, ws))
    ensures Scan(c, CountedAll(db, ws), chain, upto) == CountedAll(Scan(c, db, chain, upto), ws)
  {
    if ws != [] {
      var init, w := ws[..|ws| - 1], ws[|ws| - 1];
      ScanOfCountedAll(c, db, init, chain, upto);
      ScanOfCounted(c, CountedAll(db, init), w, chain, upto);
    }
  }

  lemma {:induction false} CountedAllAppend(db: Db, a: seq<string>, b: seq<string>)
    requires forall w <- a + b :: w in db.totalProduced
    requires |b| <= 1
    ensures CountedAll(db, a + b) == CountedAll(CountedAll(db, a), b)
  {
    if b == [] {
      assert a + b == a;
    } else {
      assert (a + b)[..|a|] == a && b[..0] == [];
    }
  }

  lemma {:induction false} CountedAllMoves(db: Db, ws: seq<string>, n: int)
    requires forall w <- ws :: w in db.totalProduced
    ensures CountedAll(db, ws).(lastIndexed := n) == CountedAll(db.(lastIndexed := n), ws)
  {
    if ws != [] { CountedAllMoves(db, ws[..|ws| - 1], n); }
  }

  /** What a visit leaves behind when it stops: the scan up to there, and one more for a block that it
      counted without getting past it. */
  ghost predicate StoppedAt(c: Config, scanned: Db, answer: Answer, r: Db, ok: bool) {
    if !ok && answer.Got? then
      Unreadable(c, answer.block) && answer.block.producer in scanned.totalProduced
      && r == Counted(scanned, answer.block.producer)
    else r == scanned
  }

  lemma {:induction false} AdvanceIsScan(c: Config, db: Db, head: nat, node: Node, chain: Chain)
    requires HasTotals(c, db) && -1 <= db.lastIndexed
    requires Agrees(node, chain, db.lastIndexed, Advance(c, db, head, node).0.lastIndexed)
    ensures var (r, ok) := Advance(c, db, head, node);
            && db.lastIndexed <= r.lastIndexed
            && StoppedAt(c, Scan(c, db, chain, r.lastIndexed), Fetch(node, r.lastIndexed + 1, 0), r, ok)
    decreases head - db.lastIndexed
  {
    if head <= db.lastIndexed || Stops(c, Fetch(node, db.lastIndexed + 1, 0)) {
      AdvanceStops(c, db, head, node, chain);
    } else {
      var n := db.lastIndexed + 1;
      var next := Record(c, db, n, Shown(Fetch(node, n, 0)));
      AdvanceNext(c, db, head, node);
      AdvanceGrows(c, next, head, node);
      assert chain(n) == Shown(Fetch(node, n, 0));
      AdvanceIsScan(c, next, head, node, chain);
      ScanStart(c, db, chain, Advance(c, next, head, node).0.lastIndexed);
    }
  }

  lemma AdvanceStops(c: Config, db: Db, head: nat, node: Node, chain: Chain)
    requires HasTotals(c, db) && -1 <= db.lastIndexed
    requires head <= db.lastIndexed || Stops(c, Fetch(node, db.lastIndexed + 1, 0))
    ensures var (r, ok) := Advance(c, db, head, node);
            r.lastIndexed == db.lastIndexed && StoppedAt(c, db, Fetch(node, db.lastIndexed + 1, 0), r, ok)
    ensures Scan(c, db, chain, db.lastIndexed) == db
  {
    if head > db.lastIndexed { AdvanceNext(c, db, head, node); }
  }

  lemma ScanStart(c: Config, db: Db, chain: Chain, upto: int)
    requires HasTotals(c, db) && -1 <= db.lastIndexed < upto
    ensures var n := db.lastIndexed + 1;
            Scan(c, Record(c, db, n, chain(n)), chain, upto) == Scan(c, db, chain, upto)
  {
    ScanComposes(c, db, chain, db.lastIndexed + 1, upto);
  }

  lemma VisitOnceIsScan(c: Config, db: Db, v: Visit, chain: Chain)
    requires HasTotals(c, db) && -1 <= db.lastIndexed
    requires Agrees(v.node, chain, Begin(c, db, v.head).lastIndexed, VisitOnce(c, db, v).lastIndexed)
    ensures |Recount(c, db, v)| <= 1 && forall w <- Recount(c, db, v) :: w in c.witnesses
    ensures VisitOnce(c, db, v) ==
            CountedAll(Scan(c, Begin(c, db, v.head), chain, VisitOnce(c, db, v).lastIndexed), Recount(c, db, v))
  {
    AdvanceIsScan(c, Begin(c, db, v.head), v.head, v.node, chain);
    var ws := Recount(c, db, v);
    if ws != [] { assert ws[..0] == []; }
  }

  /** The scan from `start`, with blocks counted once more. */
  ghost predicate IsScanFrom(c: Config, db: Db, start: int, ws: seq<string>, chain: Chain, r: Db)
    requires HasTotals(c, db)
  {
    && -1 <= start <= r.lastIndexed && AllReadable(c, chain, start, r.lastIndexed)
    && (forall w <- ws :: w in c.witnesses)
    && var from := db.(lastIndexed := start);
    && (forall w <- ws :: w in Scan(c, from, chain, r.lastIndexed).totalProduced)
    && r == CountedAll(Scan(c, from, chain, r.lastIndexed), ws)
  }

  lemma {:induction false} ScanOfSame(c: Config, db: Db, a: Chain, b: Chain, upto: int)
    requires HasTotals(c, db) && -1 <= db.lastIndexed
    requires forall n: nat | db.lastIndexed < n <= upto :: a(n) == b(n)
    ensures Scan(c, db, a, upto) == Scan(c, db, b, upto)
    decreases upto - db.lastIndexed
  {
    if db.lastIndexed < upto { ScanOfSame(c, db, a, b, upto - 1); }
  }

  lemma IsScanOfSame(c: Config, db: Db, start: int, ws: seq<string>, a: Chain, b: Chain, r: Db)
    requires HasTotals(c, db) && IsScanFrom(c, db, start, ws, a, r)
    requires forall n: nat | n <= r.lastIndexed :: a(n) == b(n)
    ensures IsScanFrom(c, db, start, ws, b, r)
  {
    ScanOfSame(c, db.(lastIndexed := start), a, b, r.lastIndexed);
  }

  lemma ScanOfNothing(c: Config, db: Db, start: int, chain: Chain)
    requires HasTotals(c, db) && -1 <= start <= 0 && chain(0).None?
    ensures Scan(c, db.(lastIndexed := start), chain, 0) == db.(lastIndexed := 0)
  {
    if start == -1 {
      assert Scan(c, db.(lastIndexed := -1), chain, -1) == db.(lastIndexed := -1);
    }
  }

  /** A visit to an index not yet started may move the start. */
  lemma BeginIsScan(c: Config, db: Db, start: int, ws: seq<string>, before: Db, head: nat, chain: Chain)
    requires HasTotals(c, db) && IsScanFrom(c, db, start, ws, chain, before)
    requires chain(0).None? && !c.indexFullBlockchain && before.lastIndexed == 0
    ensures IsScanFrom(c, db, head - 1, ws, chain, Begin(c, before, head))
  {
    ScanOfNothing(c, db, start, chain);
    CountedAllMoves(db.(lastIndexed := 0), ws, head - 1);
  }

  /** The scan goes on from where it was. */
  lemma ScanGoesOn(c: Config, db: Db, start: int, ws: seq<string>, chain: Chain, mid: Db, more: seq<string>, after: Db)
    requires HasTotals(c, db) && IsScanFrom(c, db, start, ws, chain, mid) && HasTotals(c, mid)
    requires IsScanFrom(c, mid, mid.lastIndexed, more, chain, after) && |more| <= 1
    ensures IsScanFrom(c, db, start, ws + more, chain, after)
  {
    var from, upto := db.(lastIndexed := start), after.lastIndexed;
    var there := Scan(c, from, chain, mid.lastIndexed);
    assert mid.(lastIndexed := mid.lastIndexed) == mid;
    ScanComposes(c, from, chain, mid.lastIndexed, upto);
    ScanOfCountedAll(c, there, ws, chain, upto);
    CountedAllAppend(Scan(c, from, chain, upto), ws, more);
  }

  lemma VisitIsScan(c: Config, db: Db, start: int, ws: seq<string>, before: Db, v: Visit, chain: Chain)
      returns (next: int)
    requires HasTotals(c, db) && HasTotals(c, before) && IsScanFrom(c, db, start, ws, chain, before)
    requires chain(0).None?
    requires Agrees(v.node, chain, Begin(c, before, v.head).lastIndexed, VisitOnce(c, before, v).lastIndexed)
    ensures next == if !c.indexFullBlockchain && before.lastIndexed == 0 then v.head - 1 else start
    ensures IsScanFrom(c, db, next, ws + Recount(c, before, v), chain, VisitOnce(c, before, v))
  {
    var mid := Begin(c, before, v.head);
    next := start;
    if !c.indexFullBlockchain && before.lastIndexed == 0 {
      next := v.head - 1;
      BeginIsScan(c, db, start, ws, before, v.head, chain);
    }
    VisitOnceIsScan(c, before, v, chain);
    AdvanceGrows(c, mid, v.head, v.node);
    assert mid.(lastIndexed := mid.lastIndexed) == mid;
    ScanGoesOn(c, db, next, ws, chain, mid, Recount(c, before, v), VisitOnce(c, before, v));
  }

  // ---------------------------------------------------------------- what a scan counts

  ghost predicate ProducedBy(c: Config, block: Option<Block>, w: string) {
    block.Some? && block.value.producer == w
  }

  ghost function Produced(c: Config, chain: Chain, from: int, upto: int, w: string): set<nat> {
    set n: nat | from < n <= upto && ProducedBy(c, chain(n), w)
  }

  lemma ProducedStep(c: Config, chain: Chain, from: int, upto: int, w: string)
    requires -1 <= from < upto
    ensures var before := Produced(c, chain, from, upto - 1, w);
            && upto !in before
            && Produced(c, chain, from, upto, w) ==
                 if ProducedBy(c, chain(upto), w) then before + {upto} else before
  { }

  /** For a monitored witness, the total grows by the number of its blocks after the start, each
      counted once. */
  lemma {:induction false} ScanCounts(c: Config, db: Db, chain: Chain, upto: int, w: string)
    requires HasTotals(c, db) && -1 <= db.lastIndexed <= upto && w in c.witnesses
    ensures Scan(c, db, chain, upto).totalProduced[w]
            == db.totalProduced[w] + |Produced(c, chain, db.lastIndexed, upto, w)|
    decreases upto
  {
    if db.lastIndexed < upto {
      ScanCounts(c, db, chain, upto - 1, w);
      ProducedStep(c, chain, db.lastIndexed, upto, w);
    } else {
      assert Produced(c, chain, db.lastIndexed, upto, w) == {};
    }
  }

  /** Witnesses that are not monitored keep their totals and dates. */
  lemma {:induction false} ScanLeavesOthers(c: Config, db: Db, chain: Chain, upto: int, w: string)
    requires HasTotals(c, db) && -1 <= db.lastIndexed && w !in c.witnesses
    ensures var r := Scan(c, db, chain, upto);
            && (w in r.totalProduced <==> w in db.totalProduced)
            && (w in r.totalProduced ==> r.totalProduced[w] == db.totalProduced[w])
            && (w in r.lastProduced <==> w in db.lastProduced)
            && (w in r.lastProduced ==> r.lastProduced[w] == db.lastProduced[w])
    decreases upto - db.lastIndexed
  {
    if db.lastIndexed < upto { ScanLeavesOthers(c, db, chain, upto - 1, w); }
  }

  /** The date kept for a witness is that of the highest of its blocks, and the old one when it has none. */
  ghost predicate LatestDate(
    dates: map<string, int>, before: map<string, int>, blocks: set<nat>, chain: Chain, w: string)
  {
    && (blocks == {} ==> (w in dates <==> w in before) && (w in dates ==> dates[w] == before[w]))
    && forall n <- blocks | IsLatest(n, blocks) && chain(n).Some? ::
         w in dates && Some(dates[w]) == chain(n).value.timestamp
  }

  ghost predicate IsLatest(n: nat, blocks: set<nat>) {
    n in blocks && forall m <- blocks :: m <= n
  }

  lemma DateStep(c: Config, db: Db, scanned: Db, chain: Chain, upto: int, w: string)
    requires -1 <= db.lastIndexed < upto && HasTotals(c, scanned) && w in c.witnesses
    requires AllReadable(c, chain, db.lastIndexed, upto)
    requires LatestDate(scanned.lastProduced, db.lastProduced,
               Produced(c, chain, db.lastIndexed, upto - 1, w), chain, w)
    ensures LatestDate(Record(c, scanned, upto, chain(upto)).lastProduced, db.lastProduced,
              Produced(c, chain, db.lastIndexed, upto, w), chain, w)
  {
    var blocks, before := Produced(c, chain, db.lastIndexed, upto, w), Produced(c, chain, db.lastIndexed, upto - 1, w);
    ProducedStep(c, chain, db.lastIndexed, upto, w);
    if ProducedBy(c, chain(upto), w) {
      assert upto in blocks && forall n <- blocks :: n <= upto;
      assert forall n | IsLatest(n, blocks) :: n == upto;
    } else {
      assert blocks == before;
    }
  }

  /** In a scan it is. */
  lemma {:induction false} ScanDates(c: Config, db: Db, chain: Chain, upto: int, w: string)
    requires HasTotals(c, db) && -1 <= db.lastIndexed <= upto && w in c.witnesses
    requires AllReadable(c, chain, db.lastIndexed, upto)
    ensures LatestDate(Scan(c, db, chain, upto).lastProduced, db.lastProduced,
              Produced(c, chain, db.lastIndexed, upto, w), chain, w)
    decreases upto
  {
    if db.lastIndexed < upto {
      ScanDates(c, db, chain, upto - 1, w);
      DateStep(c, db, Scan(c, db, chain, upto - 1), chain, upto, w);
    } else {
      assert Produced(c, chain, db.lastIndexed, upto, w) == {};
    }
  }

  lemma {:induction false} CountedAllTotals(db: Db, ws: seq<string>, w: string)
    requires (forall x <- ws :: x in db.totalProduced) && w in db.totalProduced
    ensures CountedAll(db, ws).totalProduced[w] == db.totalProduced[w] + multiset(ws)[w]
  {
    if ws != [] {
      CountedAllTotals(db, ws[..|ws| - 1], w);
      assert ws == ws[..|ws| - 1] + [ws[|ws| - 1]];
    }
  }

  /** What the scan counts, when blocks were counted again on the way. */
  lemma IsScanCounts(c: Config, db: Db, start: int, ws: seq<string>, chain: Chain, r: Db, w: string)
    requires HasTotals(c, db) && IsScanFrom(c, db, start, ws, chain, r) && w in c.witnesses
    ensures var blocks := Produced(c, chain, start, r.lastIndexed, w);
            && w in r.totalProduced && r.totalProduced[w] == db.totalProduced[w] + |blocks| + multiset(ws)[w]
            && LatestDate(r.lastProduced, db.lastProduced, blocks, chain, w)
  {
    var from := db.(lastIndexed := start);
    ScanCounts(c, from, chain, r.lastIndexed, w);
    ScanDates(c, from, chain, r.lastIndexed, w);
    CountedAllTotals(Scan(c, from, chain, r.lastIndexed), ws, w);
  }
}
