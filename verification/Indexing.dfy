/** The incremental block indexer: polls look up the names of witnesses until some are known, and advance
    the index block by block; a failing call may stop any of them half way. */
module Indexing {
  import opened Wrappers
  import opened IndexScan
  import Lists

  // ---------------------------------------------------------------- names of witnesses

  /** From the id of a witness to its name. */
  type Names = map<string, string>

  /** What one `get_witness` call does: a TypeError or RPCError is caught, any other exception is not. */
  datatype Lookup = Caught | Uncaught | Found(id: string)

  function WitnessName(names: Names, b: Block): string {
    if b.producer in names then names[b.producer] else b.producer
  }

  function Renamed(names: Names, answer: Answer): Answer {
    if answer.Got? then Got(answer.block.(producer := WitnessName(names, answer.block))) else answer
  }

  /** The answers of a node, with names instead of ids. */
  function NamedNode(names: Names, node: Node): Node {
    (n: nat, i: nat) => Renamed(names, node(n, i))
  }

  function NamedBlock(names: Names, block: Option<Block>): Option<Block> {
    if block.Some? then Some(block.value.(producer := WitnessName(names, block.value))) else None
  }

  /** The look-ups of one poll from the i-th witness on; false when one raised, and then the names found
      before stay. */
  function LookUp(witnesses: seq<string>, lookups: nat -> Lookup, i: nat, names: Names): (Names, bool)
    requires i <= |witnesses|
    decreases |witnesses| - i
  {
    if i == |witnesses| then (names, true)
    else match lookups(i)
      case Caught => LookUp(witnesses, lookups, i + 1, names)
      case Uncaught => (names, false)
      case Found(id) => LookUp(witnesses, lookups, i + 1, names[id := witnesses[i]])
  }

  /** Once a name is known nothing is looked up any more. */
  function NamesAfter(c: Config, names: Names, lookups: nat -> Lookup): (Names, bool) {
    if names == map[] then LookUp(c.witnesses, lookups, 0, names) else (names, true)
  }

  /** The look-ups come to an end here: at the first that raises, or behind the last. */
  ghost predicate EndsAt(witnesses: seq<string>, lookups: nat -> Lookup, end: nat) {
    && end <= |witnesses| && (forall i :: 0 <= i < end ==> lookups(i) != Uncaught)
    && (end < |witnesses| ==> lookups(end) == Uncaught)
  }

  /** Look-up i is the last one before the end that found this id. */
  ghost predicate FoundLast(lookups: nat -> Lookup, end: nat, i: nat, id: string) {
    i < end && lookups(i) == Found(id) && forall j :: i < j < end ==> lookups(j) != Found(id)
  }

  lemma {:induction false} LookUpFinds(
    witnesses: seq<string>, lookups: nat -> Lookup, from: nat, end: nat, names: Names, id: string)
    returns (last: Option<nat>)
    requires from <= end && EndsAt(witnesses, lookups, end)
    ensures var (r, found) := LookUp(witnesses, lookups, from, names);
            && found == (end == |witnesses|)
            && (last.Some? ==> from <= last.value && FoundLast(lookups, end, last.value, id)
                               && id in r && r[id] == witnesses[last.value])
            && (last.None? ==> (id in r <==> id in names) && (id in r ==> r[id] == names[id]))
    ensures last.None? ==> forall j :: from <= j < end ==> lookups(j) != Found(id)
    decreases |witnesses| - from
  {
    last := None;
    if from < end {
      var now := if lookups(from).Found? then names[lookups(from).id := witnesses[from]] else names;
      assert LookUp(witnesses, lookups, from, names) == LookUp(witnesses, lookups, from + 1, now);
      last := LookUpFinds(witnesses, lookups, from + 1, end, now, id);
      if last.None? && lookups(from) == Found(id) { last := Some(from); }
    }
  }

  /** What the first poll knows: an id stands for a witness exactly if the last look-up that found it,
      before one raised, was for this witness. */
  lemma NamesAreFound(c: Config, lookups: nat -> Lookup, end: nat, id: string, w: string)
    requires EndsAt(c.witnesses, lookups, end)
    ensures var (names, found) := NamesAfter(c, map[], lookups);
            && found == (end == |c.witnesses|)
            && (id in names && names[id] == w <==>
                  exists i: nat :: FoundLast(lookups, end, i, id) && w == c.witnesses[i])
  {
    var last := LookUpFinds(c.witnesses, lookups, 0, end, map[], id);
    if last.Some? {
      forall i: nat | FoundLast(lookups, end, i, id) ensures i == last.value { }
    }
  }

  // ---------------------------------------------------------------- polls

  datatype State = State(names: Names, db: Db)

  /** What a poll meets: its look-ups, the head block unless asking for it raises, and the blocks. */
  datatype Poll = Poll(lookups: nat -> Lookup, head: Option<nat>, node: Node)

  /** The visit to the chain that a poll with these names before it makes, if it gets there. */
  function VisitOf(c: Config, names: Names, p: Poll): Option<Visit> {
    var (now, found) := NamesAfter(c, names, p.lookups);
    if found && p.head.Some? then Some(Visit(p.head.value, NamedNode(now, p.node))) else None
  }

  function PollOnce(c: Config, s: State, p: Poll): (r: State)
    requires HasTotals(c, s.db) && -1 <= s.db.lastIndexed
    ensures HasTotals(c, r.db) && -1 <= r.db.lastIndexed
  {
    var v := VisitOf(c, s.names, p);
    State(NamesAfter(c, s.names, p.lookups).0, if v.Some? then VisitOnce(c, s.db, v.value) else s.db)
  }

  class Indexer {
    const config: Config
    var toName: Names
    var lastIndexed: int
    var totalProduced: map<string, int>
    var lastProduced: map<string, int>
    var totalMissed: map<string, int>
    var streak: map<string, int>

    function Contents(): Db
      reads this
    {
      Db(lastIndexed, totalProduced, lastProduced)
    }

    ghost predicate Valid()
      reads this
    {
      HasTotals(config, Contents()) && -1 <= lastIndexed
    }

    /** Opens a stored index; witnesses not seen before start at -1, -1 and 0. */
    constructor (config: Config, stored: Db, missed: map<string, int>, streaks: map<string, int>)
      requires -1 <= stored.lastIndexed
      ensures Valid() && this.config == config && toName == map[]
      ensures lastIndexed == stored.lastIndexed && lastProduced == stored.lastProduced
      ensures totalProduced == WithDefaults(stored.totalProduced, config.witnesses, -1)
      ensures totalMissed == WithDefaults(missed, config.witnesses, -1)
      ensures streak == WithDefaults(streaks, config.witnesses, 0)
    {
      this.config := config;
      toName := map[];
      lastIndexed := stored.lastIndexed;
      totalProduced := stored.totalProduced;
      lastProduced := stored.lastProduced;
      totalMissed := missed;
      streak := streaks;
      new;
      for i := 0 to |config.witnesses|
        invariant this.config == config && toName == map[]
        invariant Contents().(totalProduced := stored.totalProduced) == stored
        invariant totalProduced == WithDefaults(stored.totalProduced, config.witnesses[..i], -1)
        invariant totalMissed == WithDefaults(missed, config.witnesses[..i], -1)
        invariant streak == WithDefaults(streaks, config.witnesses[..i], 0)
      {
        var w := config.witnesses[i];
        NextDefault(stored.totalProduced, config.witnesses, i, -1);
        NextDefault(missed, config.witnesses, i, -1);
        NextDefault(streaks, config.witnesses, i, 0);
        if w !in totalProduced { totalProduced := totalProduced[w := -1]; }
        if w !in totalMissed { totalMissed := totalMissed[w := -1]; }
        if w !in streak { streak := streak[w := 0]; }
      }
      assert config.witnesses[..|config.witnesses|] == config.witnesses;
      DefaultsAreGiven(stored.totalProduced, config.witnesses, -1);
    }

    /** The names of the witnesses, asked for one by one; false when a call raised. */
    method LookUpNames(lookups: nat -> Lookup) returns (ok: bool)
      modifies this`toName
      ensures (toName, ok) == NamesAfter(config, old(toName), lookups)
    {
      if toName != map[] { return true; }
      ghost var result := LookUp(config.witnesses, lookups, 0, toName);
      for i := 0 to |config.witnesses|
        invariant result == LookUp(config.witnesses, lookups, i, toName)
      {
        match lookups(i)
        case Caught =>
        case Uncaught => return false;
        case Found(id) => toName := toName[id := config.witnesses[i]];
      }
      return true;
    }

    /** Asks for a block, and up to three more times while it is missing. */
    static method GetBlock(node: Node, n: nat) returns (answer: Answer)
      ensures answer == Fetch(node, n, 0)
    {
      answer := node(n, 0);
      for i := 0 to 3
        invariant Fetch(node, n, 0) == if answer.Missing? then Fetch(node, n, i) else answer
        invariant answer.Missing? ==> answer == node(n, i)
      {
        if answer.Missing? { answer := node(n, i + 1); }
      }
    }

    /** Counts a block, if there is one by a monitored witness, and moves on to its number. Parsing the
        time stamp raises after the block was counted, and then the number stays. */
    method Index(n: int, block: Option<Block>) returns (ok: bool)
      requires Valid() && lastIndexed < n
      modifies this`lastIndexed, this`totalProduced, this`lastProduced
      ensures Valid()
      ensures (Contents(), ok) == Indexed(config, old(Contents()), n, NamedBlock(toName, block))
    {
      if block.Some? {
        var w := WitnessName(toName, block.value);
        if w in config.witnesses {
          totalProduced := totalProduced[w := totalProduced[w] + 1];
          if block.value.timestamp.None? { return false; }
          lastProduced := lastProduced[w := block.value.timestamp.value];
        }
      }
      lastIndexed := n;
      ok := true;
    }

    /** The loop over the blocks up to the head; false when it raised. */
    method Advance(head: nat, node: Node) returns (ok: bool)
      requires Valid()
      modifies this`lastIndexed, this`totalProduced, this`lastProduced
      ensures Valid()
      ensures var named := NamedNode(toName, node);
              (Contents(), ok) == IndexScan.Advance(config, Begin(config, old(Contents()), head), head, named)
    {
      if !config.indexFullBlockchain && lastIndexed == 0 { lastIndexed := head - 1; }
      ghost var c, names, db := config, toName, Contents();
      ghost var result := IndexScan.Advance(c, db, head, NamedNode(names, node));
      while head - lastIndexed > 0
        invariant Valid() && db == Contents() && LeadsTo(c, db, head, names, node, result)
        decreases head - lastIndexed
      {
        var current := lastIndexed + 1;
        var answer := GetBlock(node, current);
        LeadsOn(c, db, head, names, node, result);
        if answer.Raises? { return false; }
        ok := Index(current, Shown(answer));
        db := Contents();
        if !ok { return; }
      }
      return true;
    }

    /** One poll; false when it raised. */
    method Monitor(p: Poll) returns (ok: bool)
      requires Valid()
      modifies this`toName, this`lastIndexed, this`totalProduced, this`lastProduced
      ensures Valid() && State(toName, Contents()) == PollOnce(config, old(State(toName, Contents())), p)
      ensures ok ==> VisitOf(config, old(toName), p).Some?
    {
      ok := LookUpNames(p.lookups);
      if !ok { return; }
      if p.head.None? { return false; }
      ok := Advance(p.head.value, p.node);
    }
  }

  /** The stored numbers, and a default for each witness without one. */
  function WithDefaults(m: map<string, int>, witnesses: seq<string>, default: int): map<string, int> {
    if witnesses == [] then m
    else
      var before, w := WithDefaults(m, witnesses[..|witnesses| - 1], default), witnesses[|witnesses| - 1];
      if w in before then before else before[w := default]
  }

  lemma NextDefault(m: map<string, int>, witnesses: seq<string>, i: nat, default: int)
    requires i < |witnesses|
    ensures var before, w := WithDefaults(m, witnesses[..i], default), witnesses[i];
            WithDefaults(m, witnesses[..i + 1], default) == if w in before then before else before[w := default]
  {
    assert witnesses[..i + 1][..i] == witnesses[..i];
  }

  lemma {:induction false} DefaultsAreGiven(m: map<string, int>, witnesses: seq<string>, default: int)
    ensures var r := WithDefaults(m, witnesses, default);
            && r.Keys == m.Keys + (set w <- witnesses)
            && forall w <- r :: r[w] == if w in m then m[w] else default
  {
    if witnesses != [] {
      DefaultsAreGiven(m, witnesses[..|witnesses| - 1], default);
      assert witnesses == witnesses[..|witnesses| - 1] + [witnesses[|witnesses| - 1]];
    }
  }

  /** Asking a node that names the witnesses is asking the node. */
  lemma {:induction false} FetchNamed(names: Names, node: Node, n: nat, attempt: nat)
    requires attempt <= 3
    ensures Fetch(NamedNode(names, node), n, attempt) == Renamed(names, Fetch(node, n, attempt))
    ensures Shown(Fetch(NamedNode(names, node), n, attempt)) == NamedBlock(names, Shown(Fetch(node, n, attempt)))
    decreases 3 - attempt
  {
    if node(n, attempt).Missing? && attempt < 3 { FetchNamed(names, node, n, attempt + 1); }
  }

  lemma NextNamed(c: Config, db: Db, head: nat, names: Names, node: Node)
    requires HasTotals(c, db) && -1 <= db.lastIndexed < head
    ensures var answer := Fetch(node, db.lastIndexed + 1, 0);
            var (next, ok) := Indexed(c, db, db.lastIndexed + 1, NamedBlock(names, Shown(answer)));
            Advance(c, db, head, NamedNode(names, node)) ==
            if answer.Raises? then (db, false)
            else if ok then Advance(c, next, head, NamedNode(names, node)) else (next, false)
  {
    FetchNamed(names, node, db.lastIndexed + 1, 0);
    AdvanceNext(c, db, head, NamedNode(names, node));
  }

  /** The rest of the loop, from this database, ends with that result. */
  ghost predicate LeadsTo(c: Config, db: Db, head: nat, names: Names, node: Node, result: (Db, bool))
    requires HasTotals(c, db) && -1 <= db.lastIndexed
  {
    result == Advance(c, db, head, NamedNode(names, node))
  }

  lemma LeadsOn(c: Config, db: Db, head: nat, names: Names, node: Node, result: (Db, bool))
    requires HasTotals(c, db) && -1 <= db.lastIndexed < head && LeadsTo(c, db, head, names, node, result)
    ensures var answer := Fetch(node, db.lastIndexed + 1, 0);
            if answer.Raises? then result == (db, false)
            else
              var (next, ok) := Indexed(c, db, db.lastIndexed + 1, NamedBlock(names, Shown(answer)));
              if ok then LeadsTo(c, next, head, names, node, result) else result == (next, false)
  {
    NextNamed(c, db, head, names, node);
  }

  // ---------------------------------------------------------------- runs of polls

  function Run(c: Config, db: Db, polls: seq<Poll>): (r: State)
    requires HasTotals(c, db) && -1 <= db.lastIndexed
    ensures HasTotals(c, r.db) && -1 <= r.db.lastIndexed
  {
    if polls == [] then State(map[], db)
    else PollOnce(c, Run(c, db, polls[..|polls| - 1]), polls[|polls| - 1])
  }

  /** The visit that the last of the polls makes. */
  function LastVisit(c: Config, db: Db, polls: seq<Poll>): Option<Visit>
    requires HasTotals(c, db) && -1 <= db.lastIndexed && polls != []
  {
    VisitOf(c, Run(c, db, polls[..|polls| - 1]).names, polls[|polls| - 1])
  }

  /** The blocks that it indexes are those behind this one, up to the last indexed block. */
  function LastStart(c: Config, db: Db, polls: seq<Poll>): int
    requires HasTotals(c, db) && -1 <= db.lastIndexed && polls != [] && LastVisit(c, db, polls).Some?
  {
    Begin(c, Run(c, db, polls[..|polls| - 1]).db, LastVisit(c, db, polls).value.head).lastIndexed
  }

  /** The block before the first that is indexed: a visit moves it when nothing has been indexed yet. */
  function StartOf(c: Config, db: Db, polls: seq<Poll>): int
    requires HasTotals(c, db) && -1 <= db.lastIndexed
  {
    if polls == [] then db.lastIndexed
    else if LastVisit(c, db, polls).Some? && StartsNow(c, Run(c, db, polls[..|polls| - 1]).db)
    then LastStart(c, db, polls)
    else StartOf(c, db, polls[..|polls| - 1])
  }

  predicate StartsNow(c: Config, db: Db) {
    !c.indexFullBlockchain && db.lastIndexed == 0
  }

  /** It is where the stored index was, if that had started or the whole chain is wanted; otherwise it
      may be the block before the head of some poll. */
  lemma {:induction false} StartOfIndex(c: Config, db: Db, polls: seq<Poll>)
    requires HasTotals(c, db) && 0 <= db.lastIndexed
    ensures db.lastIndexed <= Run(c, db, polls).db.lastIndexed || StartsNow(c, db)
    ensures c.indexFullBlockchain || 0 < db.lastIndexed ==> StartOf(c, db, polls) == db.lastIndexed
    ensures StartOf(c, db, polls) == db.lastIndexed
            || exists p <- polls :: p.head.Some? && StartOf(c, db, polls) == p.head.value - 1
  {
    if polls != [] {
      var p := polls[|polls| - 1];
      assert p in polls;
      StartOfIndex(c, db, polls[..|polls| - 1]);
    }
  }

  /** The last block a poll leaves is never before the one it found, but for one corner: an index not
      yet started visited at head 0 that stops there. */
  lemma PollNeverGoesBack(c: Config, s: State, p: Poll)
    requires HasTotals(c, s.db) && -1 <= s.db.lastIndexed
    ensures PollOnce(c, s, p).db.lastIndexed < s.db.lastIndexed <==>
            var v := VisitOf(c, s.names, p);
            && !c.indexFullBlockchain && s.db.lastIndexed == 0
            && v.Some? && v.value.head == 0 && Stops(c, Fetch(v.value.node, 0, 0))
  {
    var v := VisitOf(c, s.names, p);
    if v.Some? { AdvanceGrows(c, Begin(c, s.db, v.value.head), v.value.head, v.value.node); }
  }

  /** The witnesses whose blocks the polls counted without getting past them. */
  function Recounts(c: Config, db: Db, polls: seq<Poll>): seq<string>
    requires HasTotals(c, db) && -1 <= db.lastIndexed
  {
    if polls == [] then []
    else
      var init, v := polls[..|polls| - 1], LastVisit(c, db, polls);
      Recounts(c, db, init) + if v.Some? then Recount(c, Run(c, db, init).db, v.value) else []
  }

  /** The names that were known when a block was indexed. */
  function InForce(c: Config, db: Db, polls: seq<Poll>): nat -> Names
    requires HasTotals(c, db) && -1 <= db.lastIndexed
  {
    if polls == [] then (_: nat) => map[]
    else
      var before := InForce(c, db, polls[..|polls| - 1]);
      if LastVisit(c, db, polls).None? then before
      else
        var from, now := LastStart(c, db, polls), Run(c, db, polls);
        (n: nat) => if from < n <= now.db.lastIndexed then now.names else before(n)
  }

  /** All blocks that the polls indexed were answered as they are in the chain. Nothing is asked of the
      blocks that a poll did not get to: they may be missing at one poll, and there at a later one. */
  ghost predicate Told(c: Config, db: Db, polls: seq<Poll>, chain: Chain)
    requires HasTotals(c, db) && -1 <= db.lastIndexed
  {
    polls != [] ==>
      && Told(c, db, polls[..|polls| - 1], chain)
      && (LastVisit(c, db, polls).Some? ==>
            Agrees(polls[|polls| - 1].node, chain, LastStart(c, db, polls), Run(c, db, polls).db.lastIndexed))
  }

  /** The chain with every block named as it was when it was indexed. */
  function NamedChain(naming: nat -> Names, chain: Chain): Chain {
    (n: nat) => NamedBlock(naming(n), chain(n))
  }

  lemma AgreesNamed(names: Names, node: Node, naming: nat -> Names, chain: Chain, from: int, upto: int)
    requires Agrees(node, chain, from, upto)
    requires forall n: nat | from < n <= upto :: naming(n) == names
    ensures Agrees(NamedNode(names, node), NamedChain(naming, chain), from, upto)
  {
    forall n: nat | from < n <= upto
      ensures NamedChain(naming, chain)(n) == Shown(Fetch(NamedNode(names, node), n, 0))
    {
      FetchNamed(names, node, n, 0);
    }
  }

  /** The last poll does not change how the blocks before it are named. */
  lemma NamedBefore(c: Config, db: Db, polls: seq<Poll>, chain: Chain, n: nat)
    requires HasTotals(c, db) && -1 <= db.lastIndexed && polls != [] && chain(0).None?
    requires n <= Run(c, db, polls[..|polls| - 1]).db.lastIndexed || n == 0
    ensures NamedChain(InForce(c, db, polls), chain)(n)
            == NamedChain(InForce(c, db, polls[..|polls| - 1]), chain)(n)
  { }

  /** The index does not depend on how it was polled: whatever the heads, backwards too, and whatever
      calls raised, the database is that of one scan of the chain from the start to the last indexed
      block, every block named by what was known when it was indexed; but the totals also have the blocks
      that polls counted without getting past them. Block numbers of the chain begin at 1. */
  lemma {:induction false} RunIsScan(c: Config, db: Db, polls: seq<Poll>, chain: Chain)
    requires HasTotals(c, db) && 0 <= db.lastIndexed
    requires chain(0).None? && Told(c, db, polls, chain)
    ensures IsScanFrom(c, db, StartOf(c, db, polls), Recounts(c, db, polls),
              NamedChain(InForce(c, db, polls), chain), Run(c, db, polls).db)
  {
    if polls == [] {
      assert db.(lastIndexed := db.lastIndexed) == db;
    } else {
      RunIsScan(c, db, polls[..|polls| - 1], chain);
      LastPollIsScan(c, db, polls, chain);
    }
  }

  /** What was the scan before the last poll is also under the names that are in force after it. */
  lemma ScanBefore(c: Config, db: Db, polls: seq<Poll>, chain: Chain)
    requires HasTotals(c, db) && 0 <= db.lastIndexed && polls != [] && chain(0).None?
    requires var init := polls[..|polls| - 1];
             IsScanFrom(c, db, StartOf(c, db, init), Recounts(c, db, init), NamedChain(InForce(c, db, init), chain),
               Run(c, db, init).db)
    ensures var init := polls[..|polls| - 1];
            IsScanFrom(c, db, StartOf(c, db, init), Recounts(c, db, init), NamedChain(InForce(c, db, polls), chain),
              Run(c, db, init).db)
  {
    var init := polls[..|polls| - 1];
    var before, named := NamedChain(InForce(c, db, init), chain), NamedChain(InForce(c, db, polls), chain);
    forall n: nat | n <= Run(c, db, init).db.lastIndexed ensures before(n) == named(n) {
      NamedBefore(c, db, polls, chain, n);
    }
    IsScanOfSame(c, db, StartOf(c, db, init), Recounts(c, db, init), before, named, Run(c, db, init).db);
  }

  lemma LastPollIsScan(c: Config, db: Db, polls: seq<Poll>, chain: Chain)
    requires HasTotals(c, db) && 0 <= db.lastIndexed && polls != []
    requires chain(0).None? && Told(c, db, polls, chain)
    requires var init := polls[..|polls| - 1];
             IsScanFrom(c, db, StartOf(c, db, init), Recounts(c, db, init), NamedChain(InForce(c, db, init), chain),
               Run(c, db, init).db)
    ensures IsScanFrom(c, db, StartOf(c, db, polls), Recounts(c, db, polls),
              NamedChain(InForce(c, db, polls), chain), Run(c, db, polls).db)
  {
    var init, p, v := polls[..|polls| - 1], polls[|polls| - 1], LastVisit(c, db, polls);
    if v.None? {
      assert Recounts(c, db, polls) == Recounts(c, db, init);
    } else {
      var before, now, named := Run(c, db, init), Run(c, db, polls), NamedChain(InForce(c, db, polls), chain);
      ScanBefore(c, db, polls, chain);
      AgreesNamed(now.names, p.node, InForce(c, db, polls), chain, LastStart(c, db, polls), now.db.lastIndexed);
      var next := VisitIsScan(c, db, StartOf(c, db, init), Recounts(c, db, init), before.db, v.value, named);
      assert next == StartOf(c, db, polls);
    }
  }

  /** The chain that every run tells, as it was indexed. */
  function Seen(c: Config, db: Db, polls: seq<Poll>): Chain
    requires HasTotals(c, db) && -1 <= db.lastIndexed
  {
    if polls == [] then (_: nat) => None
    else
      var before := Seen(c, db, polls[..|polls| - 1]);
      if LastVisit(c, db, polls).None? then before
      else
        var from, upto, node := LastStart(c, db, polls), Run(c, db, polls).db.lastIndexed, polls[|polls| - 1].node;
        (n: nat) => if from < n <= upto then Shown(Fetch(node, n, 0)) else before(n)
  }

  /** Chains that agree on what was indexed are told by the same polls. */
  lemma {:induction false} ToldOfSame(c: Config, db: Db, polls: seq<Poll>, a: Chain, b: Chain)
    requires HasTotals(c, db) && -1 <= db.lastIndexed && Told(c, db, polls, a)
    requires forall n: nat | n <= Run(c, db, polls).db.lastIndexed || n == 0 :: a(n) == b(n)
    ensures Told(c, db, polls, b)
  {
    if polls != [] { ToldOfSame(c, db, polls[..|polls| - 1], a, b); }
  }

  /** The results here are about every run: whatever the nodes answered, there is a chain that they told,
      as long as none of them has a block 0. */
  lemma {:induction false} SeenIsTold(c: Config, db: Db, polls: seq<Poll>)
    requires HasTotals(c, db) && -1 <= db.lastIndexed
    requires forall p <- polls :: !Fetch(p.node, 0, 0).Got?
    ensures Seen(c, db, polls)(0).None? && Told(c, db, polls, Seen(c, db, polls))
  {
    if polls != [] {
      var init, p := polls[..|polls| - 1], polls[|polls| - 1];
      assert p in polls;
      SeenIsTold(c, db, init);
      ToldOfSame(c, db, init, Seen(c, db, init), Seen(c, db, polls));
    }
  }

  // ---------------------------------------------------------------- what is counted

  /** After any run of polls every total is its stored value plus the number of the witness's blocks
      between the start and the last indexed block, as they were named then, each counted once, plus the
      number of times that a poll counted one without getting past it. The date is that of the latest. */
  lemma RunCounts(c: Config, db: Db, polls: seq<Poll>, chain: Chain, w: string)
    requires HasTotals(c, db) && 0 <= db.lastIndexed && w in c.witnesses
    requires chain(0).None? && Told(c, db, polls, chain)
    ensures var r, named := Run(c, db, polls).db, NamedChain(InForce(c, db, polls), chain);
            var blocks := Produced(c, named, StartOf(c, db, polls), r.lastIndexed, w);
            && -1 <= StartOf(c, db, polls) <= r.lastIndexed
            && r.totalProduced[w] == db.totalProduced[w] + |blocks| + multiset(Recounts(c, db, polls))[w]
            && LatestDate(r.lastProduced, db.lastProduced, blocks, named, w)
  {
    RunIsScan(c, db, polls, chain);
    IsScanCounts(c, db, StartOf(c, db, polls), Recounts(c, db, polls), NamedChain(InForce(c, db, polls), chain),
      Run(c, db, polls).db, w);
  }

  /** The monitored witness that a block counts for. */
  function CreditOf(c: Config, names: Names, block: Option<Block>): Option<string> {
    if block.Some? && WitnessName(names, block.value) in c.witnesses then Some(WitnessName(names, block.value))
    else None
  }

  /** The scan of the blocks the polls indexed, but with these names throughout. */
  function ScanNamed(c: Config, db: Db, polls: seq<Poll>, names: Names, chain: Chain): Db
    requires HasTotals(c, db) && -1 <= db.lastIndexed && -1 <= StartOf(c, db, polls)
  {
    Scan(c, db.(lastIndexed := StartOf(c, db, polls)), NamedChain(Always(names), chain),
      Run(c, db, polls).db.lastIndexed)
  }

  function Always(names: Names): nat -> Names {
    (_: nat) => names
  }

  /** The blocks that count for w under these names, but did not under those. */
  ghost function Uncredited(
    c: Config, those: nat -> Names, names: nat -> Names, chain: Chain, start: int, upto: int, w: string): set<nat>
  {
    set n: nat | start < n <= upto && CreditOf(c, names(n), chain(n)) == Some(w)
                 && CreditOf(c, those(n), chain(n)) != Some(w)
  }

  /** The blocks of w that were indexed under names that did not show them to be. */
  ghost function MissedBy(c: Config, db: Db, polls: seq<Poll>, names: Names, chain: Chain, w: string): set<nat>
    requires HasTotals(c, db) && -1 <= db.lastIndexed
  {
    Uncredited(c, InForce(c, db, polls), Always(names), chain, StartOf(c, db, polls),
      Run(c, db, polls).db.lastIndexed, w)
  }

  ghost predicate NoneMissed(c: Config, db: Db, polls: seq<Poll>, names: Names, chain: Chain)
    requires HasTotals(c, db) && -1 <= db.lastIndexed
  {
    forall w <- c.witnesses :: MissedBy(c, db, polls, names, chain, w) == {}
  }

  /** Names to compare with: all that were found, and maybe more. The ids of witnesses are no names. */
  ghost predicate Extends(c: Config, names: Names, found: Names) {
    && (forall id <- found :: id in names && names[id] == found[id])
    && (forall id <- names :: id !in c.witnesses)
  }

  /** No names were in force until some were found, and then those found. */
  lemma {:induction false} NamesInForce(c: Config, db: Db, polls: seq<Poll>, n: nat)
    requires HasTotals(c, db) && -1 <= db.lastIndexed
    ensures InForce(c, db, polls)(n) in {map[], Run(c, db, polls).names}
  {
    if polls != [] { NamesInForce(c, db, polls[..|polls| - 1], n); }
  }

  /** Compared with the names that were found in the end, only blocks indexed before that are missed. */
  lemma MissedWhileUnknown(c: Config, db: Db, polls: seq<Poll>, chain: Chain, w: string, n: nat)
    requires HasTotals(c, db) && -1 <= db.lastIndexed
    requires n in MissedBy(c, db, polls, Run(c, db, polls).names, chain, w)
    ensures InForce(c, db, polls)(n) == map[]
  {
    NamesInForce(c, db, polls, n);
  }

  lemma CreditInForce(c: Config, db: Db, polls: seq<Poll>, names: Names, chain: Chain, n: nat)
    requires HasTotals(c, db) && -1 <= db.lastIndexed && Extends(c, names, Run(c, db, polls).names)
    ensures var credit := CreditOf(c, InForce(c, db, polls)(n), chain(n));
            credit.Some? ==> CreditOf(c, names, chain(n)) == credit
  {
    NamesInForce(c, db, polls, n);
  }

  lemma ProducedSplits(
    c: Config, those: nat -> Names, names: nat -> Names, chain: Chain, start: int, upto: int, w: string)
    requires w in c.witnesses
    requires forall n: nat :: CreditOf(c, those(n), chain(n)).Some? ==>
               CreditOf(c, names(n), chain(n)) == CreditOf(c, those(n), chain(n))
    ensures |Produced(c, NamedChain(names, chain), start, upto, w)| ==
            |Produced(c, NamedChain(those, chain), start, upto, w)|
            + |Uncredited(c, those, names, chain, start, upto, w)|
  {
    var all := Produced(c, NamedChain(names, chain), start, upto, w);
    var credited := Produced(c, NamedChain(those, chain), start, upto, w);
    var missed := Uncredited(c, those, names, chain, start, upto, w);
    ProducedIsCredit(c, names, chain, start, upto, w);
    ProducedIsCredit(c, those, chain, start, upto, w);
    assert all == credited + missed && credited !! missed;
  }

  lemma ProducedIsCredit(c: Config, names: nat -> Names, chain: Chain, start: int, upto: int, w: string)
    requires w in c.witnesses
    ensures Produced(c, NamedChain(names, chain), start, upto, w) ==
            set n: nat | start < n <= upto && CreditOf(c, names(n), chain(n)) == Some(w)
  { }

  /** The blocks of w in the chain: those that were indexed as such, and those missed. */
  lemma ProducedOrMissed(c: Config, db: Db, polls: seq<Poll>, names: Names, chain: Chain, w: string)
    requires HasTotals(c, db) && -1 <= db.lastIndexed && w in c.witnesses
    requires Extends(c, names, Run(c, db, polls).names)
    ensures var start, last := StartOf(c, db, polls), Run(c, db, polls).db.lastIndexed;
            |Produced(c, NamedChain(Always(names), chain), start, last, w)|
            == |Produced(c, NamedChain(InForce(c, db, polls), chain), start, last, w)|
               + |MissedBy(c, db, polls, names, chain, w)|
  {
    forall n: nat { CreditInForce(c, db, polls, names, chain, n); }
    ProducedSplits(c, InForce(c, db, polls), Always(names), chain, StartOf(c, db, polls),
      Run(c, db, polls).db.lastIndexed, w);
  }

  /** A total is what the scan with all names finds, less the blocks missed, plus those counted again. */
  lemma RunCountsNamed(c: Config, db: Db, polls: seq<Poll>, names: Names, chain: Chain, w: string)
    requires HasTotals(c, db) && 0 <= db.lastIndexed && w in c.witnesses
    requires chain(0).None? && Told(c, db, polls, chain) && Extends(c, names, Run(c, db, polls).names)
    ensures -1 <= StartOf(c, db, polls)
    ensures Run(c, db, polls).db.totalProduced[w] ==
            ScanNamed(c, db, polls, names, chain).totalProduced[w]
            - |MissedBy(c, db, polls, names, chain, w)| + multiset(Recounts(c, db, polls))[w]
  {
    RunCounts(c, db, polls, chain, w);
    ProducedOrMissed(c, db, polls, names, chain, w);
    ScanCounts(c, db.(lastIndexed := StartOf(c, db, polls)), NamedChain(Always(names), chain),
      Run(c, db, polls).db.lastIndexed, w);
  }

  /** Blocks that count for the same witness are recorded alike. */
  lemma {:induction false} ScanOfCredit(c: Config, db: Db, a: nat -> Names, b: nat -> Names, chain: Chain, upto: int)
    requires HasTotals(c, db) && -1 <= db.lastIndexed
    requires forall n: nat | db.lastIndexed < n <= upto :: CreditOf(c, a(n), chain(n)) == CreditOf(c, b(n), chain(n))
    ensures Scan(c, db, NamedChain(a, chain), upto) == Scan(c, db, NamedChain(b, chain), upto)
    decreases upto - db.lastIndexed
  {
    if db.lastIndexed < upto { ScanOfCredit(c, db, a, b, chain, upto - 1); }
  }

  lemma ScanWithNoneMissed(c: Config, db: Db, polls: seq<Poll>, names: Names, chain: Chain)
    requires HasTotals(c, db) && 0 <= db.lastIndexed && -1 <= StartOf(c, db, polls)
    requires Extends(c, names, Run(c, db, polls).names) && NoneMissed(c, db, polls, names, chain)
    ensures ScanNamed(c, db, polls, names, chain) ==
            Scan(c, db.(lastIndexed := StartOf(c, db, polls)), NamedChain(InForce(c, db, polls), chain),
              Run(c, db, polls).db.lastIndexed)
  {
    var start, last := StartOf(c, db, polls), Run(c, db, polls).db.lastIndexed;
    forall n: nat | start < n <= last
      ensures CreditOf(c, Always(names)(n), chain(n)) == CreditOf(c, InForce(c, db, polls)(n), chain(n))
    {
      CreditInForce(c, db, polls, names, chain, n);
      var credit := CreditOf(c, names, chain(n));
      if credit.Some? { assert n !in MissedBy(c, db, polls, names, chain, credit.value); }
    }
    ScanOfCredit(c, db.(lastIndexed := start), Always(names), InForce(c, db, polls), chain, last);
  }

  /** The totals are those of the scan with all names exactly if each witness was counted again as often
      as missed. */
  lemma TotalsAreNamed(c: Config, db: Db, polls: seq<Poll>, names: Names, chain: Chain)
    requires HasTotals(c, db) && 0 <= db.lastIndexed
    requires chain(0).None? && Told(c, db, polls, chain) && Extends(c, names, Run(c, db, polls).names)
    ensures -1 <= StartOf(c, db, polls)
    ensures var r, scanned := Run(c, db, polls).db, ScanNamed(c, db, polls, names, chain);
            (forall w <- c.witnesses :: r.totalProduced[w] == scanned.totalProduced[w]) <==>
            forall w <- c.witnesses ::
              multiset(Recounts(c, db, polls))[w] == |MissedBy(c, db, polls, names, chain, w)|
  {
    RunIsScan(c, db, polls, chain);
    var r, scanned := Run(c, db, polls).db, ScanNamed(c, db, polls, names, chain);
    forall w | w in c.witnesses
      ensures r.totalProduced[w] == scanned.totalProduced[w] <==>
              multiset(Recounts(c, db, polls))[w] == |MissedBy(c, db, polls, names, chain, w)|
    {
      RunCountsNamed(c, db, polls, names, chain, w);
    }
  }

  lemma NoneMissedIsScan(c: Config, db: Db, polls: seq<Poll>, names: Names, chain: Chain)
    requires HasTotals(c, db) && 0 <= db.lastIndexed
    requires chain(0).None? && Told(c, db, polls, chain) && Extends(c, names, Run(c, db, polls).names)
    requires NoneMissed(c, db, polls, names, chain)
    ensures -1 <= StartOf(c, db, polls)
    ensures Run(c, db, polls).db == ScanNamed(c, db, polls, names, chain) <==> Recounts(c, db, polls) == []
  {
    RunIsScan(c, db, polls, chain);
    ScanWithNoneMissed(c, db, polls, names, chain);
    var recounts := Recounts(c, db, polls);
    if recounts != [] { CountedAllTotals(ScanNamed(c, db, polls, names, chain), recounts, recounts[0]); }
  }

  /** When the database is that of one scan with all names: if no block was missed, exactly if no poll
      stopped at a time stamp that does not parse; and if no poll did, exactly if no block was missed. */
  lemma RunIsExactlyScan(c: Config, db: Db, polls: seq<Poll>, names: Names, chain: Chain)
    requires HasTotals(c, db) && 0 <= db.lastIndexed
    requires chain(0).None? && Told(c, db, polls, chain) && Extends(c, names, Run(c, db, polls).names)
    ensures -1 <= StartOf(c, db, polls)
    ensures var exact := Run(c, db, polls).db == ScanNamed(c, db, polls, names, chain);
            && (NoneMissed(c, db, polls, names, chain) ==> (exact <==> Recounts(c, db, polls) == []))
            && (Recounts(c, db, polls) == [] ==> (exact <==> NoneMissed(c, db, polls, names, chain)))
  {
    TotalsAreNamed(c, db, polls, names, chain);
    if NoneMissed(c, db, polls, names, chain) { NoneMissedIsScan(c, db, polls, names, chain); }
  }

  /** Two ways of polling that get equally far and miss and repeat nothing leave the same database. */
  lemma PollingDoesNotMatter(c: Config, db: Db, polls: seq<Poll>, others: seq<Poll>, names: Names, chain: Chain)
    requires HasTotals(c, db) && 0 <= db.lastIndexed && (c.indexFullBlockchain || 0 < db.lastIndexed)
    requires chain(0).None? && Told(c, db, polls, chain) && Told(c, db, others, chain)
    requires Extends(c, names, Run(c, db, polls).names) && Extends(c, names, Run(c, db, others).names)
    requires NoneMissed(c, db, polls, names, chain) && NoneMissed(c, db, others, names, chain)
    requires Recounts(c, db, polls) == Recounts(c, db, others) == []
    requires Run(c, db, polls).db.lastIndexed == Run(c, db, others).db.lastIndexed
    ensures Run(c, db, polls).db == Run(c, db, others).db
  {
    StartOfIndex(c, db, polls);
    StartOfIndex(c, db, others);
    RunIsExactlyScan(c, db, polls, names, chain);
    RunIsExactlyScan(c, db, others, names, chain);
  }

  // ---------------------------------------------------------------- a block of a known witness

  /** A poll at which there is one block more. */
  lemma NextBlock(c: Config, s: State, p: Poll, block: Block, names: Names)
    requires HasTotals(c, s.db) && 0 <= s.db.lastIndexed && !StartsNow(c, s.db)
    requires NamesAfter(c, s.names, p.lookups) == (names, true) && p.head == Some((s.db.lastIndexed + 1) as nat)
    requires Fetch(p.node, s.db.lastIndexed + 1, 0) == Got(block)
    ensures PollOnce(c, s, p) == State(names, Indexed(c, s.db, s.db.lastIndexed + 1, NamedBlock(names, Some(block))).0)
  {
    var head := s.db.lastIndexed + 1;
    assert VisitOf(c, s.names, p) == Some(Visit(head, NamedNode(names, p.node)));
    NextNamed(c, s.db, head, names, p.node);
  }

  lemma {:induction false} NamesOfRun(c: Config, db: Db, first: Poll, more: seq<Poll>)
    requires HasTotals(c, db) && -1 <= db.lastIndexed && NamesAfter(c, map[], first.lookups).0 != map[]
    ensures Run(c, db, [first] + more).names == NamesAfter(c, map[], first.lookups).0
  {
    var polls := [first] + more;
    if more == [] {
      assert polls[..|polls| - 1] == [];
    } else {
      assert polls[..|polls| - 1] == [first] + more[..|more| - 1];
      NamesOfRun(c, db, first, more[..|more| - 1]);
    }
  }

  /** Once the first poll has found the ids of all witnesses, all different, every block behind the last
      that has the id of a witness and a time stamp counts for this witness and for no other. */
  lemma BlockCountsForItsWitness(c: Config, db: Db, first: Poll, more: seq<Poll>, ids: seq<string>, i: nat, p: Poll,
                                 t: int)
    requires HasTotals(c, db) && 0 <= db.lastIndexed
    requires |ids| == |c.witnesses| && Lists.Distinct(ids)
    requires forall k :: 0 <= k < |ids| ==> first.lookups(k) == Found(ids[k])
    requires var r := Run(c, db, [first] + more).db;
             && 0 <= r.lastIndexed && !StartsNow(c, r) && i < |ids|
             && p.head == Some((r.lastIndexed + 1) as nat)
             && Fetch(p.node, r.lastIndexed + 1, 0) == Got(Block(ids[i], Some(t)))
    ensures var r, w := Run(c, db, [first] + more).db, c.witnesses[i];
            && w in r.totalProduced
            && Run(c, db, [first] + more + [p]).db ==
               Db(r.lastIndexed + 1, r.totalProduced[w := r.totalProduced[w] + 1], r.lastProduced[w := t])
  {
    var polls, names, w := [first] + more, NamesAfter(c, map[], first.lookups).0, c.witnesses[i];
    assert EndsAt(c.witnesses, first.lookups, |ids|);
    assert FoundLast(first.lookups, |ids|, i, ids[i]);
    NamesAreFound(c, first.lookups, |ids|, ids[i], w);
    NamesOfRun(c, db, first, more);
    assert w in c.witnesses && WitnessName(names, Block(ids[i], Some(t))) == w;
    NextBlock(c, Run(c, db, polls), p, Block(ids[i], Some(t)), names);
    assert (polls + [p])[..|polls|] == polls;
  }

  // ---------------------------------------------------------------- where polling does matter

  /** A poll at which all look-ups do the same, and all blocks are the same. */
  function PollOf(lookup: Lookup, head: nat, block: Block): Poll {
    Poll((_: nat) => lookup, Some(head), (_: nat, _: nat) => Got(block))
  }

  /** One that finds one block more. */
  lemma OneMoreBlock(c: Config, s: State, lookup: Lookup, head: nat, block: Block, names: Names)
    requires HasTotals(c, s.db) && c.indexFullBlockchain && 0 <= s.db.lastIndexed == head - 1
    requires NamesAfter(c, s.names, (_: nat) => lookup) == (names, true)
    ensures PollOnce(c, s, PollOf(lookup, head, block)) ==
            State(names, Indexed(c, s.db, head, NamedBlock(names, Some(block))).0)
  {
    var p := PollOf(lookup, head, block);
    assert Fetch(p.node, head, 0) == Got(block);
    NextBlock(c, s, p, block, names);
  }

  /** The same with one monitored witness, for which this is its first block. */
  lemma FirstBlock(total: int, names: Names, lookup: Lookup, found: Names, n: nat, block: Block)
    requires n > 0 && NamesAfter(OnlyW(), names, (_: nat) => lookup) == (found, true)
    requires WitnessName(found, block) == "w"
    ensures var before := Db(n - 1, map["w" := total], map[]);
            PollOnce(OnlyW(), State(names, before), PollOf(lookup, n, block)) ==
            State(found, match block.timestamp
                         case None => before.(totalProduced := map["w" := total + 1])
                         case Some(t) => Db(n, map["w" := total + 1], map["w" := t]))
  {
    OneMoreBlock(OnlyW(), State(names, Db(n - 1, map["w" := total], map[])), lookup, n, block, found);
  }

  /** The whole chain, and one witness. */
  function OnlyW(): Config {
    Config(true, ["w"])
  }

  lemma OneLookup(lookup: Lookup)
    ensures NamesAfter(OnlyW(), map[], (_: nat) => lookup) ==
            match lookup
            case Caught => (map[], true)
            case Uncaught => (map[], false)
            case Found(id) => (map[id := "w"], true)
  {
    assert forall names :: LookUp(["w"], (_: nat) => lookup, 1, names) == (names, true);
  }

  /** A block whose time stamp does not parse is counted by each poll that finds it so. */
  lemma BadTimeStampCountsAgain()
    ensures var bad, good := PollOf(Caught, 1, Block("w", None)), PollOf(Caught, 1, Block("w", Some(7)));
            Run(OnlyW(), Db(0, map["w" := 0], map[]), [bad, bad, good]).db == Db(1, map["w" := 3], map["w" := 7])
  {
    var bad, good := PollOf(Caught, 1, Block("w", None)), PollOf(Caught, 1, Block("w", Some(7)));
    OneLookup(Caught);
    FirstBlock(0, map[], Caught, map[], 1, Block("w", None));
    FirstBlock(1, map[], Caught, map[], 1, Block("w", None));
    FirstBlock(2, map[], Caught, map[], 1, Block("w", Some(7)));
    RunOfTwo(OnlyW(), Db(0, map["w" := 0], map[]), bad, bad);
    assert [bad, bad, good][..2] == [bad, bad];
  }

  /** A block indexed while the name of its witness is not known is not counted, now or later. */
  lemma FailedLookupMisses()
    ensures var block := Block("1.6.5", Some(7));
            Run(OnlyW(), Db(0, map["w" := 0], map[]), [PollOf(Caught, 1, block), PollOf(Found("1.6.5"), 2, block)])
            == State(map["1.6.5" := "w"], Db(2, map["w" := 1], map["w" := 7]))
  {
    var db, block := Db(0, map["w" := 0], map[]), Block("1.6.5", Some(7));
    OneLookup(Caught);
    OneLookup(Found("1.6.5"));
    Unknown(db, block);
    FirstBlock(0, map[], Found("1.6.5"), map["1.6.5" := "w"], 2, block);
    RunOfTwo(OnlyW(), db, PollOf(Caught, 1, block), PollOf(Found("1.6.5"), 2, block));
  }

  lemma Unknown(db: Db, block: Block)
    requires db == Db(0, map["w" := 0], map[]) && block.producer != "w"
    ensures PollOnce(OnlyW(), State(map[], db), PollOf(Caught, 1, block)) == State(map[], db.(lastIndexed := 1))
  {
    OneLookup(Caught);
    OneMoreBlock(OnlyW(), State(map[], db), Caught, 1, block, map[]);
  }

  /** And once one name was found, the others are not asked for again. */
  lemma NamesStay(c: Config, s: State, p: Poll)
    requires HasTotals(c, s.db) && -1 <= s.db.lastIndexed && s.names != map[]
    ensures PollOnce(c, s, p).names == s.names
  { }

  lemma RunOfTwo(c: Config, db: Db, p: Poll, q: Poll)
    requires HasTotals(c, db) && -1 <= db.lastIndexed
    ensures Run(c, db, [p, q]) == PollOnce(c, PollOnce(c, State(map[], db), p), q)
  {
    assert [p, q][..1] == [p] && [p][..0] == [];
    assert Run(c, db, [p]) == PollOnce(c, State(map[], db), p);
  }
}
