/** The feed rules: a small language that derives new market prices from the fetched ones. */
module FeedRules {
  import opened Wrappers
  import opened Lists

  /** `leaves` is bookkeeping for the error bound and does not influence anything: the largest number
      of fetched prices that went into this one. */
  datatype Feed = Feed(price: real, asset: string, base: string, volume: Option<real>, leaves: nat)

  /** A market argument of a rule is text such as `BTC/USD`, or a pattern with `{}` inside a loop. */
  datatype Rule =
    | Compose(market1: string, market2: string)
    | Invert(market: string)
    | Loop(assets: seq<string>, body: Rule)
    | Copy(source: string, dest: string)
    | Publish(market: string)
    | Invalid(name: string)

  datatype Market = Market(asset: string, base: string)

  // ---------------------------------------------------------------- prices

  datatype Quote = Quote(price: real, leaves: nat)

  function OfMarket(asset: string, base: string): Feed -> bool {
    (f: Feed) => f.asset == asset && f.base == base
  }

  predicate AllHaveVolume(feeds: seq<Feed>) {
    forall i :: 0 <= i < |feeds| ==> feeds[i].volume.Some?
  }

  /** The weight of a feed: its volume, or 1 as soon as one of the feeds has none. */
  function Weight(f: Feed, byVolume: bool): real {
    if byVolume && f.volume.Some? then f.volume.value else 1.0
  }

  function TotalWeight(feeds: seq<Feed>, byVolume: bool): real {
    if feeds == [] then 0.0 else Weight(feeds[0], byVolume) + TotalWeight(feeds[1..], byVolume)
  }

  function WeightedSum(feeds: seq<Feed>, byVolume: bool): real {
    if feeds == [] then 0.0
    else feeds[0].price * Weight(feeds[0], byVolume) + WeightedSum(feeds[1..], byVolume)
  }

  function MaxLeaves(feeds: seq<Feed>): nat {
    if feeds == [] then 0
    else if feeds[0].leaves >= MaxLeaves(feeds[1..]) then feeds[0].leaves else MaxLeaves(feeds[1..])
  }

  /** None: no feed for the market, or a total volume of zero. */
  function WeightedMean(feeds: seq<Feed>): Option<Quote> {
    if feeds == [] then None
    else if |feeds| == 1 then Some(Quote(feeds[0].price, feeds[0].leaves))
    else
      var byVolume := AllHaveVolume(feeds);
      var total := TotalWeight(feeds, byVolume);
      if total == 0.0 then None else Some(Quote(WeightedSum(feeds, byVolume) / total, MaxLeaves(feeds)))
  }

  /** An empty name stands for the one of the first feed. */
  function Resolve(first: Feed, m: Market): Market {
    Market(if m.asset == "" then first.asset else m.asset, if m.base == "" then first.base else m.base)
  }

  /** `FeedSet.price`. */
  function Price(feeds: seq<Feed>, m: Market): Option<Quote> {
    if feeds == [] then None
    else
      var named := Resolve(feeds[0], m);
      WeightedMean(Filter(feeds, OfMarket(named.asset, named.base)))
  }

  // ---------------------------------------------------------------- rules

  /** Splitting at the slashes must give two names. */
  function SlashIndex(s: string): nat
    ensures SlashIndex(s) <= |s|
    ensures SlashIndex(s) < |s| ==> s[SlashIndex(s)] == '/'
  {
    if s == "" || s[0] == '/' then 0 else 1 + SlashIndex(s[1..])
  }

  function Mkt(s: string): Option<Market> {
    var i := SlashIndex(s);
    if i == |s| || '/' in s[i + 1..] then None else Some(Market(s[..i], s[i + 1..]))
  }

  /** Filling a pattern with an asset, as any function; None when it raises. */
  type Format = (string, string) -> Option<string>

  /** The body of a loop for one asset. A loop inside a loop has a list among its arguments, which
      cannot be formatted. */
  function Instantiate(fmt: Format, rule: Rule, asset: string): Option<Rule> {
    match rule
    case Compose(m1, m2) =>
      (match (fmt(m1, asset), fmt(m2, asset))
       case (Some(a), Some(b)) => Some(Compose(a, b))
       case _ => None)
    case Copy(m1, m2) =>
      (match (fmt(m1, asset), fmt(m2, asset))
       case (Some(a), Some(b)) => Some(Copy(a, b))
       case _ => None)
    case Invert(m) => (match fmt(m, asset) case Some(a) => Some(Invert(a)) case None => None)
    case Publish(m) => (match fmt(m, asset) case Some(a) => Some(Publish(a)) case None => None)
    case Loop(_, _) => None
    case Invalid(name) => Some(rule)
  }

  /** Multiplication under a name, so that equal factors give equal products at once. */
  function Times(x: real, y: real): real {
    x * y
  }

  datatype State = State(feeds: seq<Feed>, publish: seq<Market>)

  /** What a rule other than a loop adds; None when it raises. */
  function Derive(feeds: seq<Feed>, rule: Rule): Option<Feed> {
    match rule
    case Compose(m1, m2) =>
      (match (Mkt(m1), Mkt(m2))
       case (Some(x), Some(y)) =>
         if x.base != y.asset then None
         else (match (Price(feeds, x), Price(feeds, y))
               case (Some(p), Some(q)) =>
                 Some(Feed(Times(p.price, q.price), x.asset, y.base, None, p.leaves + q.leaves))
               case _ => None)
       case _ => None)
    case Invert(m) =>
      (match Mkt(m)
       case Some(x) =>
         (match Price(feeds, x)
          case Some(p) => if p.price == 0.0 then None else Some(Feed(1.0 / p.price, x.base, x.asset, None, p.leaves))
          case None => None)
       case None => None)
    case Copy(m1, m2) =>
      (match (Mkt(m1), Mkt(m2))
       case (Some(x), Some(y)) =>
         (match Price(feeds, x)
          case Some(p) => Some(Feed(p.price, y.asset, y.base, None, p.leaves))
          case None => None)
       case _ => None)
    case _ => None
  }

  /** One rule; false when it raised. What a loop added before it raised stays. */
  function Execute(fmt: Format, s: State, rule: Rule): (State, bool)
    decreases rule.Loop?, 1, 0
  {
    match rule
    case Loop(assets, body) => ExecuteLoop(fmt, s, assets, body)
    case Publish(m) =>
      (match Mkt(m)
       case Some(x) => (s.(publish := s.publish + [x]), true)
       case None => (s, false))
    case _ =>
      (match Derive(s.feeds, rule)
       case Some(f) => (s.(feeds := s.feeds + [f]), true)
       case None => (s, false))
  }

  function ExecuteLoop(fmt: Format, s: State, assets: seq<string>, body: Rule): (State, bool)
    decreases true, 0, |assets|
  {
    if assets == [] then (s, true)
    else match Instantiate(fmt, body, assets[0])
      case None => (s, false)
      case Some(r) =>
        var (t, ok) := Execute(fmt, s, r);
        if ok then ExecuteLoop(fmt, t, assets[1..], body) else (t, false)
  }

  /** The whole program: a rule that raises is reported and the next one goes on. */
  function Apply(fmt: Format, s: State, rules: seq<Rule>): State {
    if rules == [] then s else Execute(fmt, Apply(fmt, s, rules[..|rules| - 1]), rules[|rules| - 1]).0
  }

  // ---------------------------------------------------------------- the interpreter

  class Interpreter {
    const fmt: Format
    var result: seq<Feed>
    var publishList: seq<Market>

    constructor (fmt: Format, fetched: seq<Feed>)
      ensures this.fmt == fmt && Contents() == State(fetched, [])
    {
      this.fmt := fmt;
      result := fetched;
      publishList := [];
    }

    function Contents(): State
      reads this
    {
      State(result, publishList)
    }

    method ExecuteRule(rule: Rule) returns (ok: bool)
      modifies this
      ensures (Contents(), ok) == Execute(fmt, old(Contents()), rule)
      decreases rule.Loop?
    {
      match rule {
        case Loop(assets, body) =>
          ghost var before := Contents();
          for i := 0 to |assets|
            invariant ExecuteLoop(fmt, before, assets, body) == ExecuteLoop(fmt, Contents(), assets[i..], body)
          {
            var r := Instantiate(fmt, body, assets[i]);
            if r.None? { return false; }
            ghost var current := Contents();
            ok := ExecuteRule(r.value);
            assert assets[i..][1..] == assets[i + 1..];
            if !ok { return; }
          }
          return true;
        case Publish(m) =>
          var market := Mkt(m);
          if market.None? { return false; }
          publishList := publishList + [market.value];
          return true;
        case Invalid(_) =>
          return false;
        case _ =>
          var r := Derive(result, rule);
          if r.None? { return false; }
          result := result + [r.value];
          return true;
      }
    }

    method ApplyRules(rules: seq<Rule>)
      modifies this
      ensures Contents() == Apply(fmt, old(Contents()), rules)
    {
      ghost var before := Contents();
      for i := 0 to |rules|
        invariant Contents() == Apply(fmt, before, rules[..i])
      {
        var ok := ExecuteRule(rules[i]);
        assert rules[..i + 1][..i] == rules[..i];
      }
      assert rules[..|rules|] == rules;
    }
  }

  // ---------------------------------------------------------------- what was there stays

  /** Feeds and markets to publish are only added at the end; derived feeds have no volume. */
  ghost predicate Adds(s: State, t: State) {
    && s.feeds <= t.feeds && s.publish <= t.publish
    && forall i :: |s.feeds| <= i < |t.feeds| ==> t.feeds[i].volume.None?
  }

  /** Also by a rule that raises half way through a loop. */
  lemma {:induction false} ExecuteAppends(fmt: Format, s: State, rule: Rule)
    ensures Adds(s, Execute(fmt, s, rule).0)
    decreases rule.Loop?, 1, 0
  {
    if rule.Loop? {
      LoopAppends(fmt, s, rule.assets, rule.body);
    }
  }

  lemma {:induction false} LoopAppends(fmt: Format, s: State, assets: seq<string>, body: Rule)
    ensures Adds(s, ExecuteLoop(fmt, s, assets, body).0)
    decreases true, 0, |assets|
  {
    if assets != [] && Instantiate(fmt, body, assets[0]).Some? {
      var r := Instantiate(fmt, body, assets[0]).value;
      var (t, ok) := Execute(fmt, s, r);
      ExecuteAppends(fmt, s, r);
      LoopAppends(fmt, t, assets[1..], body);
    }
  }

  lemma {:induction false} ApplyAppends(fmt: Format, s: State, rules: seq<Rule>)
    ensures Adds(s, Apply(fmt, s, rules))
  {
    if rules != [] {
      ApplyAppends(fmt, s, rules[..|rules| - 1]);
      ExecuteAppends(fmt, Apply(fmt, s, rules[..|rules| - 1]), rules[|rules| - 1]);
    }
  }

  lemma ApplySnoc(fmt: Format, s: State, rules: seq<Rule>, last: Rule)
    ensures Apply(fmt, s, rules + [last]) == Execute(fmt, Apply(fmt, s, rules), last).0
  {
    var all := rules + [last];
    assert all[..|all| - 1] == rules && all[|all| - 1] == last;
  }

  /** A failing rule does not keep the later ones from running: they go on from what it left. */
  lemma {:induction false} ApplySplits(fmt: Format, s: State, first: seq<Rule>, later: seq<Rule>)
    ensures Apply(fmt, s, first + later) == Apply(fmt, Apply(fmt, s, first), later)
  {
    if later == [] {
      assert first + later == first;
    } else {
      var init, last := later[..|later| - 1], later[|later| - 1];
      assert later == init + [last] && first + later == (first + init) + [last];
      ApplySplits(fmt, s, first, init);
      ApplySnoc(fmt, s, first + init, last);
      ApplySnoc(fmt, Apply(fmt, s, first), init, last);
    }
  }

  /** Inside a loop it does: what the assets before the failing one added stays, the assets after it
      are not looked at. */
  lemma {:induction false} LoopAborts(
    fmt: Format, s: State, done: seq<string>, bad: string, rest: seq<string>, body: Rule)
    requires ExecuteLoop(fmt, s, done, body).1
    requires Instantiate(fmt, body, bad).Some? ==>
               !Execute(fmt, ExecuteLoop(fmt, s, done, body).0, Instantiate(fmt, body, bad).value).1
    ensures ExecuteLoop(fmt, s, done + [bad] + rest, body) == (ExecuteLoop(fmt, s, done, body).0, false)
    decreases |done|
  {
    if done == [] {
      assert [] + [bad] + rest == [bad] + rest;
      AbortsAtOnce(fmt, s, bad, rest, body);
    } else {
      var later := done[1..] + [bad] + rest;
      assert done == [done[0]] + done[1..] && done + [bad] + rest == [done[0]] + later;
      LoopStep(fmt, s, done[0], done[1..], body);
      LoopStep(fmt, s, done[0], later, body);
      var r := Instantiate(fmt, body, done[0]).value;
      LoopAborts(fmt, Execute(fmt, s, r).0, done[1..], bad, rest, body);
    }
  }

  lemma AbortsAtOnce(fmt: Format, s: State, bad: string, rest: seq<string>, body: Rule)
    requires Instantiate(fmt, body, bad).Some? ==> !Execute(fmt, s, Instantiate(fmt, body, bad).value).1
    ensures ExecuteLoop(fmt, s, [bad] + rest, body) == (s, false)
  {
    LoopStep(fmt, s, bad, rest, body);
    if Instantiate(fmt, body, bad).Some? {
      FailureAddsNothing(fmt, s, Instantiate(fmt, body, bad).value);
    }
  }

  lemma LoopStep(fmt: Format, s: State, asset: string, rest: seq<string>, body: Rule)
    ensures ExecuteLoop(fmt, s, [asset] + rest, body) ==
            match Instantiate(fmt, body, asset)
            case None => (s, false)
            case Some(r) =>
              var (t, ok) := Execute(fmt, s, r);
              if ok then ExecuteLoop(fmt, t, rest, body) else (t, false)
  {
    var all := [asset] + rest;
    assert all[0] == asset && all[1..] == rest;
  }

  lemma FailureAddsNothing(fmt: Format, s: State, rule: Rule)
    requires !rule.Loop? && !Execute(fmt, s, rule).1
    ensures Execute(fmt, s, rule).0 == s
  { }

  // ---------------------------------------------------------------- the error of derived prices

  /** (1 + eps)^k */
  function Factor(eps: real, k: nat): real {
    if k == 0 then 1.0 else (1.0 + eps) * Factor(eps, k - 1)
  }

  /** What one unit of each asset is worth. */
  type Valuation = string -> real

  ghost predicate Positive(v: Valuation) {
    forall a :: v(a) > 0.0
  }

  /** price lies within a factor (1 + eps)^k, up or down, of v(asset) / v(base). */
  ghost predicate Within(v: Valuation, eps: real, price: real, asset: string, base: string, k: nat) {
    Between(Times(price, v(base)), v(asset), Factor(eps, k))
  }

  ghost predicate Between(x: real, y: real, f: real) {
    x <= y * f && y <= x * f
  }

  ghost predicate Good(v: Valuation, eps: real, f: Feed) {
    Within(v, eps, f.price, f.asset, f.base, f.leaves) && (f.volume.Some? ==> f.volume.value >= 0.0)
  }

  ghost predicate AllGood(v: Valuation, eps: real, feeds: seq<Feed>) {
    forall i :: 0 <= i < |feeds| ==> Good(v, eps, feeds[i])
  }

  /** The price that a rule derives from the markets it looks up, were they all exact, is num / den. */
  datatype Worth = Worth(num: real, den: real, market: Market)

  ghost function DerivedWorth(v: Valuation, first: Feed, rule: Rule): Option<Worth> {
    match rule
    case Compose(m1, m2) =>
      if Mkt(m1).None? || Mkt(m2).None? then None
      else
        var x, y := Resolve(first, Mkt(m1).value), Resolve(first, Mkt(m2).value);
        Some(Worth(Times(v(x.asset), v(y.asset)), Times(v(x.base), v(y.base)),
                   Market(Mkt(m1).value.asset, Mkt(m2).value.base)))
    case Invert(m) =>
      if Mkt(m).None? then None
      else
        var x := Resolve(first, Mkt(m).value);
        Some(Worth(v(x.base), v(x.asset), Market(Mkt(m).value.base, Mkt(m).value.asset)))
    case Copy(m1, m2) =>
      if Mkt(m1).None? || Mkt(m2).None? then None
      else
        var x := Resolve(first, Mkt(m1).value);
        Some(Worth(v(x.asset), v(x.base), Mkt(m2).value))
    case _ => None
  }

  /** It is also what the market it is meant for is worth. */
  ghost predicate Respects(v: Valuation, first: Feed, rule: Rule) {
    var w := DerivedWorth(v, first, rule);
    w.Some? ==> Times(w.value.num, v(w.value.market.base)) == Times(v(w.value.market.asset), w.value.den)
  }

  lemma {:induction false} FactorAtLeastOne(eps: real, k: nat)
    requires eps >= 0.0
    ensures Factor(eps, k) >= 1.0
  {
    if k > 0 {
      FactorAtLeastOne(eps, k - 1);
      MulUp(1.0, 1.0 + eps, Factor(eps, k - 1));
    }
  }

  lemma {:induction false} FactorMonotone(eps: real, k: nat, m: nat)
    requires eps >= 0.0 && k <= m
    ensures Factor(eps, k) <= Factor(eps, m)
  {
    if k < m {
      FactorMonotone(eps, k, m - 1);
      FactorAtLeastOne(eps, m - 1);
      MulUp(1.0, 1.0 + eps, Factor(eps, m - 1));
    }
  }

  lemma {:induction false} FactorAdd(eps: real, k: nat, m: nat)
    ensures Factor(eps, k + m) == Factor(eps, k) * Factor(eps, m)
  {
    if k > 0 {
      FactorAdd(eps, k - 1, m);
      MulAssociate(1.0 + eps, Factor(eps, k - 1), Factor(eps, m));
    }
  }

  lemma MulUp(a: real, b: real, c: real)
    requires a <= b && c >= 0.0
    ensures a * c <= b * c
  { }

  lemma MulAssociate(a: real, b: real, c: real)
    ensures a * (b * c) == (a * b) * c
  { }

  lemma BetweenWider(x: real, y: real, f: real, g: real)
    requires Between(x, y, f) && 0.0 < f <= g && x > 0.0 && y > 0.0
    ensures Between(x, y, g)
  {
    MulUp(f, g, x);
    MulUp(f, g, y);
  }

  /** A price within a factor of a positive one is positive. */
  lemma BetweenPositive(x: real, y: real, f: real)
    requires Between(x, y, f) && f > 0.0 && y > 0.0
    ensures x > 0.0
  { }

  // ---------------------------------------------------------------- the mean stays within its worst feed

  lemma FilterGood(v: Valuation, eps: real, feeds: seq<Feed>, asset: string, base: string)
    requires AllGood(v, eps, feeds)
    ensures var some := Filter(feeds, OfMarket(asset, base));
            AllGood(v, eps, some) && SameMarket(some, asset, base)
  {
    FilterMembers(feeds, OfMarket(asset, base));
    var some := Filter(feeds, OfMarket(asset, base));
    forall i | 0 <= i < |some| ensures Good(v, eps, some[i]) && some[i].asset == asset && some[i].base == base {
      assert some[i] in some;
    }
  }

  lemma MaxLeavesCovers(feeds: seq<Feed>)
    requires feeds != []
    ensures feeds[0].leaves <= MaxLeaves(feeds) && MaxLeaves(feeds[1..]) <= MaxLeaves(feeds)
  { }

  lemma FeedWithin(v: Valuation, eps: real, f: Feed, k: nat)
    requires eps >= 0.0 && Positive(v) && Good(v, eps, f) && f.leaves <= k
    ensures Within(v, eps, f.price, f.asset, f.base, k)
  {
    FactorAtLeastOne(eps, f.leaves);
    FactorMonotone(eps, f.leaves, k);
    BetweenPositive(Times(f.price, v(f.base)), v(f.asset), Factor(eps, f.leaves));
    BetweenWider(Times(f.price, v(f.base)), v(f.asset), Factor(eps, f.leaves), Factor(eps, k));
  }

  ghost predicate SameMarket(feeds: seq<Feed>, asset: string, base: string) {
    forall i :: 0 <= i < |feeds| ==> feeds[i].asset == asset && feeds[i].base == base
  }

  lemma TailGood(v: Valuation, eps: real, feeds: seq<Feed>, asset: string, base: string)
    requires feeds != [] && AllGood(v, eps, feeds)
    ensures Good(v, eps, feeds[0]) && AllGood(v, eps, feeds[1..])
    ensures SameMarket(feeds, asset, base) ==> SameMarket(feeds[1..], asset, base)
  {
    assert forall i :: 0 <= i < |feeds| - 1 ==> feeds[1..][i] == feeds[i + 1];
  }

  lemma {:induction false} SumWithin(
    v: Valuation, eps: real, feeds: seq<Feed>, asset: string, base: string, byVolume: bool, k: nat)
    requires eps >= 0.0 && Positive(v) && AllGood(v, eps, feeds) && MaxLeaves(feeds) <= k
    requires SameMarket(feeds, asset, base)
    ensures var total := TotalWeight(feeds, byVolume);
            && total >= 0.0
            && Between(Times(WeightedSum(feeds, byVolume), v(base)), Times(v(asset), total), Factor(eps, k))
  {
    if feeds == [] {
      assert Times(0.0, v(base)) == 0.0 == Times(v(asset), 0.0);
    } else {
      var rest := feeds[1..];
      TailGood(v, eps, feeds, asset, base);
      MaxLeavesCovers(feeds);
      SumWithin(v, eps, rest, asset, base, byVolume, k);
      FeedWithin(v, eps, feeds[0], k);
      BetweenAdd(feeds[0].price, Weight(feeds[0], byVolume), WeightedSum(rest, byVolume), TotalWeight(rest, byVolume),
        v(asset), v(base), Factor(eps, k));
    }
  }

  lemma BetweenAdd(p: real, w: real, ws: real, tw: real, va: real, vb: real, e: real)
    requires Between(Times(p, vb), va, e) && Between(Times(ws, vb), Times(va, tw), e) && w >= 0.0
    ensures Between(Times(p * w + ws, vb), Times(va, w + tw), e)
  {
    BetweenScale(p * vb, va, e, w);
    assert (p * w + ws) * vb == p * vb * w + ws * vb;
    assert va * (w + tw) == va * w + va * tw;
    BetweenSum(p * vb * w, va * w, ws * vb, va * tw, e);
  }

  lemma BetweenSum(x: real, y: real, x': real, y': real, e: real)
    requires Between(x, y, e) && Between(x', y', e)
    ensures Between(x + x', y + y', e)
  { }

  lemma BetweenScale(x: real, y: real, e: real, w: real)
    requires Between(x, y, e) && w >= 0.0
    ensures Between(x * w, y * w, e)
  {
    MulUp(x, y * e, w);
    MulUp(y, x * e, w);
    assert y * e * w == y * w * e && x * e * w == x * w * e;
  }

  lemma BetweenDivide(ws: real, total: real, va: real, vb: real, e: real)
    requires Between(Times(ws, vb), Times(va, total), e) && total > 0.0
    ensures Between(Times(ws / total, vb), va, e)
  {
    var i := 1.0 / total;
    BetweenScale(ws * vb, va * total, e, i);
    assert total * i == 1.0;
    assert ws * vb * i == ws / total * vb;
    assert va * total * i == va;
  }

  lemma MeanWithin(v: Valuation, eps: real, feeds: seq<Feed>, asset: string, base: string)
    requires eps >= 0.0 && Positive(v) && AllGood(v, eps, feeds) && SameMarket(feeds, asset, base)
    requires WeightedMean(feeds).Some?
    ensures var q := WeightedMean(feeds).value; Within(v, eps, q.price, asset, base, q.leaves)
  {
    if |feeds| == 1 {
      assert Good(v, eps, feeds[0]);
    } else {
      var byVolume := AllHaveVolume(feeds);
      SumWithin(v, eps, feeds, asset, base, byVolume, MaxLeaves(feeds));
      BetweenDivide(WeightedSum(feeds, byVolume), TotalWeight(feeds, byVolume), v(asset), v(base),
        Factor(eps, MaxLeaves(feeds)));
    }
  }

  lemma PriceWithin(v: Valuation, eps: real, feeds: seq<Feed>, m: Market, q: Quote)
    requires eps >= 0.0 && Positive(v) && AllGood(v, eps, feeds)
    requires Price(feeds, m) == Some(q)
    ensures var x := Resolve(feeds[0], m); Within(v, eps, q.price, x.asset, x.base, q.leaves) && q.price > 0.0
  {
    var x := Resolve(feeds[0], m);
    FilterGood(v, eps, feeds, x.asset, x.base);
    MeanWithin(v, eps, Filter(feeds, OfMarket(x.asset, x.base)), x.asset, x.base);
    WithinPositive(v, eps, q.price, x.asset, x.base, q.leaves);
  }

  lemma WithinPositive(v: Valuation, eps: real, price: real, asset: string, base: string, k: nat)
    requires eps >= 0.0 && Positive(v) && Within(v, eps, price, asset, base, k)
    ensures price > 0.0
  {
    FactorAtLeastOne(eps, k);
    BetweenPositive(Times(price, v(base)), v(asset), Factor(eps, k));
    PositiveFactor(price, v(base));
  }

  lemma PositiveFactor(p: real, x: real)
    requires p * x > 0.0 && x > 0.0
    ensures p > 0.0
  { }

  // ---------------------------------------------------------------- derived feeds

  lemma Regroup(p: real, x: real, q: real, y: real)
    ensures Times(Times(p, x), Times(q, y)) == Times(Times(p, q), Times(x, y))
  { }

  lemma TimesMonotone(a: real, b: real, c: real, d: real)
    requires 0.0 <= a <= b && 0.0 <= c <= d
    ensures Times(a, c) <= Times(b, d)
  {
    MulUp(a, b, c);
    MulUp(c, d, b);
  }

  lemma BetweenTimes(x: real, y: real, e: real, x': real, y': real, f: real)
    requires Between(x, y, e) && Between(x', y', f) && x >= 0.0 && y >= 0.0 && x' >= 0.0 && y' >= 0.0
    ensures Between(Times(x, x'), Times(y, y'), Times(e, f))
  {
    TimesMonotone(x, Times(y, e), x', Times(y', f));
    TimesMonotone(y, Times(x, e), y', Times(x', f));
    Regroup(y, e, y', f);
    Regroup(x, e, x', f);
  }

  /** Prices within e and f of a / b and c / d have a product within e f of a c / (b d). */
  lemma ComposeWithin(p: real, q: real, a: real, b: real, c: real, d: real, e: real, f: real)
    requires p > 0.0 && q > 0.0 && a > 0.0 && b > 0.0 && c > 0.0 && d > 0.0
    requires Between(Times(p, b), a, e) && Between(Times(q, d), c, f)
    ensures Between(Times(Times(p, q), Times(b, d)), Times(a, c), Times(e, f))
  {
    BetweenTimes(Times(p, b), a, e, Times(q, d), c, f);
    Regroup(p, b, q, d);
  }

  lemma InvertWithin(p: real, va: real, vb: real, e: real)
    requires p > 0.0 && Between(Times(p, vb), va, e)
    ensures Between(Times(1.0 / p, va), vb, e)
  {
    var i := 1.0 / p;
    assert p * i == 1.0;
    BetweenScale(p * vb, va, e, i);
    assert p * vb * i == vb;
    assert va * i == 1.0 / p * va;
  }

  /** A price of the same worth for another market. */
  lemma CopyWithin(p: real, va: real, vb: real, vc: real, vd: real, e: real)
    requires vb > 0.0 && vd > 0.0
    requires Between(Times(p, vb), va, e) && Times(va, vd) == Times(vc, vb)
    ensures Between(Times(p, vd), vc, e)
  {
    var i := vd / vb;
    assert i * vb == vd;
    BetweenScale(p * vb, va, e, i);
    assert p * vb * i == p * vd;
    assert va * i == vc by { assert va * i * vb == va * vd; }
  }

  /** For exact prices the worth has to be the same. */
  lemma CopyExact(p: real, va: real, vb: real, vc: real, vd: real)
    requires vb > 0.0 && Times(p, vb) == va
    ensures Times(p, vd) == vc <==> Times(va, vd) == Times(vc, vb)
  {
    Regroup(p, vb, vd, 1.0);
    assert Times(va, vd) == Times(Times(p, vd), vb);
    Cancel(Times(p, vd), vc, vb);
  }

  lemma Cancel(x: real, y: real, z: real)
    requires z > 0.0
    ensures Times(x, z) == Times(y, z) <==> x == y
  {
    if x != y { assert (x - y) * z != 0.0; }
  }

  lemma QuotesCompose(v: Valuation, eps: real, p: Quote, q: Quote, x: Market, y: Market)
    requires eps >= 0.0 && Positive(v) && p.price > 0.0 && q.price > 0.0
    requires Within(v, eps, p.price, x.asset, x.base, p.leaves) && Within(v, eps, q.price, y.asset, y.base, q.leaves)
    ensures Between(Times(Times(p.price, q.price), Times(v(x.base), v(y.base))), Times(v(x.asset), v(y.asset)),
              Factor(eps, p.leaves + q.leaves))
  {
    FactorAdd(eps, p.leaves, q.leaves);
    ComposeWithin(p.price, q.price, v(x.asset), v(x.base), v(y.asset), v(y.base),
      Factor(eps, p.leaves), Factor(eps, q.leaves));
  }

  lemma DerivedCompose(v: Valuation, eps: real, feeds: seq<Feed>, m1: string, m2: string)
    requires eps >= 0.0 && Positive(v) && AllGood(v, eps, feeds) && Derive(feeds, Compose(m1, m2)).Some?
    ensures DerivedGood(v, eps, feeds, Compose(m1, m2))
  {
    var x, y := Mkt(m1).value, Mkt(m2).value;
    var p, q := Price(feeds, x).value, Price(feeds, y).value;
    PriceWithin(v, eps, feeds, x, p);
    PriceWithin(v, eps, feeds, y, q);
    QuotesCompose(v, eps, p, q, Resolve(feeds[0], x), Resolve(feeds[0], y));
  }

  lemma DerivedInvert(v: Valuation, eps: real, feeds: seq<Feed>, m: string)
    requires eps >= 0.0 && Positive(v) && AllGood(v, eps, feeds) && Derive(feeds, Invert(m)).Some?
    ensures DerivedGood(v, eps, feeds, Invert(m))
  {
    var x := Mkt(m).value;
    var p, named := Price(feeds, x).value, Resolve(feeds[0], x);
    PriceWithin(v, eps, feeds, x, p);
    InvertWithin(p.price, v(named.asset), v(named.base), Factor(eps, p.leaves));
  }

  /** The derived price is within its bound of what it was derived from. */
  ghost predicate DerivedGood(v: Valuation, eps: real, feeds: seq<Feed>, rule: Rule) {
    var f := Derive(feeds, rule);
    f.Some? ==>
      && feeds != [] && DerivedWorth(v, feeds[0], rule).Some? && f.value.volume.None?
      && var w := DerivedWorth(v, feeds[0], rule).value;
      && w.market == Market(f.value.asset, f.value.base)
      && Between(Times(f.value.price, w.den), w.num, Factor(eps, f.value.leaves))
  }

  lemma DeriveGood(v: Valuation, eps: real, feeds: seq<Feed>, rule: Rule)
    requires eps >= 0.0 && Positive(v) && AllGood(v, eps, feeds)
    ensures DerivedGood(v, eps, feeds, rule)
  {
    if Derive(feeds, rule).Some? {
      match rule
      case Compose(m1, m2) => DerivedCompose(v, eps, feeds, m1, m2);
      case Invert(m) => DerivedInvert(v, eps, feeds, m);
      case Copy(m1, m2) => PriceWithin(v, eps, feeds, Mkt(m1).value, Price(feeds, Mkt(m1).value).value);
      case _ =>
    }
  }

  lemma WorthPositive(v: Valuation, first: Feed, rule: Rule)
    requires Positive(v)
    ensures var w := DerivedWorth(v, first, rule); w.Some? ==> w.value.den > 0.0
  { }

  /** One rule: its price is within the bound if the rule respects what the assets are worth. */
  lemma RuleKeepsBound(v: Valuation, eps: real, feeds: seq<Feed>, rule: Rule)
    requires eps >= 0.0 && Positive(v) && AllGood(v, eps, feeds) && feeds != [] && Derive(feeds, rule).Some?
    requires Respects(v, feeds[0], rule)
    ensures Good(v, eps, Derive(feeds, rule).value)
  {
    DeriveGood(v, eps, feeds, rule);
    WorthPositive(v, feeds[0], rule);
    var f, w := Derive(feeds, rule).value, DerivedWorth(v, feeds[0], rule).value;
    CopyWithin(f.price, w.num, w.den, v(f.asset), v(f.base), Factor(eps, f.leaves));
  }

  /** Without an error in the fetched prices, exactly if it does. */
  lemma RuleIsExact(v: Valuation, feeds: seq<Feed>, rule: Rule)
    requires Positive(v) && AllGood(v, 0.0, feeds) && feeds != [] && Derive(feeds, rule).Some?
    ensures Good(v, 0.0, Derive(feeds, rule).value) <==> Respects(v, feeds[0], rule)
  {
    DeriveGood(v, 0.0, feeds, rule);
    WorthPositive(v, feeds[0], rule);
    var f, w := Derive(feeds, rule).value, DerivedWorth(v, feeds[0], rule).value;
    FactorOfZero(f.leaves);
    CopyExact(f.price, w.num, w.den, v(f.asset), v(f.base));
  }

  // ---------------------------------------------------------------- the error over whole programs

  /** The rules that added a price, in order, those inside loops with their asset filled in. */
  function Ran(fmt: Format, s: State, rule: Rule): seq<Rule>
    decreases rule.Loop?, 1, 0
  {
    match rule
    case Loop(assets, body) => RanLoop(fmt, s, assets, body)
    case _ => if Derive(s.feeds, rule).Some? then [rule] else []
  }

  function RanLoop(fmt: Format, s: State, assets: seq<string>, body: Rule): seq<Rule>
    decreases true, 0, |assets|
  {
    if assets == [] then []
    else match Instantiate(fmt, body, assets[0])
      case None => []
      case Some(r) =>
        var (t, ok) := Execute(fmt, s, r);
        Ran(fmt, s, r) + if ok then RanLoop(fmt, t, assets[1..], body) else []
  }

  function RanAll(fmt: Format, s: State, rules: seq<Rule>): seq<Rule> {
    if rules == [] then []
    else
      var init := rules[..|rules| - 1];
      RanAll(fmt, s, init) + Ran(fmt, Apply(fmt, s, init), rules[|rules| - 1])
  }

  ghost predicate AllRespect(v: Valuation, first: Feed, rules: seq<Rule>) {
    forall r <- rules :: Respects(v, first, r)
  }

  lemma RespectAppend(v: Valuation, first: Feed, a: seq<Rule>, b: seq<Rule>)
    ensures AllRespect(v, first, a + b) <==> AllRespect(v, first, a) && AllRespect(v, first, b)
  {
    assert forall r :: r in a + b <==> r in a || r in b;
  }

  /** What a part of a program does to the bound: kept if the rules that ran respect the worth of the
      assets, and for exact prices only then. */
  ghost predicate Bounded(v: Valuation, eps: real, first: Feed, ran: seq<Rule>, after: seq<Feed>) {
    && (AllRespect(v, first, ran) ==> AllGood(v, eps, after))
    && (eps == 0.0 && AllGood(v, eps, after) ==> AllRespect(v, first, ran))
  }

  lemma GoodOfAppend(v: Valuation, eps: real, feeds: seq<Feed>, f: Feed)
    ensures AllGood(v, eps, feeds + [f]) <==> AllGood(v, eps, feeds) && Good(v, eps, f)
  {
    var r := feeds + [f];
    assert r[|feeds|] == f;
    if AllGood(v, eps, r) {
      forall i | 0 <= i < |feeds| ensures Good(v, eps, feeds[i]) { assert r[i] == feeds[i]; }
    }
  }

  lemma GoodOfPrefix(v: Valuation, eps: real, feeds: seq<Feed>, more: seq<Feed>)
    requires feeds <= more && AllGood(v, eps, more)
    ensures AllGood(v, eps, feeds)
  {
    forall i | 0 <= i < |feeds| ensures Good(v, eps, feeds[i]) { assert feeds[i] == more[i]; }
  }

  lemma SimpleBounded(v: Valuation, eps: real, fmt: Format, s: State, rule: Rule)
    requires eps >= 0.0 && Positive(v) && AllGood(v, eps, s.feeds) && s.feeds != [] && !rule.Loop?
    ensures Bounded(v, eps, s.feeds[0], Ran(fmt, s, rule), Execute(fmt, s, rule).0.feeds)
  {
    var f := Derive(s.feeds, rule);
    if f.Some? {
      GoodOfAppend(v, eps, s.feeds, f.value);
      if Respects(v, s.feeds[0], rule) { RuleKeepsBound(v, eps, s.feeds, rule); }
      if eps == 0.0 { RuleIsExact(v, s.feeds, rule); }
    }
  }

  /** Two parts of a program after one another. */
  lemma BoundedThen(v: Valuation, eps: real, first: Feed, a: seq<Rule>, mid: seq<Feed>, b: seq<Rule>, after: seq<Feed>)
    requires Bounded(v, eps, first, a, mid) && mid <= after
    requires AllGood(v, eps, mid) ==> Bounded(v, eps, first, b, after)
    ensures Bounded(v, eps, first, a + b, after)
  {
    RespectAppend(v, first, a, b);
    if AllGood(v, eps, after) { GoodOfPrefix(v, eps, mid, after); }
  }

  lemma {:induction false} LoopBounded(v: Valuation, eps: real, fmt: Format, s: State, assets: seq<string>, body: Rule)
    requires eps >= 0.0 && Positive(v) && AllGood(v, eps, s.feeds) && s.feeds != []
    ensures Bounded(v, eps, s.feeds[0], RanLoop(fmt, s, assets, body), ExecuteLoop(fmt, s, assets, body).0.feeds)
    decreases |assets|
  {
    if assets != [] && Instantiate(fmt, body, assets[0]).Some? {
      var r := Instantiate(fmt, body, assets[0]).value;
      var (t, ok) := Execute(fmt, s, r);
      SimpleBounded(v, eps, fmt, s, r);
      ExecuteAppends(fmt, s, r);
      if ok {
        LoopAppends(fmt, t, assets[1..], body);
        if AllGood(v, eps, t.feeds) { LoopBounded(v, eps, fmt, t, assets[1..], body); }
        BoundedThen(v, eps, s.feeds[0], Ran(fmt, s, r), t.feeds, RanLoop(fmt, t, assets[1..], body),
          ExecuteLoop(fmt, t, assets[1..], body).0.feeds);
      } else {
        assert Ran(fmt, s, r) + [] == Ran(fmt, s, r);
      }
    }
  }

  lemma {:induction false} ProgramBounded(v: Valuation, eps: real, fmt: Format, s: State, rules: seq<Rule>)
    requires eps >= 0.0 && Positive(v) && AllGood(v, eps, s.feeds) && s.feeds != []
    ensures Bounded(v, eps, s.feeds[0], RanAll(fmt, s, rules), Apply(fmt, s, rules).feeds)
  {
    if rules != [] {
      var init, r := rules[..|rules| - 1], rules[|rules| - 1];
      var t := Apply(fmt, s, init);
      ProgramBounded(v, eps, fmt, s, init);
      ApplyAppends(fmt, s, init);
      ExecuteAppends(fmt, t, r);
      if AllGood(v, eps, t.feeds) {
        if r.Loop? { LoopBounded(v, eps, fmt, t, r.assets, r.body); } else { SimpleBounded(v, eps, fmt, t, r); }
      }
      BoundedThen(v, eps, s.feeds[0], RanAll(fmt, s, init), t.feeds, Ran(fmt, t, r), Execute(fmt, t, r).0.feeds);
    }
  }

  /** Bounded error. Fetched prices may each be off by a factor 1 + eps, up or down, from what the
      assets are worth. Then after any program whose rules respect that worth, every price, fetched or
      derived, is off by at most (1 + eps)^k, where k is the number of fetched prices it was built
      from. */
  lemma PricesStayWithin(v: Valuation, eps: real, fmt: Format, s: State, rules: seq<Rule>)
    requires eps >= 0.0 && Positive(v) && AllGood(v, eps, s.feeds)
    requires s.feeds != [] ==> AllRespect(v, s.feeds[0], RanAll(fmt, s, rules))
    ensures AllGood(v, eps, Apply(fmt, s, rules).feeds)
  {
    if s.feeds != [] { ProgramBounded(v, eps, fmt, s, rules); } else { NothingFromNothing(fmt, s, rules); }
  }

  /** Without errors in the fetched prices the derived ones are exact, if and only if the rules that
      added a price respect what the assets are worth. */
  lemma ExactPrices(v: Valuation, fmt: Format, s: State, rules: seq<Rule>)
    requires Positive(v) && AllGood(v, 0.0, s.feeds) && s.feeds != []
    ensures (forall f <- Apply(fmt, s, rules).feeds :: f.price == v(f.asset) / v(f.base))
            <==> AllRespect(v, s.feeds[0], RanAll(fmt, s, rules))
  {
    ProgramBounded(v, 0.0, fmt, s, rules);
    ApplyAppends(fmt, s, rules);
    var r := Apply(fmt, s, rules).feeds;
    forall i | 0 <= i < |r| ensures Good(v, 0.0, r[i]) <==> r[i].price == v(r[i].asset) / v(r[i].base) {
      if i < |s.feeds| { assert Good(v, 0.0, s.feeds[i]) && r[i] == s.feeds[i]; }
      ExactFeed(v, r[i]);
    }
  }

  lemma ExactFeed(v: Valuation, f: Feed)
    requires Positive(v) && (f.volume.Some? ==> f.volume.value >= 0.0)
    ensures Good(v, 0.0, f) <==> f.price == v(f.asset) / v(f.base)
  {
    FactorOfZero(f.leaves);
    Cancel(f.price, v(f.asset) / v(f.base), v(f.base));
    assert Times(v(f.asset) / v(f.base), v(f.base)) == v(f.asset);
  }

  lemma {:induction false} NothingFromNothing(fmt: Format, s: State, rules: seq<Rule>)
    requires s.feeds == []
    ensures Apply(fmt, s, rules).feeds == []
  {
    if rules != [] {
      var t, r := Apply(fmt, s, rules[..|rules| - 1]), rules[|rules| - 1];
      NothingFromNothing(fmt, s, rules[..|rules| - 1]);
      if r.Loop? { NothingFromLoop(fmt, t, r.assets, r.body); }
    }
  }

  lemma {:induction false} NothingFromLoop(fmt: Format, s: State, assets: seq<string>, body: Rule)
    requires s.feeds == []
    ensures ExecuteLoop(fmt, s, assets, body).0.feeds == []
    decreases |assets|
  {
    if assets != [] && Instantiate(fmt, body, assets[0]).Some? {
      var r := Instantiate(fmt, body, assets[0]).value;
      NothingFromLoop(fmt, Execute(fmt, s, r).0, assets[1..], body);
    }
  }

  lemma {:induction false} FactorOfZero(k: nat)
    ensures Factor(0.0, k) == 1.0
  {
    if k > 0 { FactorOfZero(k - 1); }
  }

  // ---------------------------------------------------------------- what can be checked beforehand

  ghost predicate Named(m: Option<Market>) {
    m.Some? ==> m.value.asset != "" && m.value.base != ""
  }

  /** The markets that a rule looks up have no empty name, and a copy goes between markets worth the
      same. */
  ghost predicate Sound(v: Valuation, rule: Rule) {
    match rule
    case Compose(m1, m2) => Named(Mkt(m1)) && Named(Mkt(m2))
    case Invert(m) => Named(Mkt(m))
    case Copy(m1, m2) =>
      && Named(Mkt(m1))
      && (Mkt(m1).Some? && Mkt(m2).Some? ==>
            var x, y := Mkt(m1).value, Mkt(m2).value;
            Times(v(x.asset), v(y.base)) == Times(v(y.asset), v(x.base)))
    case _ => true
  }

  lemma TimesAssociate(a: real, b: real, c: real)
    ensures Times(Times(a, b), c) == Times(a, Times(b, c))
  { }

  lemma SoundRespects(v: Valuation, feeds: seq<Feed>, rule: Rule)
    requires feeds != [] && Sound(v, rule) && Derive(feeds, rule).Some?
    ensures Respects(v, feeds[0], rule)
  {
    match rule
    case Compose(m1, m2) =>
      var x, y := Mkt(m1).value, Mkt(m2).value;
      TimesAssociate(v(x.asset), v(y.asset), v(y.base));
    case _ =>
  }

  ghost predicate SoundBody(v: Valuation, fmt: Format, assets: seq<string>, body: Rule) {
    forall a <- assets :: Instantiate(fmt, body, a).Some? ==> Sound(v, Instantiate(fmt, body, a).value)
  }

  ghost predicate SoundProgram(v: Valuation, fmt: Format, rules: seq<Rule>) {
    forall r <- rules :: if r.Loop? then SoundBody(v, fmt, r.assets, r.body) else Sound(v, r)
  }

  lemma {:induction false} SoundLoop(v: Valuation, fmt: Format, s: State, assets: seq<string>, body: Rule)
    requires SoundBody(v, fmt, assets, body) && s.feeds != []
    ensures AllRespect(v, s.feeds[0], RanLoop(fmt, s, assets, body))
    decreases |assets|
  {
    if assets != [] && Instantiate(fmt, body, assets[0]).Some? {
      var r := Instantiate(fmt, body, assets[0]).value;
      var (t, ok) := Execute(fmt, s, r);
      assert assets[0] in assets;
      if Derive(s.feeds, r).Some? { SoundRespects(v, s.feeds, r); }
      ExecuteAppends(fmt, s, r);
      SoundLoop(v, fmt, t, assets[1..], body);
      RespectAppend(v, s.feeds[0], Ran(fmt, s, r), if ok then RanLoop(fmt, t, assets[1..], body) else []);
    }
  }

  lemma {:induction false} SoundProgramRespects(v: Valuation, fmt: Format, s: State, rules: seq<Rule>)
    requires SoundProgram(v, fmt, rules) && s.feeds != []
    ensures AllRespect(v, s.feeds[0], RanAll(fmt, s, rules))
  {
    if rules != [] {
      var init, r := rules[..|rules| - 1], rules[|rules| - 1];
      var t := Apply(fmt, s, init);
      assert r in rules;
      SoundProgramRespects(v, fmt, s, init);
      ApplyAppends(fmt, s, init);
      if r.Loop? {
        SoundLoop(v, fmt, t, r.assets, r.body);
      } else if Derive(t.feeds, r).Some? {
        SoundRespects(v, t.feeds, r);
      }
      RespectAppend(v, s.feeds[0], RanAll(fmt, s, init), Ran(fmt, t, r));
    }
  }

  /** So the bound holds for every program that names its markets and copies only between markets worth
      the same, whatever is fetched and whichever rules fail. */
  lemma SoundProgramsStayWithin(v: Valuation, eps: real, fmt: Format, s: State, rules: seq<Rule>)
    requires eps >= 0.0 && Positive(v) && AllGood(v, eps, s.feeds) && SoundProgram(v, fmt, rules)
    ensures AllGood(v, eps, Apply(fmt, s, rules).feeds)
  {
    if s.feeds != [] { SoundProgramRespects(v, fmt, s, rules); }
    PricesStayWithin(v, eps, fmt, s, rules);
  }

  /** Why names are asked for: an empty asset is read as the one of the first feed. With a single exact
      price for A/B, inverting the market `/B` adds a price for B in terms of the empty name. */
  lemma EmptyNameBreaksBound(fmt: Format)
    ensures var v: Valuation := a => if a == "A" then 2.0 else 1.0;
            var s := State([Feed(2.0, "A", "B", None, 1)], []);
            AllGood(v, 0.0, s.feeds) && !AllGood(v, 0.0, Apply(fmt, s, [Invert("/B")]).feeds)
  {
    var v: Valuation := a => if a == "A" then 2.0 else 1.0;
    var f := Feed(2.0, "A", "B", None, 1);
    var s := State([f], []);
    FactorOfZero(1);
    assert Good(v, 0.0, f);
    assert SlashIndex("/B") == 0 && "/B"[..0] == "" && "/B"[1..] == "B";
    assert Mkt("/B") == Some(Market("", "B"));
    assert [f][1..] == [] && Filter([f], OfMarket("A", "B")) == [f];
    var rules := [Invert("/B")];
    assert rules[..0] == [];
    assert Price([f], Market("", "B")) == Some(Quote(2.0, 1));
    assert Derive([f], rules[0]) == Some(Feed(0.5, "B", "", None, 1));
    assert Apply(fmt, s, []) == s;
    var r := Apply(fmt, s, rules).feeds;
    assert r == [f] + [Feed(0.5, "B", "", None, 1)];
    assert r == [f, Feed(0.5, "B", "", None, 1)];
    assert !Good(v, 0.0, r[1]);
  }
}
