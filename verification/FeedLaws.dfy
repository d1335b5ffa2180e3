/** What prices and rule texts mean, apart from how they are computed. */
module FeedLaws {
  import opened Wrappers
  import opened Lists
  import opened FeedRules

  // ---------------------------------------------------------------- what a price is

  /** By how much a feed lies above p, times its volume or times one. */
  function Lies(f: Feed, byVolume: bool, p: real): real {
    var w := if byVolume && f.volume.Some? then f.volume.value else 1.0;
    w * (f.price - p)
  }

  predicate IsOf(f: Feed, m: Market) {
    f.asset == m.asset && f.base == m.base
  }

  /** By how much the feeds of a market lie above p together. */
  function Above(feeds: seq<Feed>, m: Market, byVolume: bool, p: real): real {
    if feeds == [] then 0.0
    else if IsOf(feeds[0], m) then Lies(feeds[0], byVolume, p) + Above(feeds[1..], m, byVolume, p)
    else Above(feeds[1..], m, byVolume, p)
  }

  /** The volumes of a market. */
  function VolumeOf(feeds: seq<Feed>, m: Market): real {
    if feeds == [] then 0.0
    else if IsOf(feeds[0], m) && feeds[0].volume.Some? then feeds[0].volume.value + VolumeOf(feeds[1..], m)
    else VolumeOf(feeds[1..], m)
  }

  function FeedsOf(feeds: seq<Feed>, m: Market): nat {
    if feeds == [] then 0 else FeedsOf(feeds[1..], m) + if IsOf(feeds[0], m) then 1 else 0
  }

  ghost predicate AllHaveVolumes(feeds: seq<Feed>, m: Market) {
    forall f <- feeds :: IsOf(f, m) ==> f.volume.Some?
  }

  function Of(feeds: seq<Feed>, m: Market): seq<Feed> {
    Filter(feeds, OfMarket(m.asset, m.base))
  }

  lemma OfNext(feeds: seq<Feed>, m: Market)
    requires feeds != []
    ensures Of(feeds, m) == if IsOf(feeds[0], m) then [feeds[0]] + Of(feeds[1..], m) else Of(feeds[1..], m)
  { }

  lemma SumNext(f: Feed, rest: seq<Feed>, byVolume: bool)
    ensures TotalWeight([f] + rest, byVolume) == Weight(f, byVolume) + TotalWeight(rest, byVolume)
    ensures WeightedSum([f] + rest, byVolume) == f.price * Weight(f, byVolume) + WeightedSum(rest, byVolume)
  {
    assert ([f] + rest)[1..] == rest;
  }

  /** What is left when p is taken for the mean. */
  function Remainder(feeds: seq<Feed>, byVolume: bool, p: real): real {
    WeightedSum(feeds, byVolume) - Times(p, TotalWeight(feeds, byVolume))
  }

  lemma RemainderNext(f: Feed, rest: seq<Feed>, byVolume: bool, p: real)
    ensures Remainder([f] + rest, byVolume, p) == Lies(f, byVolume, p) + Remainder(rest, byVolume, p)
  {
    SumNext(f, rest, byVolume);
    OneMore(f.price, Weight(f, byVolume), WeightedSum(rest, byVolume), TotalWeight(rest, byVolume), p);
  }

  lemma OneMore(x: real, w: real, sum: real, total: real, p: real)
    ensures w * (x - p) + (sum - Times(p, total)) == (x * w + sum) - Times(p, w + total)
  { }

  lemma {:induction false} AboveIsRemainder(feeds: seq<Feed>, m: Market, byVolume: bool, p: real)
    ensures Above(feeds, m, byVolume, p) == Remainder(Of(feeds, m), byVolume, p)
  {
    if feeds != [] {
      AboveIsRemainder(feeds[1..], m, byVolume, p);
      OfNext(feeds, m);
      if IsOf(feeds[0], m) { RemainderNext(feeds[0], Of(feeds[1..], m), byVolume, p); }
    }
  }

  lemma {:induction false} VolumesAreWeights(feeds: seq<Feed>, m: Market)
    ensures |Of(feeds, m)| == FeedsOf(feeds, m)
    ensures TotalWeight(Of(feeds, m), false) == FeedsOf(feeds, m) as real
    ensures AllHaveVolumes(feeds, m) ==> VolumeOf(feeds, m) == TotalWeight(Of(feeds, m), true)
  {
    if feeds != [] {
      assert feeds[0] in feeds && forall f <- feeds[1..] :: f in feeds;
      VolumesAreWeights(feeds[1..], m);
      OfNext(feeds, m);
      SumNext(feeds[0], Of(feeds[1..], m), true);
      SumNext(feeds[0], Of(feeds[1..], m), false);
    }
  }

  lemma VolumesOfMarket(feeds: seq<Feed>, m: Market)
    ensures AllHaveVolumes(feeds, m) <==> AllHaveVolume(Of(feeds, m))
  {
    var some := Of(feeds, m);
    FilterMembers(feeds, OfMarket(m.asset, m.base));
    if AllHaveVolume(some) {
      forall f <- feeds | IsOf(f, m) ensures f.volume.Some? { assert f in some; }
    }
    if AllHaveVolumes(feeds, m) {
      forall i | 0 <= i < |some| ensures some[i].volume.Some? { assert some[i] in some; }
    }
  }

  lemma MeanLeavesNothing(some: seq<Feed>)
    requires WeightedMean(some).Some?
    ensures Remainder(some, AllHaveVolume(some), WeightedMean(some).value.price) == 0.0
  {
    var byVolume := AllHaveVolume(some);
    if |some| == 1 {
      assert some == [some[0]] + [];
      SumNext(some[0], [], byVolume);
      var w := Weight(some[0], byVolume);
      assert Times(some[0].price, w) == some[0].price * w;
    } else {
      TimesQuotient(WeightedSum(some, byVolume), TotalWeight(some, byVolume));
    }
  }

  lemma TimesQuotient(sum: real, total: real)
    requires total != 0.0
    ensures Times(sum / total, total) == sum
  { }

  lemma SameQuotient(x: real, p: real, total: real)
    requires Times(x, total) == Times(p, total) && total != 0.0
    ensures x == p
  {
    assert (x - p) * total == 0.0;
  }

  /** The price of a named market: where its feeds balance, weighed by volume if all of them have one and
      alike otherwise, and nowhere else unless the volumes add up to zero. There is no price without feeds,
      or if several feeds have volumes that do. */
  lemma PriceBalances(feeds: seq<Feed>, m: Market, x: real)
    requires m.asset != "" && m.base != ""
    ensures Price(feeds, m).None? <==>
            FeedsOf(feeds, m) == 0 || (FeedsOf(feeds, m) > 1 && AllHaveVolumes(feeds, m) && VolumeOf(feeds, m) == 0.0)
    ensures Price(feeds, m).Some? ==>
              var p, byVolume := Price(feeds, m).value.price, AllHaveVolumes(feeds, m);
              && Above(feeds, m, byVolume, p) == 0.0
              && (Above(feeds, m, byVolume, x) == 0.0 && (byVolume ==> VolumeOf(feeds, m) != 0.0) ==> x == p)
  {
    VolumesOfMarket(feeds, m);
    VolumesAreWeights(feeds, m);
    if feeds != [] { assert Resolve(feeds[0], m) == m; }
    if Price(feeds, m).Some? { BalancesAt(feeds, m, Price(feeds, m).value.price, x); }
  }

  /** An empty name is read as that of the first feed. */
  lemma EmptyNamesMean(feeds: seq<Feed>, name: string)
    requires feeds != [] && feeds[0].asset != "" && feeds[0].base != ""
    ensures Price(feeds, Market("", name)) == Price(feeds, Market(feeds[0].asset, name))
    ensures Price(feeds, Market(name, "")) == Price(feeds, Market(name, feeds[0].base))
  {
    assert Resolve(feeds[0], Market("", name)) == Resolve(feeds[0], Market(feeds[0].asset, name));
    assert Resolve(feeds[0], Market(name, "")) == Resolve(feeds[0], Market(name, feeds[0].base));
  }

  lemma BalancesAt(feeds: seq<Feed>, m: Market, p: real, x: real)
    requires WeightedMean(Of(feeds, m)).Some? && p == WeightedMean(Of(feeds, m)).value.price
    ensures var byVolume := AllHaveVolumes(feeds, m);
            && Above(feeds, m, byVolume, p) == 0.0
            && (Above(feeds, m, byVolume, x) == 0.0 && (byVolume ==> VolumeOf(feeds, m) != 0.0) ==> x == p)
  {
    var byVolume := AllHaveVolumes(feeds, m);
    VolumesOfMarket(feeds, m);
    VolumesAreWeights(feeds, m);
    MeanLeavesNothing(Of(feeds, m));
    AboveIsRemainder(feeds, m, byVolume, p);
    AboveIsRemainder(feeds, m, byVolume, x);
    var total := TotalWeight(Of(feeds, m), byVolume);
    if Above(feeds, m, byVolume, x) == 0.0 && total != 0.0 { SameQuotient(x, p, total); }
  }

  // ---------------------------------------------------------------- what a rule text means

  lemma {:induction false} SlashOf(a: string, b: string)
    requires '/' !in a
    ensures SlashIndex(a + "/" + b) == |a|
  {
    if a != "" {
      assert (a + "/" + b)[1..] == a[1..] + "/" + b;
      SlashOf(a[1..], b);
    }
  }

  lemma {:induction false} NoSlashBefore(s: string)
    ensures '/' !in s[..SlashIndex(s)]
  {
    if s != "" && s[0] != '/' {
      NoSlashBefore(s[1..]);
      assert s[..SlashIndex(s)] == [s[0]] + s[1..][..SlashIndex(s[1..])];
    }
  }

  /** A market is two names with one slash between them. */
  lemma MktMeans(text: string, asset: string, base: string)
    ensures Mkt(text) == Some(Market(asset, base)) <==>
            text == asset + "/" + base && '/' !in asset && '/' !in base
  {
    var i := SlashIndex(text);
    NoSlashBefore(text);
    if text == asset + "/" + base && '/' !in asset {
      SlashOf(asset, base);
      assert text[..i] == asset && text[i + 1..] == base;
    }
    if Mkt(text) == Some(Market(asset, base)) {
      assert text == text[..i] + "/" + text[i + 1..];
    }
  }

  lemma PublishStep(fmt: Format, s: State, rules: seq<Rule>, text: string)
    ensures var before, market := Apply(fmt, s, rules), Mkt(text);
            Apply(fmt, s, rules + [Publish(text)]) ==
            if market.Some? then before.(publish := before.publish + [market.value]) else before
  {
    ApplySnoc(fmt, s, rules, Publish(text));
  }

  /** Publishing appends the market of the text at the end, and does nothing else. */
  lemma PublishAppends(fmt: Format, s: State, rules: seq<Rule>, asset: string, base: string)
    requires '/' !in asset && '/' !in base
    ensures var before := Apply(fmt, s, rules);
            Apply(fmt, s, rules + [Publish(asset + "/" + base)]) ==
            before.(publish := before.publish + [Market(asset, base)])
  {
    MktMeans(asset + "/" + base, asset, base);
    PublishStep(fmt, s, rules, asset + "/" + base);
  }

  /** A text that is not two names and one slash is not published. */
  lemma PublishNothing(fmt: Format, s: State, rules: seq<Rule>, text: string)
    requires forall asset, base :: text == asset + "/" + base ==> '/' in asset || '/' in base
    ensures Apply(fmt, s, rules + [Publish(text)]) == Apply(fmt, s, rules)
  {
    NoMarket(text);
    PublishStep(fmt, s, rules, text);
  }

  lemma NoMarket(text: string)
    requires forall asset, base :: text == asset + "/" + base ==> '/' in asset || '/' in base
    ensures Mkt(text).None?
  {
    if Mkt(text).Some? {
      var m := Mkt(text).value;
      MktMeans(text, m.asset, m.base);
    }
  }

  /** A rule with an unknown name raises and changes nothing, and a loop over it ends at its first asset. */
  lemma UnknownRuleRaises(fmt: Format, s: State, name: string, assets: seq<string>)
    requires assets != []
    ensures Execute(fmt, s, Invalid(name)) == (s, false)
    ensures Execute(fmt, s, Loop(assets, Invalid(name))) == (s, false)
  { }

  /** The rule is the body of a loop with its patterns filled in. */
  predicate Fills(fmt: Format, body: Rule, asset: string, r: Rule) {
    match body
    case Compose(m1, m2) => r.Compose? && fmt(m1, asset) == Some(r.market1) && fmt(m2, asset) == Some(r.market2)
    case Copy(m1, m2) => r.Copy? && fmt(m1, asset) == Some(r.source) && fmt(m2, asset) == Some(r.dest)
    case Invert(m) => r.Invert? && fmt(m, asset) == Some(r.market)
    case Publish(m) => r.Publish? && fmt(m, asset) == Some(r.market)
    case Invalid(name) => r == body
    case Loop(_, _) => false
  }

  /** A loop that does not raise is its body for one asset after the other. */
  lemma {:induction false} LoopIsSequence(fmt: Format, s: State, assets: seq<string>, body: Rule, rules: seq<Rule>)
    requires |rules| == |assets| && forall i :: 0 <= i < |assets| ==> Fills(fmt, body, assets[i], rules[i])
    requires AllSucceed(fmt, s, rules)
    ensures Execute(fmt, s, Loop(assets, body)) == (Apply(fmt, s, rules), true)
    decreases |assets|
  {
    if assets != [] {
      var t := Execute(fmt, s, rules[0]).0;
      LoopIsSequence(fmt, t, assets[1..], body, rules[1..]);
      ApplyCons(fmt, s, rules);
      FillsIsInstance(fmt, body, assets[0], rules[0]);
      assert [assets[0]] + assets[1..] == assets;
      LoopStep(fmt, s, assets[0], assets[1..], body);
    }
  }

  /** No rule raises. */
  predicate AllSucceed(fmt: Format, s: State, rules: seq<Rule>)
    decreases |rules|
  {
    rules == [] || (Execute(fmt, s, rules[0]).1 && AllSucceed(fmt, Execute(fmt, s, rules[0]).0, rules[1..]))
  }

  lemma FillsIsInstance(fmt: Format, body: Rule, asset: string, r: Rule)
    requires Fills(fmt, body, asset, r)
    ensures Instantiate(fmt, body, asset) == Some(r)
  { }

  lemma ApplyCons(fmt: Format, s: State, rules: seq<Rule>)
    requires rules != []
    ensures Apply(fmt, s, rules) == Apply(fmt, Execute(fmt, s, rules[0]).0, rules[1..])
  {
    assert rules == [rules[0]] + rules[1..];
    ApplySplits(fmt, s, [rules[0]], rules[1..]);
    assert [rules[0]][..0] == [];
    assert Apply(fmt, s, []) == s;
  }
}
