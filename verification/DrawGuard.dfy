/** Server-side tables: every redraw asks the server under a new draw number, and responses may come
    late, twice, out of order or never. */
module DrawGuard {
  import opened Wrappers

  /** The draw number of a table, None once it is not a number. */
  datatype State<D> = State(iDraw: Option<int>, shown: seq<D>)

  /** The draw number in a response. An empty text is as good as none; a text that is no number reads as
      None, but it is not nothing. */
  datatype Echo = Absent | Number(n: int) | Text(value: Option<int>)

  datatype Event<D> =
    | Request
    | DeferredDraw
    | Response(echo: Echo, rows: seq<D>)

  /** Not a missing number and not the number 0. */
  predicate Counts(e: Echo) {
    e.Text? || (e.Number? && e.n != 0)
  }

  function ValueOf(e: Echo): Option<int> {
    match e
    case Absent => None
    case Number(n) => Some(n)
    case Text(value) => value
  }

  /** Comparing with what is not a number is false. */
  predicate Less(a: Option<int>, b: Option<int>) {
    a.Some? && b.Some? && a.value < b.value
  }

  function Next(a: Option<int>): Option<int> {
    if a.Some? then Some(a.value + 1) else None
  }

  predicate IsStale<D>(s: State<D>, e: Event<D>) {
    e.Response? && Counts(e.echo) && Less(ValueOf(e.echo), s.iDraw)
  }

  function Step<D>(s: State<D>, e: Event<D>): State<D> {
    match e
    case Request => s.(iDraw := Next(s.iDraw))
    case DeferredDraw => s.(iDraw := Next(s.iDraw))
    case Response(echo, rows) =>
      if IsStale(s, e) then s
      else State(if Counts(echo) then ValueOf(echo) else s.iDraw, rows)
  }

  function Run<D>(s: State<D>, events: seq<Event<D>>): State<D> {
    if events == [] then s else Step(Run(s, events[..|events| - 1]), events[|events| - 1])
  }

  class ServerTable<D> {
    var iDraw: Option<int>
    var aoData: seq<D>

    function Contents(): State<D>
      reads this
    {
      State(iDraw, aoData)
    }

    constructor ()
      ensures Contents() == State(Some(0), [])
    {
      iDraw, aoData := Some(0), [];
    }

    /** Asks the server; the number goes with the request. */
    method AjaxUpdate() returns (draw: Option<int>)
      modifies this
      ensures Contents() == Step(old(Contents()), Request) && draw == iDraw
    {
      iDraw := Next(iDraw);
      draw := iDraw;
    }

    method DeferredLoad()
      modifies this
      ensures Contents() == Step(old(Contents()), DeferredDraw)
    {
      iDraw := Next(iDraw);
    }

    method AjaxUpdateDraw(draw: Echo, rows: seq<D>)
      modifies this
      ensures Contents() == Step(old(Contents()), Response(draw, rows))
    {
      if Counts(draw) {
        if Less(ValueOf(draw), iDraw) { return; }
        iDraw := ValueOf(draw);
      }
      aoData := [];
      for i := 0 to |rows|
        invariant aoData == rows[..i] && iDraw == Step(old(Contents()), Response(draw, rows)).iDraw
      {
        aoData := aoData + [rows[i]];
      }
    }
  }

  lemma {:induction false} RunSplits<D>(s: State<D>, first: seq<Event<D>>, then_: seq<Event<D>>)
    ensures Run(s, first + then_) == Run(Run(s, first), then_)
  {
    if then_ == [] {
      assert first + then_ == first;
    } else {
      var all := first + then_;
      assert all[..|all| - 1] == first + then_[..|then_| - 1];
      RunSplits(s, first, then_[..|then_| - 1]);
    }
  }

  /** No response has a text for its draw number that is no number. */
  ghost predicate Numbered<D>(events: seq<Event<D>>) {
    forall e <- events :: e.Response? ==> e.echo != Text(None)
  }

  /** A response that is taken sets the draw number to its own, if it has one. */
  lemma TakenSetsDraw<D>(s: State<D>, e: Event<D>, draw: int)
    requires e.Response? && (e.echo == Number(draw) || e.echo == Text(Some(draw))) && draw != 0
    requires s.iDraw.Some? ==> s.iDraw.value <= draw
    ensures Step(s, e) == State(Some(draw), e.rows)
  { }

  /** Then the draw number never goes back, whatever numbers the server sends. */
  lemma {:induction false} DrawNeverDecreases<D>(s: State<D>, events: seq<Event<D>>)
    requires s.iDraw.Some? && Numbered(events)
    ensures Run(s, events).iDraw.Some? && s.iDraw.value <= Run(s, events).iDraw.value
  {
    if events != [] {
      var init, e := events[..|events| - 1], events[|events| - 1];
      assert e in events;
      DrawNeverDecreases(s, init);
    }
  }

  /** Once a request has gone out under number k, a response with a lower number changes nothing, however
      much later it comes, be it a number or a text; one without a number, or with the number 0, is taken. */
  lemma StaleIsIgnored<D>(s: State<D>, before: seq<Event<D>>, between: seq<Event<D>>, e: Event<D>, draw: int)
    requires s.iDraw.Some? && Numbered(before) && Numbered(between) && e.Response?
    requires || e.echo == Absent || e.echo == Number(0)
             || ((e.echo == Number(draw) || e.echo == Text(Some(draw)))
                 && Less(Some(draw), Run(s, before + [Request]).iDraw))
    ensures var past := before + [Request] + between;
            Run(s, past + [e]) == if e.echo == Absent || e.echo == Number(0) then Run(s, past).(shown := e.rows)
                                  else Run(s, past)
  {
    var past := before + [Request] + between;
    RunSplits(s, before + [Request], between);
    DrawNeverDecreases(s, before + [Request]);
    DrawNeverDecreases(Run(s, before + [Request]), between);
    assert (past + [e])[..|past + [e]| - 1] == past;
  }

  /** The failing family: a text that is no number for a draw number opens the guard, and whatever draws
      are started then, the next response is taken, however old. */
  lemma {:induction false} NoNumberOpensGuard<D>(s: State<D>, rows: seq<D>, draws: seq<Event<D>>, e: Event<D>)
    requires e.Response? && forall d <- draws :: !d.Response?
    ensures var past := [Response(Text(None), rows)] + draws;
            Run(s, past).iDraw == None && Run(s, past + [e]).shown == e.rows
  {
    var first := Response(Text(None), rows);
    var past := [first] + draws;
    if draws == [] {
      assert past == [first] && [first][..0] == [];
      assert Run(s, past) == Step(Run(s, []), first);
    } else {
      var d := draws[|draws| - 1];
      assert d in draws;
      NoNumberOpensGuard(s, rows, draws[..|draws| - 1], e);
      assert past[..|past| - 1] == [first] + draws[..|draws| - 1];
    }
    assert (past + [e])[..|past + [e]| - 1] == past;
  }

  /** The server only echoes numbers that were given out. */
  ghost predicate Honest<D>(s: State<D>, events: seq<Event<D>>) {
    forall i :: 0 <= i < |events| && events[i].Response? ==>
      var draw, given := ValueOf(events[i].echo), Run(s, events[..i]).iDraw;
      draw.Some? && given.Some? && 0 < draw.value <= given.value
  }

  /** The rows of the last response that was not stale, or those from the beginning. */
  function LastAccepted<D>(s: State<D>, events: seq<Event<D>>): seq<D> {
    if events == [] then s.shown
    else
      var init, e := events[..|events| - 1], events[|events| - 1];
      if e.Response? && !IsStale(Run(s, init), e) then e.rows else LastAccepted(s, init)
  }

  /** Against an honest server the draw number counts the draws that were started, the only response
      taken is one to the latest of them, and the rows shown are those of the last response taken. */
  lemma {:induction false} ShowsLatest<D>(s: State<D>, events: seq<Event<D>>)
    requires s.iDraw.Some? && Honest(s, events)
    ensures Run(s, events).iDraw == Some(s.iDraw.value + Started(events))
    ensures Run(s, events).shown == LastAccepted(s, events)
    ensures events != [] && events[|events| - 1].Response? ==>
              var before, e := Run(s, events[..|events| - 1]), events[|events| - 1];
              IsStale(before, e) <==> ValueOf(e.echo) != Some(s.iDraw.value + Started(events))
  {
    if events != [] {
      var init := events[..|events| - 1];
      HonestBefore(s, events);
      ShowsLatest(s, init);
      var e := events[|events| - 1];
      assert e.Response? ==> Counts(e.echo) && ValueOf(e.echo).Some?;
    }
  }

  lemma HonestBefore<D>(s: State<D>, events: seq<Event<D>>)
    requires events != [] && Honest(s, events)
    ensures Honest(s, events[..|events| - 1])
  {
    var init := events[..|events| - 1];
    forall i | 0 <= i < |init| && init[i].Response?
      ensures var draw, given := ValueOf(init[i].echo), Run(s, init[..i]).iDraw;
              draw.Some? && given.Some? && 0 < draw.value <= given.value
    {
      assert init[i] == events[i] && init[..i] == events[..i];
    }
  }

  /** How many draws were started. */
  function Started<D>(events: seq<Event<D>>): nat {
    if events == [] then 0
    else Started(events[..|events| - 1]) + if events[|events| - 1].Response? then 0 else 1
  }
}
