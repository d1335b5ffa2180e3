/** `StableStateMonitor`: a value is stable once it was pushed n times in a row, and a change is
    reported while the stable value differs from the stable value before it. */
module StableState {
  import opened Wrappers

  // ---------------------------------------------------------------- meaning over the whole history

  /** The value of the last n pushes when they are all the same. */
  function Stable<T(==)>(h: seq<T>, n: nat): Option<T>
    requires 1 <= n
  {
    if n <= |h| && forall i :: |h| - n <= i < |h| ==> h[i] == h[|h| - 1] then Some(h[|h| - 1]) else None
  }

  /** The most recent stable value of a proper prefix. */
  function LastStable<T(==)>(h: seq<T>, n: nat): Option<T>
    requires 1 <= n
  {
    if h == [] then None
    else
      var before := h[..|h| - 1];
      if Stable(before, n).Some? then Stable(before, n) else LastStable(before, n)
  }

  predicate Fires<T(==)>(h: seq<T>, n: nat)
    requires 1 <= n
  {
    Stable(h, n).Some? && LastStable(h, n).Some? && Stable(h, n) != LastStable(h, n)
  }

  function Suffix<T>(h: seq<T>, k: nat): seq<T> {
    if |h| <= k then h else h[|h| - k..]
  }

  // ---------------------------------------------------------------- the monitor

  class StableStateMonitor<T(==)> {
    const n: nat
    var states: seq<T>
    var lastStableState: Option<T>
    ghost var history: seq<T>

    ghost predicate Valid()
      reads this
    {
      && 1 <= n
      && states == Suffix(history, n + 1)
      && lastStableState == LastStable(history, n)
    }

    constructor (n: nat)
      requires 1 <= n
      ensures Valid() && history == [] && this.n == n
    {
      this.n := n;
      states := [];
      lastStableState := None;
      history := [];
    }

    /** The n+1 states kept decide stability as the whole history does. */
    function StableNow(): (r: Option<T>)
      requires Valid()
      reads this
      ensures r == Stable(history, n)
    {
      if |states| < n then None
      else
        var last := states[|states| - 1];
        assert forall i :: |states| - n <= i < |states| ==> states[i] == history[|history| - |states| + i];
        assert forall i :: |history| - n <= i < |history| ==> history[i] == states[i - (|history| - |states|)];
        if forall i :: |states| - n <= i < |states| ==> states[i] == last then Some(last) else None
    }

    predicate JustChanged()
      requires Valid()
      reads this
      ensures JustChanged() <==> Fires(history, n)
    {
      var s := StableNow();
      s.Some? && lastStableState.Some? && s != lastStableState
    }

    method Push(state: T)
      requires Valid()
      modifies this
      ensures Valid() && history == old(history) + [state]
    {
      var s := StableNow();
      if s.Some? { lastStableState := s; }
      states := Suffix(states + [state], n + 1);
      history := history + [state];
      assert history[..|history| - 1] == old(history);
    }
  }

  // ---------------------------------------------------------------- what the history functions mean

  /** `LastStable` is the stable value of the longest stable proper prefix. */
  lemma {:induction false} LastStableIsMostRecent<T>(h: seq<T>, n: nat, c: T)
    requires 1 <= n
    ensures LastStable(h, n) == Some(c) <==>
            exists k :: 0 <= k < |h| && Stable(h[..k], n) == Some(c)
                        && forall j :: k < j < |h| ==> Stable(h[..j], n).None?
  {
    if h != [] {
      var before := h[..|h| - 1];
      LastStableIsMostRecent(before, n, c);
      assert forall j :: 0 <= j < |h| ==> before[..j] == h[..j];
      assert h[..|h| - 1] == before;
      if Stable(before, n).None? && LastStable(before, n) == Some(c) {
        var k :| 0 <= k < |before| && Stable(before[..k], n) == Some(c)
                 && forall j :: k < j < |before| ==> Stable(before[..j], n).None?;
        assert Stable(h[..k], n) == Some(c);
        forall j | k < j < |h| ensures Stable(h[..j], n).None? {
          assert h[..j] == before[..j];
        }
      }
      if k :| 0 <= k < |h| && Stable(h[..k], n) == Some(c) && forall j :: k < j < |h| ==> Stable(h[..j], n).None? {
        if k == |before| {
          assert h[..k] == before;
        } else {
          assert Stable(h[..|h| - 1], n).None?;
          forall j | k < j < |before| ensures Stable(before[..j], n).None? { assert Stable(h[..j], n).None?; }
          assert Stable(before[..k], n) == Some(c);
        }
      }
    }
  }

  /** Once a prefix is stable, the value remembered later only moves when a change is reported. */
  lemma {:induction false} RememberedUntilFiring<T>(h: seq<T>, n: nat, i: nat, j: nat)
    requires 1 <= n && i < j <= |h| && Stable(h[..i], n).Some?
    requires forall k :: i < k < j ==> !Fires(h[..k], n)
    ensures LastStable(h[..j], n) == Stable(h[..i], n)
    decreases j
  {
    assert h[..j][..j - 1] == h[..j - 1];
    if j - 1 > i {
      RememberedUntilFiring(h, n, i, j - 1);
      assert !Fires(h[..j - 1], n);
    }
  }

  /** Querying after every push, two consecutive reports carry different values, and they are at
      least n pushes apart. */
  lemma ConsecutiveFirings<T>(h: seq<T>, n: nat, i: nat, j: nat)
    requires 1 <= n && i < j <= |h|
    requires Fires(h[..i], n) && Fires(h[..j], n)
    requires forall k :: i < k < j ==> !Fires(h[..k], n)
    ensures Stable(h[..i], n) != Stable(h[..j], n)
    ensures j - i >= n
  {
    RememberedUntilFiring(h, n, i, j);
    assert h[..i][i - 1] == h[i - 1];
    assert forall p :: 0 <= p < j ==> h[..j][p] == h[p];
  }

  /** No change is missed: between prefixes stable at different values a change is reported. */
  lemma {:induction false} NoMissedChange<T>(h: seq<T>, n: nat, i: nat, j: nat)
    requires 1 <= n && i < j <= |h|
    requires Stable(h[..i], n).Some? && Stable(h[..j], n).Some? && Stable(h[..i], n) != Stable(h[..j], n)
    ensures exists k :: i < k <= j && Fires(h[..k], n)
  {
    if forall k :: i < k < j ==> !Fires(h[..k], n) {
      RememberedUntilFiring(h, n, i, j);
      assert Fires(h[..j], n);
    }
  }

  /** The whole condition for a report: the last n pushes agree, and the latest stable value of an
      earlier prefix is a different one. */
  lemma FiresWhen<T>(h: seq<T>, n: nat)
    requires 1 <= n
    ensures Fires(h, n) <==>
            && Stable(h, n).Some?
            && exists k :: 0 <= k < |h| && Stable(h[..k], n).Some? && Stable(h[..k], n) != Stable(h, n)
                           && forall j :: k < j < |h| ==> Stable(h[..j], n).None?
  {
    if LastStable(h, n).Some? {
      LastStableIsMostRecent(h, n, LastStable(h, n).value);
    }
    if Stable(h, n).Some? {
      if k :| 0 <= k < |h| && Stable(h[..k], n).Some? && Stable(h[..k], n) != Stable(h, n)
              && forall j :: k < j < |h| ==> Stable(h[..j], n).None? {
        LastStableIsMostRecent(h, n, Stable(h[..k], n).value);
      }
    }
  }
}
