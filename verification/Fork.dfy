/** The fork plugin: it warns when a node falls out of sync and announces when it is back. */
module Fork {
  import opened Wrappers
  import opened StableState

  datatype Online = IsOnline | IsOffline
  datatype Sync = UpToDate | Stale
  datatype Notification = Synced | NotInSync

  // ---------------------------------------------------------------- one poll, on the history of pushes

  function Forced(h: seq<Sync>, justChanged: bool): seq<Sync> {
    if justChanged then h + [Stale, Stale, Stale] else h
  }

  function Pushed(h: seq<Sync>, justChanged: bool, synced: bool): seq<Sync> {
    Forced(h, justChanged) + [if synced then UpToDate else Stale]
  }

  function Notice(h: seq<Sync>, justChanged: bool, synced: bool): Option<Notification> {
    if !Fires(Pushed(h, justChanged, synced), 3) then None
    else if synced then Some(Synced) else Some(NotInSync)
  }

  class ForkMonitor {
    const onlineState: StableStateMonitor<Online>
    const blockchainUptodate: StableStateMonitor<Sync>

    ghost predicate Valid()
      reads this, onlineState, blockchainUptodate
    {
      && (onlineState as object) != blockchainUptodate
      && onlineState.Valid() && blockchainUptodate.Valid() && blockchainUptodate.n == 3
    }

    constructor (onlineState: StableStateMonitor<Online>)
      requires onlineState.Valid()
      ensures Valid() && this.onlineState == onlineState
      ensures fresh(blockchainUptodate) && blockchainUptodate.history == []
    {
      this.onlineState := onlineState;
      this.blockchainUptodate := new StableStateMonitor<Sync>(3);
    }

    method Monitor(synced: bool) returns (sent: Option<Notification>)
      requires Valid()
      modifies blockchainUptodate
      ensures Valid()
      ensures var h, changed := old(blockchainUptodate.history), old(onlineState.JustChanged());
              && blockchainUptodate.history == Pushed(h, changed, synced)
              && sent == Notice(h, changed, synced)
    {
      ghost var h := blockchainUptodate.history;
      if onlineState.JustChanged() {
        for i := 0 to 3
          invariant Valid() && blockchainUptodate.history == h + seq(i, _ => Stale)
        {
          blockchainUptodate.Push(Stale);
        }
        assert seq(3, _ => Stale) == [Stale, Stale, Stale];
      }
      sent := None;
      if synced {
        blockchainUptodate.Push(UpToDate);
        if blockchainUptodate.JustChanged() { sent := Some(Synced); }
      } else {
        blockchainUptodate.Push(Stale);
        if blockchainUptodate.JustChanged() { sent := Some(NotInSync); }
      }
    }
  }

  // ---------------------------------------------------------------- the first change after a stable state

  ghost function Opposite(c: Sync): Sync {
    if c == UpToDate then Stale else UpToDate
  }

  ghost predicate EndsInThree(xs: seq<Sync>, c: Sync) {
    |xs| >= 3 && xs[|xs| - 3] == c && xs[|xs| - 2] == c && xs[|xs| - 1] == c
  }

  /** The last stable value is c: remembered as such, or the current one. */
  ghost predicate Remembers(q: seq<Sync>, c: Sync) {
    Stable(q, 3) == Some(c) || (Stable(q, 3).None? && LastStable(q, 3) == Some(c))
  }

  lemma StableOfThree(p: seq<Sync>, c: Sync)
    ensures Stable(p, 3) == Some(c) <==> EndsInThree(p, c)
  { }

  lemma NextPush(q: seq<Sync>, x: Sync, c: Sync)
    requires Remembers(q, c)
    ensures Fires(q + [x], 3) <==> Stable(q + [x], 3) == Some(Opposite(c))
    ensures !Fires(q + [x], 3) ==> Remembers(q + [x], c)
  {
    var p := q + [x];
    assert p[..|p| - 1] == q;
    assert LastStable(p, 3) == Some(c);
  }

  /** Behind three pushes of c, three pushes of the other state are all among the new ones. */
  lemma ThreeAmongNew(q: seq<Sync>, c: Sync, xs: seq<Sync>)
    requires EndsInThree(q, c)
    ensures EndsInThree(q + xs, Opposite(c)) <==> EndsInThree(xs, Opposite(c))
  {
    var p, m := q + xs, |xs|;
    if m < 3 {
      assert p[|p| - m - 1] == c;
    } else {
      assert forall i :: m - 3 <= i < m ==> p[|p| - m + i] == xs[i];
    }
  }

  ghost predicate NoneBefore(xs: seq<Sync>, n: nat, c: Sync)
    requires n <= |xs|
  {
    forall k :: 0 <= k <= n ==> !EndsInThree(xs[..k], Opposite(c))
  }

  lemma {:induction false} RemembersUntil(q: seq<Sync>, c: Sync, xs: seq<Sync>, n: nat)
    requires EndsInThree(q, c) && n <= |xs| && NoneBefore(xs, n, c)
    ensures Remembers(q + xs[..n], c)
  {
    StableOfThree(q, c);
    if n == 0 {
      assert q + xs[..0] == q;
    } else {
      RemembersUntil(q, c, xs, n - 1);
      NextPush(q + xs[..n - 1], xs[n - 1], c);
      assert q + xs[..n] == q + xs[..n - 1] + [xs[n - 1]];
      ThreeAmongNew(q, c, xs[..n]);
      StableOfThree(q + xs[..n], Opposite(c));
    }
  }

  /** After three pushes of c the first change is reported exactly at the first three pushes in a row
      of the other state. */
  lemma FirstChange(q: seq<Sync>, c: Sync, xs: seq<Sync>)
    requires EndsInThree(q, c) && xs != [] && NoneBefore(xs, |xs| - 1, c)
    ensures Fires(q + xs, 3) <==> EndsInThree(xs, Opposite(c))
  {
    var n := |xs| - 1;
    RemembersUntil(q, c, xs, n);
    NextPush(q + xs[..n], xs[n], c);
    assert q + xs == q + xs[..n] + [xs[n]];
    ThreeAmongNew(q, c, xs);
    StableOfThree(q + xs, Opposite(c));
  }

  // ---------------------------------------------------------------- a run of polls

  /** The history after polls without a change of the online state. */
  function Pushes(h: seq<Sync>, justChanged: bool, synced: seq<bool>): seq<Sync> {
    if synced == [] then h
    else
      var init := synced[..|synced| - 1];
      Pushed(Pushes(h, justChanged, init), justChanged && init == [], synced[|synced| - 1])
  }

  /** What is sent at the last of these polls; `justChanged` is about the first. */
  function NoticeAt(h: seq<Sync>, justChanged: bool, synced: seq<bool>): Option<Notification>
    requires synced != []
  {
    var init := synced[..|synced| - 1];
    Notice(Pushes(h, justChanged, init), justChanged && init == [], synced[|synced| - 1])
  }

  ghost function States(synced: seq<bool>): seq<Sync> {
    seq(|synced|, i requires 0 <= i < |synced| => if synced[i] then UpToDate else Stale)
  }

  lemma {:induction false} ShapeOfPushes(h: seq<Sync>, justChanged: bool, synced: seq<bool>)
    requires synced != []
    ensures Pushes(h, justChanged, synced) == Forced(h, justChanged) + States(synced)
  {
    var init, x := synced[..|synced| - 1], synced[|synced| - 1];
    assert States(synced) == States(init) + [if x then UpToDate else Stale];
    if init != [] { ShapeOfPushes(h, justChanged, init); }
  }

  lemma NoticeIsChange(h: seq<Sync>, justChanged: bool, synced: seq<bool>)
    requires synced != []
    ensures NoticeAt(h, justChanged, synced) ==
            if !Fires(Forced(h, justChanged) + States(synced), 3) then None
            else if synced[|synced| - 1] then Some(Synced) else Some(NotInSync)
  {
    ShapeOfPushes(h, justChanged, synced);
  }

  ghost predicate ThreeInARow(synced: seq<bool>, b: bool) {
    |synced| >= 3 && synced[|synced| - 3] == b && synced[|synced| - 2] == b && synced[|synced| - 1] == b
  }

  lemma NoneBeforeInStates(synced: seq<bool>, b: bool)
    requires synced != [] && forall k :: 0 <= k < |synced| ==> !ThreeInARow(synced[..k], b)
    ensures NoneBefore(States(synced), |synced| - 1, if b then Stale else UpToDate)
    ensures EndsInThree(States(synced), if b then UpToDate else Stale) <==> ThreeInARow(synced, b)
  {
    forall k | 0 <= k < |synced| ensures !EndsInThree(States(synced)[..k], if b then UpToDate else Stale) {
      assert !ThreeInARow(synced[..k], b);
    }
  }

  /** After a came-online poll and until the next one the first notification is `Synced`: it is sent
      at the first three consecutive synced polls, the came-online poll included, and nothing is sent
      before. In particular the three forced pushes never raise a not-in-sync alert, whatever the
      history. */
  lemma FirstNoticeIsSynced(h: seq<Sync>, synced: seq<bool>)
    requires synced != [] && forall k :: 0 <= k < |synced| ==> !ThreeInARow(synced[..k], true)
    ensures NoticeAt(h, true, synced) == if ThreeInARow(synced, true) then Some(Synced) else None
  {
    NoneBeforeInStates(synced, true);
    FirstChange(Forced(h, true), Stale, States(synced));
    NoticeIsChange(h, true, synced);
  }

  /** A node that was in sync for three polls raises the alert at the first three consecutive polls out
      of sync, and sends nothing before. */
  lemma FirstNoticeIsNotInSync(h: seq<Sync>, synced: seq<bool>)
    requires EndsInThree(h, UpToDate)
    requires synced != [] && forall k :: 0 <= k < |synced| ==> !ThreeInARow(synced[..k], false)
    ensures NoticeAt(h, false, synced) == if ThreeInARow(synced, false) then Some(NotInSync) else None
  {
    NoneBeforeInStates(synced, false);
    FirstChange(h, UpToDate, States(synced));
    NoticeIsChange(h, false, synced);
  }
}
