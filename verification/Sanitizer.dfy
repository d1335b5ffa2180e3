/** `_sanitize_output`: the substitution of everything that looks like a WIF key in text to be shown. */
module Sanitizer {
  import opened Hex
  import opened Base58
  import opened Keys

  predicate IsAlnum(c: char) {
    '0' <= c <= '9' || 'a' <= c <= 'z' || 'A' <= c <= 'Z'
  }

  /** The characters that are counted as alphanumeric. */
  const ALNUM := "0123456789" + "abcdefghijklm" + "nopqrstuvwxyz" + "ABCDEFGHIJKLM" + "NOPQRSTUVWXYZ"

  lemma AlnumAt(k: nat)
    requires k < |ALNUM|
    ensures IsAlnum(ALNUM[k])
  { }

  function AlnumIndex(c: char): (k: nat)
    requires IsAlnum(c)
    ensures k < 62
  {
    if c <= '9' then c as int - '0' as int
    else if c <= 'Z' then 36 + (c as int - 'A' as int)
    else 10 + (c as int - 'a' as int)
  }

  lemma AlnumIsAt(c: char)
    requires IsAlnum(c)
    ensures |ALNUM| == 62 && ALNUM[AlnumIndex(c)] == c
  { }

  lemma AlnumIs(c: char)
    ensures IsAlnum(c) <==> c in ALNUM
  {
    if IsAlnum(c) { AlnumIsAt(c); }
    if c in ALNUM {
      var k :| 0 <= k < |ALNUM| && ALNUM[k] == c;
      AlnumAt(k);
    }
  }

  /** The pattern `5[0-9a-zA-Z]{50}` matches at the start of s. */
  predicate LooksLikeKey(s: string) {
    |s| >= 51 && s[0] == '5' && forall i :: 1 <= i < 51 ==> IsAlnum(s[i])
  }

  const MASK := "5xxxx"

  /** Replace the matches found scanning from the left, without overlap. */
  function Sanitize(s: string): string
    decreases |s|
  {
    if s == "" then ""
    else if LooksLikeKey(s) then MASK + Sanitize(s[51..])
    else [s[0]] + Sanitize(s[1..])
  }

  /** A word boundary on the left of t: nothing before it, or a character that is not alphanumeric. */
  ghost predicate EndsWord(pre: string) {
    pre == "" || !IsAlnum(pre[|pre| - 1])
  }

  lemma NoStraddling(pre: string, t: string)
    requires EndsWord(pre) && pre != ""
    ensures LooksLikeKey(pre + t) <==> LooksLikeKey(pre)
  {
    var s, last := pre + t, |pre| - 1;
    assert s[last] == pre[last];
    assert forall i :: 1 <= i < |pre| ==> pre[i] == s[i];
    if LooksLikeKey(s) {
      assert last >= 51;
    }
  }

  /** No match straddles a word boundary, so the scan splits there. */
  lemma {:induction false} SplitsAtWord(pre: string, t: string)
    requires EndsWord(pre)
    ensures Sanitize(pre + t) == Sanitize(pre) + Sanitize(t)
    decreases |pre|
  {
    var s := pre + t;
    if pre == "" {
      assert s == t;
    } else {
      NoStraddling(pre, t);
      var k := if LooksLikeKey(pre) then 51 else 1;
      assert s[k..] == pre[k..] + t;
      SplitsAtWord(pre[k..], t);
    }
  }

  /** At position i there is a `5` and 50 more letters and digits. */
  ghost predicate KeyAt(s: string, i: nat) {
    i + 51 <= |s| && s[i] == '5' && forall j :: i < j < i + 51 ==> s[j] in ALNUM
  }

  lemma KeyIsMatch(s: string, i: nat)
    requires i <= |s|
    ensures KeyAt(s, i) <==> LooksLikeKey(s[i..])
  {
    forall c { AlnumIs(c); }
    if LooksLikeKey(s[i..]) {
      forall j | i < j < i + 51 ensures IsAlnum(s[j]) { assert s[i..][j - i] == s[j]; }
    }
  }

  lemma {:induction false} Shrinks(s: string)
    ensures |Sanitize(s)| <= |s|
    ensures |Sanitize(s)| == |s| ==> Sanitize(s) == s && forall i :: 0 <= i < |s| ==> !LooksLikeKey(s[i..])
    decreases |s|
  {
    if s != "" {
      assert s[0..] == s;
      Shrinks(s[if LooksLikeKey(s) then 51 else 1..]);
      forall i | 0 < i < |s| ensures s[i..] == s[1..][i - 1..] { }
    }
  }

  /** Text is shown as it is exactly when there is no key in it. */
  lemma {:induction false} LeavesOtherText(s: string)
    ensures Sanitize(s) == s <==> forall i: nat :: !KeyAt(s, i)
    decreases |s|
  {
    Shrinks(s);
    forall i: nat | i <= |s| { KeyIsMatch(s, i); }
    if forall i: nat :: !KeyAt(s, i) {
      forall i | 0 <= i < |s| ensures !LooksLikeKey(s[i..]) { KeyIsMatch(s, i); }
      NothingToMask(s);
    }
  }

  lemma {:induction false} NothingToMask(s: string)
    requires forall i :: 0 <= i < |s| ==> !LooksLikeKey(s[i..])
    ensures Sanitize(s) == s
  {
    if s != "" {
      assert s[0..] == s;
      forall i | 0 <= i < |s| - 1 ensures !LooksLikeKey(s[1..][i..]) { assert s[1..][i..] == s[i + 1..]; }
      NothingToMask(s[1..]);
    }
  }

  lemma Base58IsAlnum(c: char)
    requires Find(c) >= 0
    ensures IsAlnum(c)
  { }

  ghost predicate AllAlnum(s: string) {
    forall i :: 0 <= i < |s| ==> IsAlnum(s[i])
  }

  lemma KeyStarts(w: string, post: string)
    requires |w| >= 51 && AllAlnum(w) && w[0] == '5'
    ensures LooksLikeKey(w + post)
  {
    var s := w + post;
    assert forall i :: 0 <= i < |w| ==> s[i] == w[i];
  }

  lemma Base58TextIsAlnum(w: string)
    requires IsBase58Text(w)
    ensures AllAlnum(w)
  {
    forall i | 0 <= i < |w| ensures IsAlnum(w[i]) { Base58IsAlnum(w[i]); }
  }

  lemma MasksKey(w: string, post: string)
    requires |w| == 51 && AllAlnum(w) && w[0] == '5'
    ensures Sanitize(w + post) == MASK + Sanitize(post)
  {
    KeyStarts(w, post);
    assert (w + post)[51..] == post;
  }

  // ---------------------------------------------------------------- keys behind other letters and digits

  /** The letters and digits at the end of a text. */
  function AlnumTail(s: string): (r: string)
    ensures |r| <= |s|
  {
    if s == "" || !IsAlnum(s[|s| - 1]) then "" else AlnumTail(s[..|s| - 1]) + [s[|s| - 1]]
  }

  lemma PrefixOfInit(s: string, n: nat)
    requires n < |s|
    ensures s == s[..|s| - 1] + [s[|s| - 1]] && s[..n] == s[..|s| - 1][..n]
  { }

  lemma {:induction false} TailSplits(s: string)
    ensures var r := AlnumTail(s);
            AllAlnum(r) && s == s[..|s| - |r|] + r && EndsWord(s[..|s| - |r|])
  {
    if s != "" && IsAlnum(s[|s| - 1]) {
      var init, last, r := s[..|s| - 1], s[|s| - 1], AlnumTail(s[..|s| - 1]);
      TailSplits(init);
      var pre := init[..|init| - |r|];
      assert AlnumTail(s) == r + [last];
      PrefixOfInit(s, |pre|);
      Associate(pre, r, [last]);
    }
  }

  /** By how many characters the last match that starts in a run of letters and digits goes on behind
      it, when at least 50 more follow: at a `5` a match takes 51. */
  function Overrun(run: string): (o: nat)
    ensures o <= 50
    decreases |run|
  {
    if run == "" then 0
    else if run[0] != '5' then Overrun(run[1..])
    else if |run| >= 51 then Overrun(run[51..])
    else 51 - |run|
  }

  /** What such a run is shown as. */
  function Masked(run: string): string
    decreases |run|
  {
    if run == "" then ""
    else if run[0] != '5' then [run[0]] + Masked(run[1..])
    else if |run| >= 51 then MASK + Masked(run[51..])
    else MASK
  }

  /** The scan of s comes by position k, and does not step over it with a match. */
  ghost predicate ScanMeets(s: string, k: nat)
    requires k <= |s|
    decreases k
  {
    k == 0 || (if LooksLikeKey(s) then k >= 51 && ScanMeets(s[51..], k - 51) else ScanMeets(s[1..], k - 1))
  }

  /** In front of a run that is long enough, a match starts at each `5` that the scan comes by. */
  lemma MatchesAtFive(run: string, w: string, post: string)
    requires AllAlnum(run) && AllAlnum(w) && |w| == 51 && run != ""
    ensures LooksLikeKey(run + (w + post)) <==> run[0] == '5'
  {
    var s := run + (w + post);
    assert s[0] == run[0];
    if run[0] == '5' {
      KeyStarts(run + w, post);
      assert run + (w + post) == (run + w) + post;
    }
  }

  /** What the scan takes from the run at a time. */
  function Stride(run: string): nat {
    if run != "" && run[0] == '5' then 51 else 1
  }

  lemma StrideInRun(run: string, w: string, post: string)
    requires AllAlnum(run) && AllAlnum(w) && |w| == 51 && run != "" && Stride(run) <= |run|
    ensures var k, s := Stride(run), run + (w + post);
            && s[k..] == run[k..] + (w + post) && AllAlnum(run[k..])
            && (LooksLikeKey(s) <==> k == 51) && (LooksLikeKey(run) <==> k == 51) && s[0] == run[0]
  {
    MatchesAtFive(run, w, post);
  }

  /** The scan over a run and the key behind it. */
  lemma {:induction false} ScanOfRun(run: string, w: string, post: string)
    requires AllAlnum(run) && AllAlnum(w) && |w| == 51
    ensures Sanitize(run + (w + post)) == Masked(run) + Sanitize(w[Overrun(run)..] + post)
    decreases |run|
  {
    if run == "" {
      assert run + (w + post) == w + post && w[0..] == w;
    } else if Stride(run) > |run| {
      ShortRun(run, w, post);
    } else {
      StrideInRun(run, w, post);
      ScanOfRun(run[Stride(run)..], w, post);
    }
  }

  lemma {:induction false} MeetsBehindRun(run: string, w: string, post: string)
    requires AllAlnum(run) && AllAlnum(w) && |w| == 51
    ensures ScanMeets(run + (w + post), |run|) <==> Overrun(run) == 0
    decreases |run|
  {
    if run != "" && Stride(run) > |run| {
      ShortRun(run, w, post);
    } else if run != "" {
      StrideInRun(run, w, post);
      MeetsBehindRun(run[Stride(run)..], w, post);
    }
  }

  lemma {:induction false} RunAlone(run: string, w: string)
    requires AllAlnum(run) && AllAlnum(w) && |w| == 51 && Overrun(run) == 0
    ensures Sanitize(run) == Masked(run)
    decreases |run|
  {
    if run != "" && Stride(run) <= |run| {
      StrideInRun(run, w, "");
      RunAlone(run[Stride(run)..], w);
    }
  }

  /** A match that starts in the run and goes on into the key. */
  lemma ShortRun(run: string, w: string, post: string)
    requires AllAlnum(run) && AllAlnum(w) && |w| == 51 && 0 < |run| < 51 && run[0] == '5'
    ensures !ScanMeets(run + (w + post), |run|)
    ensures Sanitize(run + (w + post)) == MASK + Sanitize(w[51 - |run|..] + post)
  {
    MatchesAtFive(run, w, post);
    assert (run + (w + post))[51..] == w[51 - |run|..] + post;
  }

  /** A word boundary in front does not change where the scan comes by. */
  lemma {:induction false} MeetsBehindWord(pre: string, t: string, k: nat)
    requires EndsWord(pre) && k <= |t|
    ensures ScanMeets(pre + t, |pre| + k) <==> ScanMeets(t, k)
    decreases |pre|
  {
    var s := pre + t;
    if pre == "" {
      assert s == t;
    } else {
      NoStraddling(pre, t);
      var n := if LooksLikeKey(pre) then 51 else 1;
      assert s[n..] == pre[n..] + t;
      MeetsBehindWord(pre[n..], t, k);
    }
  }

  /** What a WIF key looks like. */
  ghost predicate KeyShape(w: string) {
    |w| == 51 && AllAlnum(w) && w[0] == '5'
  }

  lemma WifHasKeyShape(h: Hashes, hex: string)
    requires Unhexlify(hex).Some? && |Unhexlify(hex).value| == 32
    ensures CheckEncode(h, 0x80, hex).Some? && KeyShape(CheckEncode(h, 0x80, hex).value)
  {
    WifShape(h, hex);
    Base58TextIsAlnum(CheckEncode(h, 0x80, hex).value);
  }

  lemma SplitText(text: string, t: string)
    ensures var run := AlnumTail(text); text + t == text[..|text| - |run|] + (run + t)
  {
    TailSplits(text);
    Associate(text[..|text| - |AlnumTail(text)|], AlnumTail(text), t);
  }

  /** The scan over any text and the key behind it. */
  lemma ScanOfText(text: string, w: string, post: string)
    requires KeyShape(w)
    ensures var run := AlnumTail(text);
            && (ScanMeets(text + (w + post), |text|) <==> Overrun(run) == 0)
            && Sanitize(text + (w + post)) ==
                 Sanitize(text[..|text| - |run|]) + (Masked(run) + Sanitize(w[Overrun(run)..] + post))
  {
    TailSplits(text);
    var run := AlnumTail(text);
    var pre := text[..|text| - |run|];
    SplitText(text, w + post);
    ScanOfRun(run, w, post);
    MeetsBehindRun(run, w, post);
    MeetsBehindWord(pre, run + (w + post), |run|);
    SplitsAtWord(pre, run + (w + post));
  }

  lemma TextAlone(text: string, w: string)
    requires KeyShape(w) && Overrun(AlnumTail(text)) == 0
    ensures Sanitize(text) == Sanitize(text[..|text| - |AlnumTail(text)|]) + Masked(AlnumTail(text))
  {
    TailSplits(text);
    var run := AlnumTail(text);
    var pre := text[..|text| - |run|];
    assert text == pre + run;
    SplitsAtWord(pre, run);
    RunAlone(run, w);
  }

  lemma TextIsMasked(text: string, w: string, post: string)
    requires KeyShape(w) && Overrun(AlnumTail(text)) == 0
    ensures Sanitize(text + (w + post)) == Sanitize(text) + (MASK + Sanitize(post))
  {
    var run := AlnumTail(text);
    ScanOfText(text, w, post);
    assert w[0..] == w;
    MasksKey(w, post);
    TextAlone(text, w);
    Associate(Sanitize(text[..|text| - |run|]), Masked(run), MASK + Sanitize(post));
  }

  /** A key behind any text: the scan starts a match exactly at the key, which is then masked as a whole
      with the texts around it treated on their own, if and only if no match that starts in the letters
      and digits glued to its front goes on into it. */
  lemma WifIsMasked(h: Hashes, hex: string, text: string, post: string)
    requires Unhexlify(hex).Some? && |Unhexlify(hex).value| == 32
    ensures CheckEncode(h, 0x80, hex).Some? && |CheckEncode(h, 0x80, hex).value| == 51
    ensures var w := CheckEncode(h, 0x80, hex).value;
            && LooksLikeKey(w + post)
            && (ScanMeets(text + (w + post), |text|) <==> Overrun(AlnumTail(text)) == 0)
            && (Overrun(AlnumTail(text)) == 0 ==>
                  Sanitize(text + (w + post)) == Sanitize(text) + ("5xxxx" + Sanitize(post)))
  {
    WifHasKeyShape(h, hex);
    var w := CheckEncode(h, 0x80, hex).value;
    KeyStarts(w, post);
    ScanOfText(text, w, post);
    if Overrun(AlnumTail(text)) == 0 { TextIsMasked(text, w, post); }
  }

  /** Letters and digits that are too few for a match are passed over. */
  lemma {:induction false} TooShortToMatch(s: string, post: string)
    requires |s| < 51 && EndsKey(post)
    ensures Sanitize(s + post) == s + Sanitize(post)
  {
    if s == "" {
      assert s + post == post;
    } else {
      var t := s + post;
      assert post != "" ==> t[|s|] == post[0];
      assert t[1..] == s[1..] + post;
      TooShortToMatch(s[1..], post);
    }
  }

  /** A word boundary on the right: nothing behind, or a character that is not alphanumeric. */
  ghost predicate EndsKey(post: string) {
    post == "" || !IsAlnum(post[0])
  }

  lemma TextLeaks(text: string, w: string, post: string)
    requires KeyShape(w) && Overrun(AlnumTail(text)) > 0
    ensures var run := AlnumTail(text);
            var left, shown := w[Overrun(run)..], Sanitize(text[..|text| - |run|]) + Masked(run);
            && Sanitize(text + (w + post)) == shown + Sanitize(left + post)
            && (EndsKey(post) ==> Sanitize(text + (w + post)) == shown + (left + Sanitize(post)))
  {
    var run := AlnumTail(text);
    var left := w[Overrun(run)..];
    ScanOfText(text, w, post);
    Associate(Sanitize(text[..|text| - |run|]), Masked(run), Sanitize(left + post));
    if EndsKey(post) { TooShortToMatch(left, post); }
  }

  /** The failing family: when a match goes on into the key, it takes only the first of its letters. The
      others are left to the rest of the scan, and shown as they are when the key ends a word. */
  lemma GluedFiveLeaks(h: Hashes, hex: string, text: string, post: string)
    requires Unhexlify(hex).Some? && |Unhexlify(hex).value| == 32
    requires Overrun(AlnumTail(text)) > 0
    ensures CheckEncode(h, 0x80, hex).Some? && |CheckEncode(h, 0x80, hex).value| == 51
    ensures var w, run := CheckEncode(h, 0x80, hex).value, AlnumTail(text);
            var left, shown := w[Overrun(run)..], Sanitize(text[..|text| - |run|]) + Masked(run);
            && Sanitize(text + (w + post)) == shown + Sanitize(left + post)
            && (EndsKey(post) ==> Sanitize(text + (w + post)) == shown + (left + Sanitize(post)))
  {
    WifHasKeyShape(h, hex);
    TextLeaks(text, CheckEncode(h, 0x80, hex).value, post);
  }

  /** One of its members: a single `5` in front leaves the last letter of the key. */
  lemma OneFiveLeaks(h: Hashes, hex: string)
    requires Unhexlify(hex).Some? && |Unhexlify(hex).value| == 32
    ensures CheckEncode(h, 0x80, hex).Some? && |CheckEncode(h, 0x80, hex).value| == 51
    ensures var w := CheckEncode(h, 0x80, hex).value; Sanitize("5" + w) == "5xxxx" + [w[50]]
  {
    WifHasKeyShape(h, hex);
    FiveLeaks(CheckEncode(h, 0x80, hex).value);
  }

  lemma FiveLeaks(w: string)
    requires KeyShape(w)
    ensures Sanitize("5" + w) == MASK + [w[50]]
  {
    ScanOfRun("5", w, "");
    assert Overrun("5") == 50 && Masked("5") == MASK;
    assert w[50..] == [w[50]] && w + "" == w && w[50..] + "" == w[50..];
    assert Sanitize([w[50]]) == [w[50]] + Sanitize([w[50]][1..]);
  }
}
