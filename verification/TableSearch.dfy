/** When a table row matches a search. */
module TableSearch {

  datatype Search = Search(text: string, regex: bool, smart: bool, caseInsensitive: bool)

  /** How characters compare without case, and how a search that is a regular expression or contains a
      double quote tests a text; both are arbitrary. */
  datatype Matcher = Matcher(fold: char -> char, other: (Search, string) -> bool)

  /** Length of the run of characters before the first space. */
  function RunLength(s: string): (k: nat)
    ensures k <= |s| && (forall i :: 0 <= i < k ==> s[i] != ' ') && (k < |s| ==> s[k] == ' ')
  {
    if s == "" || s[0] == ' ' then 0 else 1 + RunLength(s[1..])
  }

  function Words(s: string): seq<string>
    decreases |s|
  {
    if s == "" then []
    else if s[0] == ' ' then Words(s[1..])
    else [s[..RunLength(s)]] + Words(s[RunLength(s)..])
  }

  predicate SameChar(m: Matcher, a: char, b: char, caseInsensitive: bool) {
    a == b || (caseInsensitive && m.fold(a) == m.fold(b))
  }

  predicate FoundAt(m: Matcher, data: string, k: nat, word: string, caseInsensitive: bool) {
    k + |word| <= |data| && forall i :: 0 <= i < |word| ==> SameChar(m, data[k + i], word[i], caseInsensitive)
  }

  predicate Contains(m: Matcher, data: string, word: string, caseInsensitive: bool) {
    exists k :: 0 <= k <= |data| && FoundAt(m, data, k, word, caseInsensitive)
  }

  /** The dot of a regular expression does not pass a line terminator. */
  predicate OneLine(data: string) {
    forall i :: 0 <= i < |data| ==> data[i] !in {'\n', '\r', '\U{2028}', '\U{2029}'}
  }

  /** A search for plain words. */
  predicate IsPlain(s: Search) {
    !s.regex && '\"' !in s.text
  }

  /** The test of the regular expression that is built from a search. */
  predicate Matches(m: Matcher, s: Search, data: string) {
    if !IsPlain(s) then m.other(s, data)
    else if s.smart then OneLine(data) && forall w <- Words(s.text) :: Contains(m, data, w, s.caseInsensitive)
    else Contains(m, data, s.text, s.caseInsensitive)
  }

  /** An empty search lets everything pass without a test. */
  predicate Accepts(m: Matcher, s: Search, data: string) {
    s.text == "" || Matches(m, s, data)
  }

  /** s[i..j] is a longest run without spaces. */
  ghost predicate IsWordAt(s: string, i: int, j: int) {
    && 0 <= i < j <= |s|
    && (i > 0 ==> s[i - 1] == ' ') && (j < |s| ==> s[j] == ' ')
    && forall k :: i <= k < j ==> s[k] != ' '
  }

  ghost predicate IsWord(s: string, w: string) {
    exists i, j :: IsWordAt(s, i, j) && s[i..j] == w
  }

  /** The words of a text are its longest runs without spaces. */
  lemma {:induction false} WordsAreRuns(s: string, w: string)
    ensures w in Words(s) <==> IsWord(s, w)
    decreases |s|
  {
    if s != "" {
      var k := WordsInFront(s, w);
      RunsInFront(s, k, w);
      WordsAreRuns(s[k..], w);
    } else {
      assert !IsWord(s, w);
    }
  }

  /** The words of a text in terms of those of its rest. */
  lemma WordsInFront(s: string, w: string) returns (k: int)
    requires s != ""
    ensures Front(s, k) && (w in Words(s) <==> w in Words(s[k..]) || (s[0] != ' ' && w == s[..k]))
  {
    k := if s[0] == ' ' then 1 else RunLength(s);
    assert s[0] != ' ' ==> Words(s) == [s[..k]] + Words(s[k..]);
  }

  /** The first k characters are a space, or a first word. */
  ghost predicate Front(s: string, k: int) {
    && 0 < k <= |s|
    && if s[0] == ' ' then k == 1 else (forall i :: 0 <= i < k ==> s[i] != ' ') && (k < |s| ==> s[k] == ' ')
  }

  /** A longest run is the first one, or one of the rest. */
  lemma RunInFront(s: string, k: int, i: int, j: int)
    requires Front(s, k) && IsWordAt(s, i, j)
    ensures i < k ==> s[0] != ' ' && i == 0 && j == k
    ensures i >= k ==> IsWordAt(s[k..], i - k, j - k) && s[k..][i - k..j - k] == s[i..j]
  {
    if i >= k {
      WordInRest(s, k, i - k, j - k);
    }
  }

  lemma RunIsWord(s: string, i: int, j: int)
    requires IsWordAt(s, i, j)
    ensures IsWord(s, s[i..j])
  { }

  lemma RunsInFront(s: string, k: int, w: string)
    requires Front(s, k)
    ensures IsWord(s, w) <==> IsWord(s[k..], w) || (s[0] != ' ' && w == s[..k])
  {
    if IsWord(s, w) {
      var i, j :| IsWordAt(s, i, j) && s[i..j] == w;
      RunInFront(s, k, i, j);
    }
    if IsWord(s[k..], w) {
      var i, j :| IsWordAt(s[k..], i, j) && s[k..][i..j] == w;
      WordInRest(s, k, i, j);
      RunIsWord(s, i + k, j + k);
    }
    if s[0] != ' ' {
      assert IsWordAt(s, 0, k);
      RunIsWord(s, 0, k);
    }
  }

  /** Behind a space, or behind a whole word, the words are those of the rest. */
  lemma WordInRest(s: string, k: nat, i: int, j: int)
    requires 0 < k <= |s| && (s[k - 1] == ' ' || k == |s| || s[k] == ' ')
    ensures IsWordAt(s[k..], i, j) ==> IsWordAt(s, i + k, j + k) && s[i + k..j + k] == s[k..][i..j]
    ensures 0 <= i && IsWordAt(s, i + k, j + k) ==> IsWordAt(s[k..], i, j)
  {
    var rest := s[k..];
    assert forall n :: 0 <= n < |rest| ==> rest[n] == s[n + k];
    if IsWordAt(rest, i, j) {
      assert s[i + k..j + k] == rest[i..j];
      assert i == 0 ==> s[k] != ' ';
      forall n | i + k <= n < j + k ensures s[n] != ' ' { assert rest[n - k] == s[n]; }
    }
  }

  // ---------------------------------------------------------------- what a plain search means

  function Folded(m: Matcher, s: string): string {
    seq(|s|, i requires 0 <= i < |s| => m.fold(s[i]))
  }

  /** The part of the data at k is the word, or the same without case. */
  ghost predicate OccursAt(m: Matcher, data: string, k: int, word: string, caseInsensitive: bool) {
    && 0 <= k && k + |word| <= |data|
    && var part := data[k..k + |word|];
       if caseInsensitive then Folded(m, part) == Folded(m, word) else part == word
  }

  ghost predicate Occurs(m: Matcher, data: string, word: string, caseInsensitive: bool) {
    exists k :: OccursAt(m, data, k, word, caseInsensitive)
  }

  ghost predicate NoLineEnds(data: string) {
    forall i :: 0 <= i < |data| ==>
      data[i] != '\n' && data[i] != '\r' && data[i] != '\U{2028}' && data[i] != '\U{2029}'
  }

  /** A smart search for the words in the text, in any order and on one line, or a search for the text. */
  ghost predicate Means(m: Matcher, s: Search, data: string) {
    if s.smart then NoLineEnds(data) && forall w :: IsWord(s.text, w) ==> Occurs(m, data, w, s.caseInsensitive)
    else Occurs(m, data, s.text, s.caseInsensitive)
  }

  lemma FoundIsEqual(m: Matcher, data: string, k: int, word: string, caseInsensitive: bool)
    ensures 0 <= k && FoundAt(m, data, k, word, caseInsensitive) <==> OccursAt(m, data, k, word, caseInsensitive)
  {
    if 0 <= k && k + |word| <= |data| {
      var part := data[k..k + |word|];
      if 0 <= k && FoundAt(m, data, k, word, caseInsensitive) {
        forall i | 0 <= i < |word| ensures SameChar(m, part[i], word[i], caseInsensitive) {
          assert SameChar(m, data[k + i], word[i], caseInsensitive);
        }
      }
      if OccursAt(m, data, k, word, caseInsensitive) {
        forall i | 0 <= i < |word| ensures SameChar(m, data[k + i], word[i], caseInsensitive) {
          assert part[i] == data[k + i];
          assert caseInsensitive ==> Folded(m, part)[i] == Folded(m, word)[i];
        }
      }
    }
  }

  lemma ContainsIsOccurs(m: Matcher, data: string, word: string, caseInsensitive: bool)
    ensures Contains(m, data, word, caseInsensitive) <==> Occurs(m, data, word, caseInsensitive)
  {
    if Contains(m, data, word, caseInsensitive) {
      var k :| 0 <= k <= |data| && FoundAt(m, data, k, word, caseInsensitive);
      FoundIsEqual(m, data, k, word, caseInsensitive);
    }
    if Occurs(m, data, word, caseInsensitive) {
      var k :| OccursAt(m, data, k, word, caseInsensitive);
      FoundIsEqual(m, data, k, word, caseInsensitive);
    }
  }

  /** A plain search accepts what it means, and without a text everything. */
  lemma PlainSearchMeans(m: Matcher, s: Search, data: string)
    requires IsPlain(s)
    ensures Accepts(m, s, data) <==> s.text == "" || Means(m, s, data)
  {
    ContainsIsOccurs(m, data, s.text, s.caseInsensitive);
    forall w ensures w in Words(s.text) <==> IsWord(s.text, w) { WordsAreRuns(s.text, w); }
    forall w ensures Contains(m, data, w, s.caseInsensitive) <==> Occurs(m, data, w, s.caseInsensitive) {
      ContainsIsOccurs(m, data, w, s.caseInsensitive);
    }
  }

  lemma {:induction false} WordsOfBoth(a: string, b: string)
    ensures Words(a + " " + b) == Words(a) + Words(b)
    decreases |a|
  {
    var s := a + " " + b;
    if a == "" {
      assert s[1..] == b;
    } else {
      var k := if a[0] == ' ' then 1 else RunLength(a);
      if a[0] != ' ' { RunStaysIn(a, " " + b); }
      assert s == a + (" " + b) && s[..k] == a[..k] && s[k..] == a[k..] + " " + b;
      WordsOfBoth(a[k..], b);
    }
  }

  lemma {:induction false} RunStaysIn(a: string, t: string)
    requires t != "" && t[0] == ' '
    ensures RunLength(a + t) == RunLength(a)
  {
    if a != "" && a[0] != ' ' {
      assert (a + t)[1..] == a[1..] + t;
      RunStaysIn(a[1..], t);
    } else if a == "" {
      assert a + t == t;
    }
  }

  /** A smart search for two texts accepts what the searches for each accept, as long as it is one line. */
  lemma SmartSearchSplits(m: Matcher, s: Search, a: string, b: string, data: string)
    requires s.smart && !s.regex && '\"' !in a && '\"' !in b
    ensures Accepts(m, s.(text := a + " " + b), data) <==>
            OneLine(data) && Accepts(m, s.(text := a), data) && Accepts(m, s.(text := b), data)
  {
    WordsOfBoth(a, b);
    var ws := Words(a) + Words(b);
    assert forall w :: w in ws <==> w in Words(a) || w in Words(b);
    assert a + " " + b != "" && '\"' !in a + " " + b;
  }

  // ---------------------------------------------------------------- longer searches match less

  lemma ContainsPrefix(m: Matcher, data: string, short: string, long: string, caseInsensitive: bool)
    requires short <= long && Contains(m, data, long, caseInsensitive)
    ensures Contains(m, data, short, caseInsensitive)
  {
    var k :| 0 <= k <= |data| && FoundAt(m, data, k, long, caseInsensitive);
    assert forall i :: 0 <= i < |short| ==> short[i] == long[i];
    assert FoundAt(m, data, k, short, caseInsensitive);
  }

  lemma {:induction false} RunOfPrefix(short: string, long: string)
    requires short <= long
    ensures if RunLength(short) < |short| then RunLength(long) == RunLength(short)
            else RunLength(long) >= RunLength(short)
  {
    if short != "" {
      assert short[0] == long[0];
      RunOfPrefix(short[1..], long[1..]);
    }
  }

  /** Every word of a text is continued by a word of any longer text. */
  lemma {:induction false} WordContinues(short: string, long: string, w: string)
    requires short <= long && w in Words(short)
    ensures exists v :: v in Words(long) && w <= v
    decreases |short|
  {
    assert short[0] == long[0];
    if short[0] == ' ' {
      WordContinues(short[1..], long[1..], w);
    } else {
      var k, n := RunLength(short), RunLength(long);
      RunOfPrefix(short, long);
      if k < |short| {
        if w == short[..k] {
          assert Words(long)[0] == long[..n] && long[..n] in Words(long);
          assert w <= long[..n];
        } else {
          WordContinues(short[k..], long[n..], w);
          var v :| v in Words(long[n..]) && w <= v;
          assert Words(long) == [long[..n]] + Words(long[n..]);
          assert v in Words(long);
        }
      } else {
        assert short[k..] == "" && Words(short) == [short[..k]];
        assert w == short;
        assert Words(long)[0] == long[..n] && long[..n] in Words(long);
        assert w <= long[..n];
      }
    }
  }

  /** A row that matches a plain search matches every search that it continues: the reason why the
      rows shown can be refined while the user types. */
  lemma LongerMatchesLess(m: Matcher, before: Search, now: Search, data: string)
    requires IsPlain(now) && before == now.(text := before.text) && before.text <= now.text
    requires Accepts(m, now, data)
    ensures Accepts(m, before, data)
  {
    if before.text != "" {
      assert '\"' !in before.text;
      if now.smart {
        forall w <- Words(before.text) ensures Contains(m, data, w, now.caseInsensitive) {
          WordContinues(before.text, now.text, w);
          var v :| v in Words(now.text) && w <= v;
          ContainsPrefix(m, data, w, v, now.caseInsensitive);
        }
      } else {
        ContainsPrefix(m, data, before.text, now.text, now.caseInsensitive);
      }
    }
  }

  /** A regular expression and a continuation of it, with the meaning of these two expressions. */
  function RegexExample(): (Matcher, Search, Search) {
    (Matcher(c => c, (s: Search, d: string) => if s.text == "a|b" then 'a' in d || 'b' in d else 'a' in d),
     Search("a", true, false, false), Search("a|b", true, false, false))
  }

  /** It can match more when it is continued: `a|b` continues `a`. */
  lemma RegexMatchesMore()
    ensures var (m, before, now) := RegexExample();
            before.text <= now.text && Accepts(m, now, "b") && !Accepts(m, before, "b")
  { }
}
