/** Theme ranking, `extract_themes`. The tagger is not modelled: each token
    arrives with its text, its part of speech and its stop-word flag. */
module Themes {
  import opened Chars

  /** A token: `token.text`, `token.pos_` and `token.is_stop`. */
  datatype Token = Token(text: string, pos: string, isStop: bool)

  /** How many themes the script asks for (`top_n=9`). */
  const DefaultTopN: int := 9

  /** Tokens that become keywords: common nouns that are not stop words. */
  predicate Qualifies(t: Token) { t.pos == "NOUN" && !t.isStop }

  /** The keywords the tokens can contribute. */
  ghost function Vocabulary(tokens: seq<Token>): set<string>
  {
    set i | 0 <= i < |tokens| && Qualifies(tokens[i]) :: Lower(tokens[i].text)
  }

  /** The keyword list: the lowered text of each qualifying token, in order. */
  function Keywords(tokens: seq<Token>): (ks: seq<string>)
    ensures |ks| <= |tokens|
    ensures forall k :: k in ks <==> k in Vocabulary(tokens)
    ensures forall k :: Count(ks, k) == |Occurrences(tokens, k)|
  {
    if tokens == [] then []
    else
      var init := tokens[..|tokens| - 1];
      var last := tokens[|tokens| - 1];
      VocabularySnoc(init, last);
      assert init + [last] == tokens;
      var ks0 := Keywords(init);
      var ks := if Qualifies(last) then ks0 + [Lower(last.text)] else ks0;
      assert forall k :: Count(ks, k) == |Occurrences(tokens, k)| by {
        forall k ensures Count(ks, k) == |Occurrences(tokens, k)| {
          OccurrencesSnoc(init, last, k);
          if Qualifies(last) {
            CountSnoc(ks0, Lower(last.text), k);
          }
        }
      }
      ks
  }

  /** The keyword list is built token by token: the keywords of `a + b` are
      those of `a` followed by those of `b`, so they keep token order. */
  lemma {:induction false} KeywordsAppend(a: seq<Token>, b: seq<Token>)
    ensures Keywords(a + b) == Keywords(a) + Keywords(b)
    decreases |b|
  {
    if b == [] {
      assert a + b == a;
    } else {
      var p := b[..|b| - 1];
      assert (a + b)[..|a + b| - 1] == a + p;
      assert (a + b)[|a + b| - 1] == b[|b| - 1];
      KeywordsAppend(a, p);
    }
  }

  /** The positions of the qualifying tokens whose lowered text is `k`. */
  ghost function Occurrences(tokens: seq<Token>, k: string): set<int>
  {
    set i | 0 <= i < |tokens| && Qualifies(tokens[i]) && Lower(tokens[i].text) == k
  }

  lemma OccurrencesSnoc(tokens: seq<Token>, t: Token, k: string)
    ensures |Occurrences(tokens + [t], k)|
         == |Occurrences(tokens, k)| + (if Qualifies(t) && Lower(t.text) == k then 1 else 0)
  {
    var all := tokens + [t];
    assert forall i :: 0 <= i < |tokens| ==> all[i] == tokens[i];
    assert all[|tokens|] == t;
    assert |tokens| !in Occurrences(tokens, k);
    assert Occurrences(all, k)
        == Occurrences(tokens, k) + (if Qualifies(t) && Lower(t.text) == k then {|tokens|} else {});
  }

  lemma CountSnoc(ks: seq<string>, x: string, k: string)
    ensures Count(ks + [x], k) == Count(ks, k) + (if x == k then 1 else 0)
  {
    assert multiset(ks + [x]) == multiset(ks) + multiset{x};
  }

  lemma VocabularySnoc(tokens: seq<Token>, t: Token)
    ensures Vocabulary(tokens + [t])
         == Vocabulary(tokens) + (if Qualifies(t) then {Lower(t.text)} else {})
  {
    var all := tokens + [t];
    forall k | k in Vocabulary(all)
      ensures k in Vocabulary(tokens) + (if Qualifies(t) then {Lower(t.text)} else {})
    {
      var i :| 0 <= i < |all| && Qualifies(all[i]) && Lower(all[i].text) == k;
      if i < |tokens| {
        assert tokens[i] == all[i];
      }
    }
    forall k | k in Vocabulary(tokens) ensures k in Vocabulary(all) {
      var i :| 0 <= i < |tokens| && Qualifies(tokens[i]) && Lower(tokens[i].text) == k;
      assert all[i] == tokens[i];
    }
    if Qualifies(t) {
      assert all[|tokens|] == t;
    }
  }

  /** How often `k` occurs in the keyword list (`Counter(keywords)[k]`). */
  function Count(ks: seq<string>, k: string): (n: nat)
    ensures n > 0 <==> k in ks
    ensures n <= |ks|
  {
    multiset(ks)[k]
  }

  /** The position of the first occurrence of `k`, or `|ks|` when absent. */
  function FirstIndex(ks: seq<string>, k: string): (r: nat)
    ensures r <= |ks|
    ensures r < |ks| <==> k in ks
    ensures r < |ks| ==> ks[r] == k
    ensures forall j :: 0 <= j < r ==> ks[j] != k
  {
    if ks == [] then 0
    else if ks[0] == k then 0
    else 1 + FirstIndex(ks[1..], k)
  }

  /** The order of `most_common`: higher count first, and among equal counts
      the keyword seen first (a `Counter` keeps first-insertion order and the
      ranking is stable). */
  predicate Before(ks: seq<string>, a: string, b: string)
  {
    || Count(ks, a) > Count(ks, b)
    || (Count(ks, a) == Count(ks, b) && FirstIndex(ks, a) < FirstIndex(ks, b))
  }

  /** `Before` is a strict total order on the keywords. */
  lemma BeforeIsStrictTotalOrder(ks: seq<string>, a: string, b: string, c: string)
    requires a in ks && b in ks && c in ks
    ensures !Before(ks, a, a)
    ensures Before(ks, a, b) && Before(ks, b, c) ==> Before(ks, a, c)
    ensures a != b ==> Before(ks, a, b) || Before(ks, b, a)
  {
  }

  /** `cands` lists keywords of `ks` in order of first occurrence. */
  predicate Ranked(ks: seq<string>, cands: seq<string>)
  {
    && (forall c :: c in cands ==> c in ks)
    && (forall i, j :: 0 <= i < j < |cands| ==> FirstIndex(ks, cands[i]) < FirstIndex(ks, cands[j]))
  }

  /** The distinct keywords in order of first occurrence (the keys of the
      `Counter`). */
  function Distinct(ks: seq<string>): (d: seq<string>)
    ensures forall k :: k in d <==> k in ks
    ensures Ranked(ks, d)
  {
    if ks == [] then []
    else
      var init := ks[..|ks| - 1];
      var last := ks[|ks| - 1];
      var d := Distinct(init);
      assert init + [last] == ks;
      DistinctSnoc(init, last, d);
      if last in d then d else d + [last]
  }

  /** One step of `Counter` insertion: a keyword already counted keeps its
      place, a new one goes to the end. */
  lemma DistinctSnoc(init: seq<string>, last: string, d: seq<string>)
    requires forall k :: k in d <==> k in init
    requires Ranked(init, d)
    ensures last in d ==> Ranked(init + [last], d)
    ensures last !in d ==> Ranked(init + [last], d + [last])
  {
    var ks := init + [last];
    forall k | k in init ensures FirstIndex(ks, k) == FirstIndex(init, k) {
      FirstIndexPrefix(init, last, k);
    }
    if last !in d {
      var d' := d + [last];
      assert FirstIndex(ks, last) == |ks| - 1;
      forall i, j | 0 <= i < j < |d'|
        ensures FirstIndex(ks, d'[i]) < FirstIndex(ks, d'[j])
      {
        assert d'[i] == d[i] && d[i] in init;
        if j < |d| {
          assert d'[j] == d[j] && d[j] in init;
        }
      }
    }
  }

  lemma FirstIndexPrefix(init: seq<string>, last: string, k: string)
    requires k in init
    ensures FirstIndex(init + [last], k) == FirstIndex(init, k)
  {
    var all := init + [last];
    var r := FirstIndex(init, k);
    var r' := FirstIndex(all, k);
    assert all[r] == k;
  }

  /** Index of the best remaining candidate: the highest count, the earliest
      among equal counts (what `max` with a key, or the heap in `nlargest`,
      picks). */
  function BestIndex(ks: seq<string>, cands: seq<string>): (b: nat)
    requires cands != [] && Ranked(ks, cands)
    ensures b < |cands|
    ensures forall i :: 0 <= i < |cands| && i != b ==> Before(ks, cands[b], cands[i])
  {
    if |cands| == 1 then 0
    else
      var rest := cands[1..];
      assert Ranked(ks, rest) by {
        forall i, j | 0 <= i < j < |rest|
          ensures FirstIndex(ks, rest[i]) < FirstIndex(ks, rest[j])
        {
          assert rest[i] == cands[i + 1] && rest[j] == cands[j + 1];
        }
      }
      var k := BestIndex(ks, rest);
      assert forall i :: 1 <= i < |cands| ==> cands[i] == rest[i - 1];
      if Count(ks, cands[0]) >= Count(ks, cands[k + 1]) then 0 else k + 1
  }

  /** Position `i` of `cands` with position `b` removed. */
  function Skip(i: nat, b: nat): nat { if i < b then i else i + 1 }

  lemma RemoveIndex(cands: seq<string>, b: nat)
    requires b < |cands|
    ensures var rest := cands[..b] + cands[b + 1..];
      && |rest| == |cands| - 1
      && forall i :: 0 <= i < |rest| ==> rest[i] == cands[Skip(i, b)]
  {
  }

  /** Removing one candidate keeps the rest ranked. */
  lemma RemoveRanked(ks: seq<string>, cands: seq<string>, b: nat)
    requires Ranked(ks, cands) && b < |cands|
    ensures var rest := cands[..b] + cands[b + 1..];
      && |rest| == |cands| - 1
      && Ranked(ks, rest)
      && forall c :: c in rest <==> c in cands && c != cands[b]
  {
    RemoveIndex(cands, b);
    RemoveKeepsOrder(ks, cands, b);
    RemoveKeepsOthers(ks, cands, b);
    RemoveDropsOne(ks, cands, b);
  }

  lemma RemoveKeepsOrder(ks: seq<string>, cands: seq<string>, b: nat)
    requires Ranked(ks, cands) && b < |cands|
    ensures Ranked(ks, cands[..b] + cands[b + 1..])
  {
    var rest := cands[..b] + cands[b + 1..];
    RemoveIndex(cands, b);
    forall i, j | 0 <= i < j < |rest|
      ensures FirstIndex(ks, rest[i]) < FirstIndex(ks, rest[j])
    {
      assert rest[i] == cands[Skip(i, b)] && rest[j] == cands[Skip(j, b)];
    }
    forall c | c in rest ensures c in ks {
      var i :| 0 <= i < |rest| && rest[i] == c;
      assert cands[Skip(i, b)] == c;
    }
  }

  lemma RemoveKeepsOthers(ks: seq<string>, cands: seq<string>, b: nat)
    requires b < |cands|
    ensures forall c :: c in cands && c != cands[b] ==> c in cands[..b] + cands[b + 1..]
  {
    var rest := cands[..b] + cands[b + 1..];
    RemoveIndex(cands, b);
    forall c | c in cands && c != cands[b] ensures c in rest {
      var i :| 0 <= i < |cands| && cands[i] == c;
      var i' := if i < b then i else i - 1;
      assert rest[i'] == cands[Skip(i', b)] == c;
    }
  }

  lemma RemoveDropsOne(ks: seq<string>, cands: seq<string>, b: nat)
    requires Ranked(ks, cands) && b < |cands|
    ensures forall c :: c in cands[..b] + cands[b + 1..] ==> c in cands && c != cands[b]
  {
    var rest := cands[..b] + cands[b + 1..];
    RemoveIndex(cands, b);
    forall c | c in rest ensures c in cands && c != cands[b] {
      var i :| 0 <= i < |rest| && rest[i] == c;
      var i' := Skip(i, b);
      assert cands[i'] == c && i' != b;
      if i' < b {
        assert FirstIndex(ks, cands[i']) < FirstIndex(ks, cands[b]);
      } else {
        assert FirstIndex(ks, cands[b]) < FirstIndex(ks, cands[i']);
      }
    }
  }

  function Min(a: int, b: int): int { if a <= b then a else b }

  /** The best candidate ranks before every other candidate left. */
  lemma BestBeatsRest(ks: seq<string>, cands: seq<string>, b: nat, tail: seq<string>)
    requires b < |cands|
    requires forall i :: 0 <= i < |cands| && i != b ==> Before(ks, cands[b], cands[i])
    requires forall x :: x in tail ==> x in cands && x != cands[b]
    ensures forall x :: x in tail ==> Before(ks, cands[b], x)
  {
    forall x | x in tail ensures Before(ks, cands[b], x) {
      var i :| 0 <= i < |cands| && cands[i] == x;
    }
  }

  /** The best candidate followed by a sorted selection is sorted. */
  lemma PrependSorted(ks: seq<string>, best: string, tail: seq<string>)
    requires forall x :: x in tail ==> Before(ks, best, x)
    requires forall i, j :: 0 <= i < j < |tail| ==> Before(ks, tail[i], tail[j])
    ensures var r := [best] + tail; forall i, j :: 0 <= i < j < |r| ==> Before(ks, r[i], r[j])
  {
    var r := [best] + tail;
    forall i, j | 0 <= i < j < |r| ensures Before(ks, r[i], r[j]) {
      assert r[j] == tail[j - 1];
      if i > 0 {
        assert r[i] == tail[i - 1];
      }
    }
  }

  /** Nothing left out of `[best] + tail` ranks before anything in it. */
  lemma PrependMaximal(ks: seq<string>, cands: seq<string>, best: string, rest: seq<string>, tail: seq<string>)
    requires forall c :: c in rest <==> c in cands && c != best
    requires forall c :: c in cands && c != best ==> Before(ks, best, c)
    requires forall c, x :: c in rest && c !in tail && x in tail ==> Before(ks, x, c)
    ensures var r := [best] + tail;
      forall c, x :: c in cands && c !in r && x in r ==> Before(ks, x, c)
  {
    var r := [best] + tail;
    forall c, x | c in cands && c !in r && x in r ensures Before(ks, x, c) {
      if x != best {
        assert x in tail && c in rest;
      }
    }
  }

  /** `most_common(n)` over ranked candidates: the `n` best, best first. */
  function TopN(ks: seq<string>, cands: seq<string>, n: int): (r: seq<string>)
    requires Ranked(ks, cands)
    ensures |r| == if n <= 0 then 0 else Min(n, |cands|)
    ensures forall x :: x in r ==> x in cands
    ensures forall i, j :: 0 <= i < j < |r| ==> Before(ks, r[i], r[j])
    ensures forall c, x :: c in cands && c !in r && x in r ==> Before(ks, x, c)
    decreases |cands|
  {
    if n <= 0 || cands == [] then []
    else
      var b := BestIndex(ks, cands);
      var rest := cands[..b] + cands[b + 1..];
      RemoveRanked(ks, cands, b);
      var tail := TopN(ks, rest, n - 1);
      BestBeatsRest(ks, cands, b, tail);
      PrependSorted(ks, cands[b], tail);
      assert forall c :: c in cands && c != cands[b] ==> Before(ks, cands[b], c);
      PrependMaximal(ks, cands, cands[b], rest, tail);
      [cands[b]] + tail
  }

  /** What `most_common(n)` promises: `n` (or all) of the candidates, best
      first, and no candidate left out that ranks before one kept. */
  ghost predicate IsTopSelection(ks: seq<string>, cands: seq<string>, n: int, r: seq<string>)
  {
    && |r| == (if n <= 0 then 0 else Min(n, |cands|))
    && (forall x :: x in r ==> x in cands)
    && (forall i, j :: 0 <= i < j < |r| ==> Before(ks, r[i], r[j]))
    && (forall c, x :: c in cands && c !in r && x in r ==> Before(ks, x, c))
  }

  /** Two selections meeting that promise agree from position `i` onwards
      once they agree before it. */
  lemma {:induction false} TopSelectionAgreesFrom(ks: seq<string>, cands: seq<string>, n: int, r1: seq<string>, r2: seq<string>, i: nat)
    requires forall c :: c in cands ==> c in ks
    requires IsTopSelection(ks, cands, n, r1) && IsTopSelection(ks, cands, n, r2)
    requires i <= |r1| && r1[..i] == r2[..i]
    ensures r1 == r2
    decreases |r1| - i
  {
    if i < |r1| {
      var x, y := r1[i], r2[i];
      if x != y {
        BeforeIsStrictTotalOrder(ks, x, y, x);
        if Before(ks, x, y) {
          SelectionHeadUnbeaten(ks, cands, n, r2, r1, i);
        } else {
          SelectionHeadUnbeaten(ks, cands, n, r1, r2, i);
        }
      }
      assert r1[..i + 1] == r2[..i + 1] by {
        assert r1[..i + 1] == r1[..i] + [x];
        assert r2[..i + 1] == r2[..i] + [y];
      }
      TopSelectionAgreesFrom(ks, cands, n, r1, r2, i + 1);
    } else {
      assert r1 == r1[..i] && r2 == r2[..i];
    }
  }

  /** If two selections agree before position `i`, the element `r2` holds at
      `i` cannot rank before the element `r1` holds there. */
  lemma SelectionHeadUnbeaten(ks: seq<string>, cands: seq<string>, n: int, r1: seq<string>, r2: seq<string>, i: nat)
    requires forall c :: c in cands ==> c in ks
    requires IsTopSelection(ks, cands, n, r1) && IsTopSelection(ks, cands, n, r2)
    requires i < |r1| && r1[..i] == r2[..i]
    ensures !Before(ks, r2[i], r1[i])
  {
    BeforeIsStrictTotalOrder(ks, r2[i], r1[i], r2[i]);
  }

  /** The promise determines the selection: there is only one. */
  lemma TopSelectionUnique(ks: seq<string>, cands: seq<string>, n: int, r1: seq<string>, r2: seq<string>)
    requires forall c :: c in cands ==> c in ks
    requires IsTopSelection(ks, cands, n, r1) && IsTopSelection(ks, cands, n, r2)
    ensures r1 == r2
  {
    TopSelectionAgreesFrom(ks, cands, n, r1, r2, 0);
  }

  /** A prefix of a selection of the `m` best is the selection of the `n`
      best, for `n <= m`. */
  lemma PrefixIsTopSelection(ks: seq<string>, cands: seq<string>, n: int, m: int, r: seq<string>)
    requires n <= m && IsTopSelection(ks, cands, m, r)
    ensures IsTopSelection(ks, cands, n, r[..if n <= 0 then 0 else Min(n, |cands|)])
  {
    var p := r[..if n <= 0 then 0 else Min(n, |cands|)];
    forall c, x | c in cands && c !in p && x in p ensures Before(ks, x, c) {
      var i :| 0 <= i < |p| && p[i] == x;
      if c in r {
        var j :| 0 <= j < |r| && r[j] == c;
        assert r[i] == x;
      }
    }
  }

  /** A larger `n` extends the selection: the first `n` themes never depend
      on how many more are asked for. */
  lemma TopNPrefix(ks: seq<string>, cands: seq<string>, n: int, m: int)
    requires Ranked(ks, cands) && n <= m
    ensures TopN(ks, cands, n) == TopN(ks, cands, m)[..|TopN(ks, cands, n)|]
  {
    var r := TopN(ks, cands, m);
    PrefixIsTopSelection(ks, cands, n, m, r);
    TopSelectionUnique(ks, cands, n, TopN(ks, cands, n), r[..|TopN(ks, cands, n)|]);
  }

  lemma {:induction false} NoDupCard(d: seq<string>)
    requires forall i, j :: 0 <= i < j < |d| ==> d[i] != d[j]
    ensures |set x | x in d| == |d|
  {
    if d != [] {
      var init := d[..|d| - 1];
      var last := d[|d| - 1];
      assert d == init + [last];
      NoDupCard(init);
      assert last !in init;
      assert (set x | x in d) == (set x | x in init) + {last};
    }
  }

  /** `extract_themes(text, top_n)` with the tagger's tokens as input. */
  function ExtractThemes(tokens: seq<Token>, topN: int): (themes: seq<string>)
    ensures |themes| == if topN <= 0 then 0 else Min(topN, |Vocabulary(tokens)|)
    ensures forall k :: k in themes ==> k in Vocabulary(tokens)
    ensures forall i, j :: 0 <= i < j < |themes| ==> themes[i] != themes[j]
    ensures forall i, j :: 0 <= i < j < |themes| ==> Before(Keywords(tokens), themes[i], themes[j])
    ensures forall k, x :: k in Vocabulary(tokens) && k !in themes && x in themes ==> Before(Keywords(tokens), x, k)
  {
    var ks := Keywords(tokens);
    var d := Distinct(ks);
    assert (set x | x in d) == Vocabulary(tokens);
    NoDupCard(d);
    TopN(ks, d, topN)
  }

  /** A token that is not a common noun, or is a stop word, never changes the
      themes, wherever it stands. */
  lemma NonQualifyingIgnored(a: seq<Token>, t: Token, b: seq<Token>, topN: int)
    requires !Qualifies(t)
    ensures ExtractThemes(a + [t] + b, topN) == ExtractThemes(a + b, topN)
  {
    KeywordsAppend(a + [t], b);
    KeywordsAppend(a, [t]);
    KeywordsAppend(a, b);
    assert Keywords([t]) == [];
    assert Keywords(a + [t] + b) == Keywords(a + b);
  }

  /** The themes are exactly the ones `most_common` promises. */
  lemma ThemesAreTheTopSelection(tokens: seq<Token>, topN: int, r: seq<string>)
    requires IsTopSelection(Keywords(tokens), Distinct(Keywords(tokens)), topN, r)
    ensures r == ExtractThemes(tokens, topN)
  {
    var ks := Keywords(tokens);
    TopSelectionUnique(ks, Distinct(ks), topN, r, ExtractThemes(tokens, topN));
  }
}
