/** The text normaliser `clean_text`: lower-case, delete every character
    outside `[a-zA-Z\s.]`, collapse white-space runs to one space, strip. */
module Clean {
  import opened Chars
  import Strings

  /** The characters `re.sub(r'[^a-zA-Z\s.]', '', text)` keeps. */
  predicate Allowed(c: char) { IsLetter(c) || IsSpace(c) || c == '.' }

  /** The characters a cleaned text is made of. */
  predicate CleanChar(c: char) { IsLower(c) || c == ' ' || c == '.' }

  /** A cleaned text: only `a`-`z`, space and `.`, no two spaces in a row,
      no space at either end. */
  predicate IsClean(s: string) {
    && (forall i :: 0 <= i < |s| ==> CleanChar(s[i]))
    && (forall i :: 0 <= i < |s| - 1 ==> s[i] == ' ' ==> s[i + 1] != ' ')
    && (s != [] ==> s[0] != ' ' && s[|s| - 1] != ' ')
  }

  /** Step two: `re.sub(r'[^a-zA-Z\s.]', '', text)`. */
  function DropDisallowed(s: string): (r: string)
    ensures |r| <= |s|
    ensures forall i :: 0 <= i < |r| ==> Allowed(r[i])
    ensures (forall i :: 0 <= i < |s| ==> !IsUpper(s[i])) ==> forall i :: 0 <= i < |r| ==> !IsUpper(r[i])
    ensures (forall i :: 0 <= i < |s| ==> Allowed(s[i])) ==> r == s
    ensures (forall i :: 0 <= i < |s| ==> !Allowed(s[i])) ==> r == []
  {
    if s == [] then []
    else if Allowed(s[0]) then [s[0]] + DropDisallowed(s[1..])
    else DropDisallowed(s[1..])
  }

  /** The filter works piecewise, so with the two all-or-nothing cases above
      it keeps exactly the allowed characters, in order. */
  lemma {:induction false} DropAppend(a: string, b: string)
    ensures DropDisallowed(a + b) == DropDisallowed(a) + DropDisallowed(b)
  {
    if a == [] {
      assert a + b == b;
    } else {
      assert (a + b)[1..] == a[1..] + b;
      DropAppend(a[1..], b);
    }
  }

  /** The suffix of `s` that starts at its first non-white-space character. */
  function SkipSpaces(s: string): (r: string)
    ensures |r| <= |s| && r == s[|s| - |r|..]
    ensures r == [] || !IsSpace(r[0])
    ensures forall i :: 0 <= i < |s| - |r| ==> IsSpace(s[i])
  {
    if s != [] && IsSpace(s[0]) then SkipSpaces(s[1..]) else s
  }

  /** The prefix of `s` that ends at its last non-white-space character. */
  function TrimEnd(s: string): (r: string)
    ensures |r| <= |s| && r == s[..|r|]
    ensures r == [] || !IsSpace(r[|r| - 1])
    ensures forall i :: |r| <= i < |s| ==> IsSpace(s[i])
  {
    if s != [] && IsSpace(s[|s| - 1]) then TrimEnd(s[..|s| - 1]) else s
  }

  /** Step four: `str.strip()`, a slice of `s` with no white space at either end. */
  function Strip(s: string): (r: string)
    ensures r == [] || (!IsSpace(r[0]) && !IsSpace(r[|r| - 1]))
    ensures var k := |s| - |SkipSpaces(s)|; k + |r| <= |s| && r == s[k..k + |r|]
    ensures var k := |s| - |SkipSpaces(s)|; forall i :: 0 <= i < k ==> IsSpace(s[i])
    ensures var k := |s| - |SkipSpaces(s)|; forall i :: k + |r| <= i < |s| ==> IsSpace(s[i])
  {
    TrimEnd(SkipSpaces(s))
  }

  /** Step three: `re.sub(r'\s+', ' ', text)`; every maximal run of white
      space becomes one space. */
  function CollapseSpaces(s: string): (r: string)
    ensures |r| <= |s|
    ensures r == [] <==> s == []
    ensures s != [] ==> (r[0] == ' ' <==> IsSpace(s[0]))
    decreases |s|
  {
    if s == [] then []
    else if IsSpace(s[0]) then [' '] + CollapseSpaces(SkipSpaces(s[1..]))
    else [s[0]] + CollapseSpaces(s[1..])
  }

  /** A trailing white-space run also becomes one space: the result ends in
      a space exactly when the input ends in white space. */
  lemma {:induction false} CollapseLast(s: string)
    requires s != []
    ensures var r := CollapseSpaces(s); r[|r| - 1] == ' ' <==> IsSpace(s[|s| - 1])
    decreases |s|
  {
    if IsSpace(s[0]) {
      var t := SkipSpaces(s[1..]);
      if t != [] {
        assert t[|t| - 1] == s[|s| - 1];
        CollapseLast(t);
      }
    } else if |s| > 1 {
      assert s[1..][|s| - 2] == s[|s| - 1];
      CollapseLast(s[1..]);
    }
  }

  /** The only white space in `r` is the plain space, and no two spaces are
      adjacent. */
  predicate PlainSingleSpaced(r: string) {
    && (forall i :: 0 <= i < |r| ==> IsSpace(r[i]) ==> r[i] == ' ')
    && (forall i :: 0 <= i < |r| - 1 ==> r[i] == ' ' ==> r[i + 1] != ' ')
  }

  /** Whatever the input, the collapsed text is plain single-spaced. */
  lemma {:induction false} CollapseSpacing(s: string)
    ensures PlainSingleSpaced(CollapseSpaces(s))
    decreases |s|
  {
    if s != [] {
      var r := CollapseSpaces(s);
      var rest;
      if IsSpace(s[0]) {
        var t := SkipSpaces(s[1..]);
        CollapseSpacing(t);
        rest := CollapseSpaces(t);
        assert r == [' '] + rest;
        assert rest == [] || rest[0] != ' ';
      } else {
        CollapseSpacing(s[1..]);
        rest := CollapseSpaces(s[1..]);
        assert r == [s[0]] + rest;
        assert r[0] != ' ';
      }
      assert PlainSingleSpaced(rest);
      forall i | 0 <= i < |r| ensures IsSpace(r[i]) ==> r[i] == ' ' {
        if i > 0 {
          assert r[i] == rest[i - 1];
        }
      }
      forall i | 0 <= i < |r| - 1 ensures r[i] == ' ' ==> r[i + 1] != ' ' {
        assert r[i + 1] == rest[i];
        if i > 0 {
          assert r[i] == rest[i - 1];
        }
      }
    }
  }

  /** A text of clean characters where no two spaces are adjacent. */
  predicate SingleSpaced(s: string) {
    && (forall i :: 0 <= i < |s| ==> CleanChar(s[i]))
    && (forall i :: 0 <= i < |s| - 1 ==> s[i] == ' ' ==> s[i + 1] != ' ')
  }

  /** Collapsing a text made of clean characters and white space gives clean
      characters only, with no two spaces adjacent. */
  lemma {:induction false} CollapseShape(s: string)
    requires forall i :: 0 <= i < |s| ==> CleanChar(s[i]) || IsSpace(s[i])
    ensures SingleSpaced(CollapseSpaces(s))
    decreases |s|
  {
    if s != [] {
      var r := CollapseSpaces(s);
      if IsSpace(s[0]) {
        var t := SkipSpaces(s[1..]);
        assert forall i :: 0 <= i < |t| ==> t[i] == s[|s| - |t| + i];
        CollapseShape(t);
        var rest := CollapseSpaces(t);
        assert r == [' '] + rest;
        assert rest == [] || rest[0] != ' ';
      } else {
        CollapseShape(s[1..]);
        var rest := CollapseSpaces(s[1..]);
        assert r == [s[0]] + rest;
      }
    }
  }

  /** Stripping a single-spaced text of clean characters leaves a clean text. */
  lemma StripClean(c: string)
    requires SingleSpaced(c)
    ensures IsClean(Strip(c))
  {
    var t := SkipSpaces(c);
    SliceSingleSpaced(c, |c| - |t|, |c|);
    var r := TrimEnd(t);
    SliceSingleSpaced(t, 0, |r|);
    assert r == t[0..|r|];
  }

  /** A slice of a single-spaced text is single-spaced. */
  lemma SliceSingleSpaced(c: string, lo: nat, hi: nat)
    requires SingleSpaced(c) && lo <= hi <= |c|
    ensures SingleSpaced(c[lo..hi])
  {
    var r := c[lo..hi];
    forall i | 0 <= i < |r| ensures r[i] == c[lo + i] {
    }
  }

  /** The lowered, filtered and collapsed text is single-spaced and clean. */
  lemma CleanTextShape(text: string)
    ensures IsClean(Strip(CollapseSpaces(DropDisallowed(Lower(text)))))
  {
    var kept := DropDisallowed(Lower(text));
    CollapseShape(kept);
    StripClean(CollapseSpaces(kept));
  }

  /** `clean_text(text)`. */
  function CleanText(text: string): (r: string)
    ensures IsClean(r)
    ensures text == [] ==> r == []
  {
    CleanTextShape(text);
    Strip(CollapseSpaces(DropDisallowed(Lower(text))))
  }

  // Idempotence: a clean text is a fixed point of every step.

  lemma {:induction false} LowerFixesClean(s: string)
    requires forall i :: 0 <= i < |s| ==> CleanChar(s[i])
    ensures Lower(s) == s
  {
    if s != [] {
      LowerFixesClean(s[1..]);
    }
  }

  lemma {:induction false} DropFixesClean(s: string)
    requires forall i :: 0 <= i < |s| ==> CleanChar(s[i])
    ensures DropDisallowed(s) == s
  {
    if s != [] {
      DropFixesClean(s[1..]);
    }
  }

  lemma {:induction false} CollapseFixesSingleSpaced(s: string)
    requires SingleSpaced(s)
    ensures CollapseSpaces(s) == s
  {
    if s != [] {
      SliceSingleSpaced(s, 1, |s|);
      if IsSpace(s[0]) {
        assert |s| == 1 || !IsSpace(s[1]);
        assert SkipSpaces(s[1..]) == s[1..];
      }
      CollapseFixesSingleSpaced(s[1..]);
    }
  }

  /** A cleaned text is left unchanged by `clean_text`. */
  lemma CleanTextFixesClean(s: string)
    requires IsClean(s)
    ensures CleanText(s) == s
  {
    LowerFixesClean(s);
    DropFixesClean(s);
    assert SingleSpaced(s);
    CollapseFixesSingleSpaced(s);
    assert s == [] || (!IsSpace(s[0]) && !IsSpace(s[|s| - 1]));
    assert SkipSpaces(s) == s;
    assert TrimEnd(s) == s;
    assert Strip(s) == s;
  }

  /** The fixed points of `clean_text` are exactly the clean texts. */
  lemma CleanTextFixedPoints(s: string)
    ensures CleanText(s) == s <==> IsClean(s)
  {
    if IsClean(s) {
      CleanTextFixesClean(s);
    }
  }

  /** `clean_text(clean_text(x)) == clean_text(x)`. */
  lemma CleanTextIdempotent(text: string)
    ensures CleanText(CleanText(text)) == CleanText(text)
  {
    CleanTextFixesClean(CleanText(text));
  }

  // Content: no letter or period is lost, reordered or invented.

  /** The non-white-space characters of `s`, in order. */
  function NonSpace(s: string): string
  {
    if s == [] then [] else (if IsSpace(s[0]) then [] else [s[0]]) + NonSpace(s[1..])
  }

  /** The letters and periods of `s`, in order. */
  function LettersAndPeriods(s: string): string
  {
    if s == [] then [] else (if IsLetter(s[0]) || s[0] == '.' then [s[0]] else []) + LettersAndPeriods(s[1..])
  }

  lemma {:induction false} NonSpaceAppend(a: string, b: string)
    ensures NonSpace(a + b) == NonSpace(a) + NonSpace(b)
  {
    if a != [] {
      assert (a + b)[1..] == a[1..] + b;
      NonSpaceAppend(a[1..], b);
    } else {
      assert a + b == b;
    }
  }

  lemma {:induction false} NonSpaceDropped(s: string)
    ensures NonSpace(DropDisallowed(s)) == LettersAndPeriods(s)
  {
    if s != [] {
      NonSpaceDropped(s[1..]);
    }
  }

  lemma {:induction false} NonSpaceSkip(s: string)
    ensures NonSpace(SkipSpaces(s)) == NonSpace(s)
  {
    if s != [] && IsSpace(s[0]) {
      NonSpaceSkip(s[1..]);
    }
  }

  lemma {:induction false} NonSpaceTrimEnd(s: string)
    ensures NonSpace(TrimEnd(s)) == NonSpace(s)
  {
    if s != [] && IsSpace(s[|s| - 1]) {
      var p := s[..|s| - 1];
      assert s == p + [s[|s| - 1]];
      NonSpaceAppend(p, [s[|s| - 1]]);
      NonSpaceTrimEnd(p);
    }
  }

  lemma {:induction false} NonSpaceCollapse(s: string)
    ensures NonSpace(CollapseSpaces(s)) == NonSpace(s)
    decreases |s|
  {
    if s != [] {
      if IsSpace(s[0]) {
        var t := SkipSpaces(s[1..]);
        NonSpaceCollapse(t);
        NonSpaceSkip(s[1..]);
        assert CollapseSpaces(s) == [' '] + CollapseSpaces(t);
      } else {
        NonSpaceCollapse(s[1..]);
        assert CollapseSpaces(s) == [s[0]] + CollapseSpaces(s[1..]);
      }
    }
  }

  /** Apart from the spaces, the cleaned text is exactly the letters and
      periods of the lowered input, in their original order. */
  lemma CleanTextKeepsContent(text: string)
    ensures NonSpace(CleanText(text)) == LettersAndPeriods(Lower(text))
  {
    var kept := DropDisallowed(Lower(text));
    NonSpaceDropped(Lower(text));
    NonSpaceCollapse(kept);
    NonSpaceSkip(CollapseSpaces(kept));
    NonSpaceTrimEnd(SkipSpaces(CollapseSpaces(kept)));
  }

  lemma {:induction false} NoContentAllSpaces(s: string)
    requires NonSpace(s) == []
    ensures forall i :: 0 <= i < |s| ==> IsSpace(s[i])
  {
    if s != [] {
      NoContentAllSpaces(s[1..]);
    }
  }

  /** `clean_text` returns the empty string exactly when the input holds no
      letter and no period. */
  lemma CleanTextEmptyIff(text: string)
    ensures CleanText(text) == [] <==> LettersAndPeriods(Lower(text)) == []
  {
    var r := CleanText(text);
    CleanTextKeepsContent(text);
    if NonSpace(r) == [] && r != [] {
      NoContentAllSpaces(r);
    }
  }

  /** A letter or period anywhere in `s` survives into its letters and
      periods. */
  lemma {:induction false} KeptSomewhere(s: string, i: nat)
    requires i < |s| && (IsLetter(s[i]) || s[i] == '.')
    ensures LettersAndPeriods(s) != []
    decreases i
  {
    if i > 0 {
      KeptSomewhere(s[1..], i - 1);
    }
  }

  /** A text that ends with a letter or a period never cleans to the empty
      string. */
  lemma KeptLastNonEmpty(text: string)
    requires text != [] && (IsLetter(text[|text| - 1]) || text[|text| - 1] == '.')
    ensures CleanText(text) != []
  {
    var init, c := text[..|text| - 1], text[|text| - 1];
    assert text == init + [c];
    LowerAppend(init, [c]);
    var last := LowerChar(c);
    assert Lower([c]) == last + Lower([]);
    assert last == [c] || IsLetter(last[0]);
    KeptSomewhere(Lower(text), |Lower(init)|);
    CleanTextEmptyIff(text);
  }

  // Reference: collapsing and stripping is `' '.join(text.split())`.

  /** The leading run of non-white-space characters of `s`. */
  function TakeWord(s: string): (w: string)
    ensures |w| <= |s| && w == s[..|w|]
    ensures forall i :: 0 <= i < |w| ==> !IsSpace(w[i])
    ensures |w| < |s| ==> IsSpace(s[|w|])
  {
    if s == [] || IsSpace(s[0]) then [] else [s[0]] + TakeWord(s[1..])
  }

  /** `str.split()` with no argument: the maximal runs of non-white-space. */
  function Words(s: string): (ws: seq<string>)
    decreases |s|
  {
    var t := SkipSpaces(s);
    if t == [] then []
    else
      var w := TakeWord(t);
      [w] + Words(t[|w|..])
  }

  lemma {:induction false} CollapseWord(w: string, v: string)
    requires forall i :: 0 <= i < |w| ==> !IsSpace(w[i])
    ensures CollapseSpaces(w + v) == w + CollapseSpaces(v)
  {
    if w == [] {
      assert w + v == v;
    } else {
      assert (w + v)[1..] == w[1..] + v;
      CollapseWord(w[1..], v);
    }
  }

  lemma {:induction false} TrimEndAppend(a: string, b: string)
    requires TrimEnd(b) != []
    ensures TrimEnd(a + b) == a + TrimEnd(b)
  {
    if IsSpace(b[|b| - 1]) {
      assert (a + b)[..|a + b| - 1] == a + b[..|b| - 1];
      TrimEndAppend(a, b[..|b| - 1]);
    }
  }

  /** One space in front of a collapsed text is all that `SkipSpaces` skips. */
  lemma SkipOneSpace(c: string)
    requires c == [] || !IsSpace(c[0])
    ensures SkipSpaces([' '] + c) == c
  {
    assert ([' '] + c)[1..] == c;
  }

  lemma SkipCollapse(t: string)
    ensures SkipSpaces(CollapseSpaces(t)) == CollapseSpaces(SkipSpaces(t))
  {
    if t != [] && IsSpace(t[0]) {
      var u := SkipSpaces(t[1..]);
      var c := CollapseSpaces(u);
      assert SkipSpaces(t) == u;
      assert CollapseSpaces(t) == [' '] + c;
      SkipOneSpace(c);
    }
  }

  /** A text starting with a word is that word followed by the rest. */
  lemma WordStep(u: string)
    requires u != [] && !IsSpace(u[0])
    ensures var w := TakeWord(u); var v := u[|w|..];
      && w != []
      && CollapseSpaces(u) == w + CollapseSpaces(v)
      && Words(u) == [w] + Words(v)
      && (v == [] || IsSpace(v[0]))
  {
    var w := TakeWord(u);
    var v := u[|w|..];
    assert u == w + v;
    CollapseWord(w, v);
  }

  /** A text starting with white space collapses to one space before the rest. */
  lemma SpaceStep(v: string)
    requires v != [] && IsSpace(v[0])
    ensures var u := SkipSpaces(v[1..]);
      && CollapseSpaces(v) == [' '] + CollapseSpaces(u)
      && Words(v) == Words(u)
      && (u == [] || !IsSpace(u[0]))
  {
    var u := SkipSpaces(v[1..]);
    assert SkipSpaces(v) == u;
    assert SkipSpaces(u) == u;
  }

  lemma TrimEndWord(w: string)
    requires w != [] && !IsSpace(w[|w| - 1])
    ensures TrimEnd(w + " ") == w && TrimEnd(w) == w
  {
    assert (w + " ")[..|w|] == w;
  }

  /** Regrouping a word, one space and the collapsed rest. Stated apart so
      that `MoreWords` does not carry the sequence reasoning itself. */
  lemma SpaceBetween(w: string, c: string)
    ensures w + ([' '] + c) == (w + " ") + c
  {
  }

  /** The step of `WordsCollapse` for a word followed by more words. */
  lemma WordThenMore(w: string, c: string, rest: seq<string>)
    requires w != [] && !IsSpace(w[|w| - 1])
    requires c != [] && !IsSpace(c[0]) && TrimEnd(c) == Strings.Join(" ", rest) && rest != []
    ensures TrimEnd((w + " ") + c) == Strings.Join(" ", [w] + rest)
  {
    assert TrimEnd(c) != [];
    TrimEndAppend(w + " ", c);
    Strings.JoinAppend(" ", [w], rest);
  }

  /** The text after the first word and the white space that follows it. */
  function AfterWord(u: string): string
  {
    var v := u[|TakeWord(u)|..];
    if v == [] then [] else SkipSpaces(v[1..])
  }

  /** A single word, possibly followed by white space. */
  lemma LastWord(u: string)
    requires u != [] && !IsSpace(u[0]) && AfterWord(u) == []
    ensures TrimEnd(CollapseSpaces(u)) == Strings.Join(" ", Words(u))
  {
    WordStep(u);
    var w := TakeWord(u);
    var v := u[|w|..];
    TrimEndWord(w);
    if v == [] {
      OnlyWord(u);
    } else {
      WordThenSpace(u);
    }
  }

  lemma OnlyWord(u: string)
    requires u != [] && !IsSpace(u[0]) && u[|TakeWord(u)|..] == []
    ensures Words(u) == [TakeWord(u)] && CollapseSpaces(u) == TakeWord(u)
  {
    WordStep(u);
    var w := TakeWord(u);
    assert Words([]) == [];
    assert CollapseSpaces(u) == w + [];
  }

  lemma WordThenSpace(u: string)
    requires u != [] && !IsSpace(u[0]) && u[|TakeWord(u)|..] != [] && AfterWord(u) == []
    ensures Words(u) == [TakeWord(u)] && CollapseSpaces(u) == TakeWord(u) + " "
  {
    WordStep(u);
    var w := TakeWord(u);
    var v := u[|w|..];
    SpaceStep(v);
    assert SkipSpaces(v[1..]) == AfterWord(u) == [];
    assert Words(v) == [] by {
      assert Words([]) == [];
    }
    assert CollapseSpaces(v) == [' '] by {
      assert CollapseSpaces([]) == [];
    }
  }

  /** A word, white space, and more words. */
  lemma MoreWords(u: string)
    requires u != [] && !IsSpace(u[0]) && AfterWord(u) != []
    requires TrimEnd(CollapseSpaces(AfterWord(u))) == Strings.Join(" ", Words(AfterWord(u)))
    ensures TrimEnd(CollapseSpaces(u)) == Strings.Join(" ", Words(u))
  {
    WordStep(u);
    var w := TakeWord(u);
    var v := u[|w|..];
    TrimEndWord(w);
    SpaceStep(v);
    var u' := AfterWord(u);
    var c := CollapseSpaces(u');
    assert c[0] == u'[0];
    assert CollapseSpaces(v) == [' '] + c;
    SpaceBetween(w, c);
    assert Words(u) == [w] + Words(u');
    WordThenMore(w, c, Words(u'));
  }

  lemma {:induction false} WordsCollapse(u: string)
    requires u == [] || !IsSpace(u[0])
    ensures TrimEnd(CollapseSpaces(u)) == Strings.Join(" ", Words(u))
    decreases |u|
  {
    if u == [] {
      assert Words(u) == [];
    } else if AfterWord(u) == [] {
      LastWord(u);
    } else {
      WordStep(u);
      WordsCollapse(AfterWord(u));
      MoreWords(u);
    }
  }

  lemma NoSpaceAfterSpace(r: string, i: int)
    requires PlainSingleSpaced(r) && 0 <= i < |r| - 1 && IsSpace(r[i])
    ensures !IsSpace(r[i + 1])
  {
  }

  /** In a plain single-spaced text, a white-space tail from `k` on is at most
      one character long. */
  lemma SpaceRun(r: string, k: nat)
    requires PlainSingleSpaced(r) && k <= |r|
    requires forall i :: k <= i < |r| ==> IsSpace(r[i])
    ensures |r| <= k + 1
  {
    if k + 1 < |r| {
      NoSpaceAfterSpace(r, k);
    }
  }

  /** A plain single-spaced text whose tail after `t` is white space has at
      most one space after `t`. */
  lemma OneTrailingSpace(r: string, t: string)
    requires PlainSingleSpaced(r)
    requires |t| <= |r| && t == r[..|t|] && t != [] && !IsSpace(t[|t| - 1])
    requires forall i :: |t| <= i < |r| ==> IsSpace(r[i])
    ensures r == t + (if IsSpace(r[|r| - 1]) then " " else "")
  {
    SpaceRun(r, |t|);
    assert r == t + r[|t|..];
    if |r| > |t| {
      assert r[|t|..] == [r[|r| - 1]] && r[|r| - 1] == ' ';
    }
  }

  /** A text starting with a word collapses to its words joined by single
      spaces, plus one space when it ends in white space. */
  lemma CollapseTrailing(u: string)
    requires u != [] && !IsSpace(u[0])
    ensures CollapseSpaces(u) == Strings.Join(" ", Words(u)) + (if EndsInSpace(u) then " " else "")
  {
    var r := CollapseSpaces(u);
    CollapseLast(u);
    CollapseSpacing(u);
    var t := TrimEnd(r);
    assert !IsSpace(r[0]);
    assert t != [];
    OneTrailingSpace(r, t);
    assert IsSpace(r[|r| - 1]) == EndsInSpace(u);
    WordsCollapse(u);
  }

  /** Leading white space becomes one space in front of the collapsed rest,
      and does not change the words. */
  lemma CollapseLeading(s: string)
    requires s != [] && IsSpace(s[0])
    ensures CollapseSpaces(s) == " " + CollapseSpaces(SkipSpaces(s))
    ensures SkipSpaces(s) != [] ==> EndsInSpace(SkipSpaces(s)) == EndsInSpace(s)
  {
    assert SkipSpaces(s) == SkipSpaces(s[1..]);
  }

  /** Leading white space does not change the words. */
  lemma WordsLeading(s: string)
    ensures Words(s) == Words(SkipSpaces(s))
  {
    var t := SkipSpaces(s);
    assert SkipSpaces(t) == t;
  }

  /** Whether the last character of `s` is white space. */
  predicate EndsInSpace(s: string)
  {
    s != [] && IsSpace(s[|s| - 1])
  }

  /** The space `re.sub(r'\s+', ' ', s)` leaves in front of the first word. */
  function Front(s: string): string
  {
    if s != [] && IsSpace(s[0]) then " " else ""
  }

  /** The space it leaves behind the last word. */
  function Back(s: string): string
  {
    if EndsInSpace(s) && Words(s) != [] then " " else ""
  }

  // The next two lemmas, like `SpaceBetween`, only regroup concatenations.
  // Proved inside the case lemmas below, with the definitions of
  // `CollapseSpaces` and `Words` in scope, the same steps exhaust the
  // solver's budget; stated alone they are immediate.

  /** Regrouping the front space, the joined words and the back space. */
  lemma SpaceBefore(j: string, e: string)
    ensures " " + (j + e) == " " + j + e
  {
  }

  /** An empty front adds nothing. */
  lemma NothingBefore(j: string, e: string)
    ensures [] + j + e == j + e
  {
  }

  /** The case of `CollapseIsJoinedWords` for a text starting with a word. */
  lemma CollapseWordFirst(s: string)
    requires s != [] && !IsSpace(s[0])
    ensures CollapseSpaces(s) == Front(s) + Strings.Join(" ", Words(s)) + Back(s)
  {
    assert Words(s) != [] by {
      assert SkipSpaces(s) == s;
    }
    CollapseTrailing(s);
    var j := Strings.Join(" ", Words(s));
    var e := if EndsInSpace(s) then " " else "";
    assert Front(s) == [];
    assert Back(s) == e;
    NothingBefore(j, e);
  }

  /** The case of `CollapseIsJoinedWords` for a text of white space only. */
  lemma CollapseAllSpace(s: string)
    requires s != [] && IsSpace(s[0]) && SkipSpaces(s) == []
    ensures CollapseSpaces(s) == Front(s) + Strings.Join(" ", Words(s)) + Back(s)
  {
    CollapseLeading(s);
    WordsLeading(s);
    assert Words(s) == [];
    assert CollapseSpaces(s) == " ";
  }

  /** The case of `CollapseIsJoinedWords` for white space followed by a word. */
  lemma CollapseSpaceFirst(s: string)
    requires s != [] && IsSpace(s[0]) && SkipSpaces(s) != []
    ensures CollapseSpaces(s) == Front(s) + Strings.Join(" ", Words(s)) + Back(s)
  {
    CollapseLeading(s);
    var t := SkipSpaces(s);
    var e := if EndsInSpace(s) then " " else "";
    WordsLeading(s);
    var j := Strings.Join(" ", Words(s));
    assert Words(t) != [] by {
      assert SkipSpaces(t) == t;
    }
    CollapseTrailing(t);
    assert CollapseSpaces(t) == j + e;
    assert Back(s) == e;
    SpaceBefore(j, e);
  }

  /** `re.sub(r'\s+', ' ', s)` in terms of `s.split()`: the words joined by
      single spaces, with one space in front when `s` starts with white space
      and one behind when it ends in white space after some word. */
  lemma CollapseIsJoinedWords(s: string)
    ensures CollapseSpaces(s) == Front(s) + Strings.Join(" ", Words(s)) + Back(s)
  {
    if s == [] {
      assert Words(s) == [];
    } else if !IsSpace(s[0]) {
      CollapseWordFirst(s);
    } else if SkipSpaces(s) == [] {
      CollapseAllSpace(s);
    } else {
      CollapseSpaceFirst(s);
    }
  }

  /** `clean_text(text)` is `' '.join(t.split())` for `t` the lowered text
      with the disallowed characters deleted: the words of the text, in order,
      separated by single spaces. */
  lemma CleanTextIsJoinedWords(text: string)
    ensures CleanText(text) == Strings.Join(" ", Words(DropDisallowed(Lower(text))))
  {
    var t := DropDisallowed(Lower(text));
    SkipCollapse(t);
    assert SkipSpaces(SkipSpaces(t)) == SkipSpaces(t);
    assert Words(t) == Words(SkipSpaces(t));
    WordsCollapse(SkipSpaces(t));
  }
}
