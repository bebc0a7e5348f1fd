/** Sentence simplification, `simplify_sentence`. The parser is not modelled:
    each sentence arrives with its text and its tokens' dependency labels. */
module Simplify {
  import opened Strings

  /** A token: its text and its dependency label (`token.dep_`). */
  datatype Token = Token(text: string, dep: string)

  /** A parsed sentence: its text (`sentence.text`) and its tokens in order. */
  datatype Sentence = Sentence(text: string, tokens: seq<Token>)

  const Subject := "nsubj"
  const Root := "ROOT"
  const Object := "dobj"

  /** Some token carries the dependency label `dep`. */
  predicate HasDep(tokens: seq<Token>, dep: string)
  {
    exists i :: 0 <= i < |tokens| && tokens[i].dep == dep
  }

  /** The texts of the tokens labelled `dep`, in token order. The script's
      `if`/`elif` chain tests three distinct labels, so a token joins at most
      one of the three lists, and gathering each list on its own is the same. */
  function Gather(tokens: seq<Token>, dep: string): (r: seq<string>)
    ensures |r| == |Positions(tokens, dep)|
    ensures r == [] <==> !HasDep(tokens, dep)
    ensures forall x :: x in r <==> exists i :: 0 <= i < |tokens| && tokens[i].dep == dep && tokens[i].text == x
  {
    if tokens == [] then []
    else
      var init := tokens[..|tokens| - 1];
      var last := tokens[|tokens| - 1];
      assert forall i :: 0 <= i < |init| ==> init[i] == tokens[i];
      assert init + [last] == tokens;
      PositionsSnoc(init, last, dep);
      if last.dep == dep then Gather(init, dep) + [last.text] else Gather(init, dep)
  }

  /** The positions of the tokens labelled `dep`. */
  ghost function Positions(tokens: seq<Token>, dep: string): set<int>
  {
    set i | 0 <= i < |tokens| && tokens[i].dep == dep
  }

  lemma PositionsSnoc(tokens: seq<Token>, t: Token, dep: string)
    ensures |Positions(tokens + [t], dep)| == |Positions(tokens, dep)| + (if t.dep == dep then 1 else 0)
  {
    var all := tokens + [t];
    assert forall i :: 0 <= i < |tokens| ==> all[i] == tokens[i];
    assert all[|tokens|] == t;
    assert |tokens| !in Positions(tokens, dep);
    assert Positions(all, dep) == Positions(tokens, dep) + (if t.dep == dep then {|tokens|} else {});
  }

  /** Gathering distributes over concatenation: the lists keep token order. */
  lemma {:induction false} GatherAppend(a: seq<Token>, b: seq<Token>, dep: string)
    ensures Gather(a + b, dep) == Gather(a, dep) + Gather(b, dep)
    decreases |b|
  {
    if b == [] {
      assert a + b == a;
    } else {
      var p := b[..|b| - 1];
      assert (a + b)[..|a + b| - 1] == a + p;
      GatherAppend(a, p, dep);
    }
  }

  /** The sentence has a subject, a root and a direct object. */
  predicate HasSvo(s: Sentence)
  {
    HasDep(s.tokens, Subject) && HasDep(s.tokens, Root) && HasDep(s.tokens, Object)
  }

  /** `f"{' and '.join(subjects)} {', '.join(verbs)} {' and '.join(objects)}."` */
  function Skeleton(subjects: seq<string>, verbs: seq<string>, objects: seq<string>): (r: string)
    ensures |r| > 0 && r[|r| - 1] == '.'
    ensures subjects != [] && verbs != [] && objects != [] ==>
      |r| == TotalLength(subjects) + 5 * (|subjects| - 1) + TotalLength(verbs) + 2 * (|verbs| - 1)
           + TotalLength(objects) + 5 * (|objects| - 1) + 3
    ensures |subjects| == 1 && |verbs| == 1 && |objects| == 1 ==>
      r == subjects[0] + " " + verbs[0] + " " + objects[0] + "."
  {
    Join(" and ", subjects) + " " + Join(", ", verbs) + " " + Join(" and ", objects) + "."
  }

  /** The piece one sentence contributes: its skeleton when it has a subject,
      a root and a direct object, its own text otherwise. */
  function SimplifyOne(s: Sentence): (r: string)
    ensures !HasSvo(s) ==> r == s.text
    ensures HasSvo(s) ==> r == Skeleton(Gather(s.tokens, Subject), Gather(s.tokens, Root), Gather(s.tokens, Object))
    ensures HasSvo(s) ==> |r| > 0 && r[|r| - 1] == '.'
  {
    var subjects := Gather(s.tokens, Subject);
    var verbs := Gather(s.tokens, Root);
    var objects := Gather(s.tokens, Object);
    if subjects != [] && verbs != [] && objects != [] then Skeleton(subjects, verbs, objects)
    else s.text
  }

  /** One piece per sentence, in order. */
  function Pieces(sentences: seq<Sentence>): (r: seq<string>)
    ensures |r| == |sentences|
    ensures forall i :: 0 <= i < |sentences| ==> r[i] == SimplifyOne(sentences[i])
  {
    seq(|sentences|, i requires 0 <= i < |sentences| => SimplifyOne(sentences[i]))
  }

  /** `simplify_sentence`: the pieces joined by single spaces. */
  function SimplifySentences(sentences: seq<Sentence>): (r: string)
    ensures sentences == [] ==> r == []
    ensures |sentences| == 1 ==> r == SimplifyOne(sentences[0])
  {
    Join(" ", Pieces(sentences))
  }

  /** Sentences are simplified independently: the result for `a + b` is the
      result for `a`, one space, and the result for `b`. */
  lemma SimplifyAppend(a: seq<Sentence>, b: seq<Sentence>)
    requires a != [] && b != []
    ensures SimplifySentences(a + b) == SimplifySentences(a) + " " + SimplifySentences(b)
  {
    var pab, pa, pb := Pieces(a + b), Pieces(a), Pieces(b);
    forall i | 0 <= i < |pab| ensures pab[i] == (pa + pb)[i] {
      if i < |a| {
        assert (a + b)[i] == a[i];
      } else {
        assert (a + b)[i] == b[i - |a|];
      }
    }
    assert pab == pa + pb;
    JoinAppend(" ", pa, pb);
  }

  /** Tokens with any other label never change a sentence's piece. */
  lemma OtherDepIgnored(text: string, a: seq<Token>, t: Token, b: seq<Token>)
    requires t.dep !in {Subject, Root, Object}
    ensures SimplifyOne(Sentence(text, a + [t] + b)) == SimplifyOne(Sentence(text, a + b))
  {
    GatherAppend(a + [t], b, Subject);
    GatherAppend(a + [t], b, Root);
    GatherAppend(a + [t], b, Object);
    GatherAppend(a, [t], Subject);
    GatherAppend(a, [t], Root);
    GatherAppend(a, [t], Object);
    GatherAppend(a, b, Subject);
    GatherAppend(a, b, Root);
    GatherAppend(a, b, Object);
  }

  /** With exactly one subject, one root and one direct object, wherever
      they stand among the tokens, the piece is `subject verb object.` */
  lemma SingleSvo(s: Sentence, subj: string, verb: string, obj: string)
    requires OnlyLabelled(s.tokens, Subject, subj)
    requires OnlyLabelled(s.tokens, Root, verb)
    requires OnlyLabelled(s.tokens, Object, obj)
    ensures SimplifyOne(s) == subj + " " + verb + " " + obj + "."
  {
    GatherSingle(s.tokens, Subject, subj);
    GatherSingle(s.tokens, Root, verb);
    GatherSingle(s.tokens, Object, obj);
  }

  /** Exactly one token is labelled `dep`, and its text is `x`. */
  ghost predicate OnlyLabelled(tokens: seq<Token>, dep: string, x: string)
  {
    && |Positions(tokens, dep)| == 1
    && forall i :: 0 <= i < |tokens| && tokens[i].dep == dep ==> tokens[i].text == x
  }

  /** The one token labelled `dep` is all that gathering finds. */
  lemma GatherSingle(tokens: seq<Token>, dep: string, x: string)
    requires OnlyLabelled(tokens, dep, x)
    ensures Gather(tokens, dep) == [x]
  {
    var r := Gather(tokens, dep);
    assert r[0] in r;
  }

  /** When no sentence has the full structure, every sentence passes through
      and the result is the sentence texts joined by spaces. */
  lemma NoSvoPassesThrough(sentences: seq<Sentence>)
    requires forall i :: 0 <= i < |sentences| ==> !HasSvo(sentences[i])
    ensures SimplifySentences(sentences)
         == Join(" ", seq(|sentences|, i requires 0 <= i < |sentences| => sentences[i].text))
  {
    assert Pieces(sentences) == seq(|sentences|, i requires 0 <= i < |sentences| => sentences[i].text);
  }
}
