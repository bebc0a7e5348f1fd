/** Sentence sentiment labelling, `sentiment_analysis`. The polarity scorer
    is not modelled: each sentence arrives with its compound score. */
module Sentiment {

  datatype Label = Positive | Negative | Neutral

  /** A sentence (`sentence.text`) and the scorer's compound score for it. */
  datatype Sentence = Sentence(text: string, score: real)

  /** The fixed decision boundaries. */
  const PositiveThreshold: real := 0.05
  const NegativeThreshold: real := -0.05

  /** The label as the script spells it. */
  function Name(l: Label): string
  {
    match l
    case Positive => "Positive"
    case Negative => "Negative"
    case Neutral => "Neutral"
  }

  /** The `if`/`elif`/`else` on the compound score. */
  function Classify(score: real): (l: Label)
    ensures l == Positive <==> score >= 0.05
    ensures l == Negative <==> score < 0.05 && score <= -0.05
    ensures l == Neutral <==> -0.05 < score < 0.05
  {
    if score >= PositiveThreshold then Positive
    else if score <= NegativeThreshold then Negative
    else Neutral
  }

  /** Position of a label on the scale Negative < Neutral < Positive. */
  function Rank(l: Label): nat
  {
    match l
    case Negative => 0
    case Neutral => 1
    case Positive => 2
  }

  /** A higher score never yields a lower label. */
  lemma ClassifyMonotone(a: real, b: real)
    requires a <= b
    ensures Rank(Classify(a)) <= Rank(Classify(b))
  {
  }

  /** The three spellings differ, so the label can be read back from it. */
  lemma NameInjective(l1: Label, l2: Label)
    ensures Name(l1) == Name(l2) <==> l1 == l2
  {
  }

  /** `sentiment_analysis`: one `(text, label)` pair per sentence, in order. */
  method SentimentAnalysis(sentences: seq<Sentence>) returns (annotated: seq<(string, Label)>)
    ensures |annotated| == |sentences|
    ensures forall i :: 0 <= i < |sentences| ==>
      annotated[i].0 == sentences[i].text
      && (annotated[i].1 == Positive <==> sentences[i].score >= 0.05)
      && (annotated[i].1 == Negative <==> sentences[i].score <= -0.05)
  {
    annotated := [];
    for n := 0 to |sentences|
      invariant |annotated| == n
      invariant forall i :: 0 <= i < n ==> annotated[i] == (sentences[i].text, Classify(sentences[i].score))
    {
      var score := sentences[n].score;
      var sentiment;
      if score >= PositiveThreshold {
        sentiment := Positive;
      } else if score <= NegativeThreshold {
        sentiment := Negative;
      } else {
        sentiment := Neutral;
      }
      annotated := annotated + [(sentences[n].text, sentiment)];
    }
  }
}
