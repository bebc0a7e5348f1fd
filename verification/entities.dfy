/** Named-entity bucketing, `perform_ner`. The tagger is not modelled: its
    output, the sequence of labelled spans of `doc.ents`, is the input. */
module Entities {

  /** One tagged span: the tagger's label (`ent.label_`) as `tag`, and its text. */
  datatype Span = Span(tag: string, text: string)

  /** The four buckets the script returns, keyed `characters`, `locations`,
      `dates` and `organizations`. */
  datatype Buckets = Buckets(
    characters: set<string>,
    locations: set<string>,
    dates: set<string>,
    organizations: set<string>)

  const NoEntities := Buckets({}, {}, {}, {})

  /** The texts of the spans carrying `tag`. */
  function Labelled(spans: seq<Span>, tag: string): set<string>
  {
    set i | 0 <= i < |spans| && spans[i].tag == tag :: spans[i].text
  }

  /** One pass of the loop: route a span by its label, or ignore it. */
  function Route(b: Buckets, span: Span): (r: Buckets)
    ensures r.characters == b.characters + (if span.tag == "PERSON" then {span.text} else {})
    ensures r.locations == b.locations + (if span.tag == "GPE" then {span.text} else {})
    ensures r.dates == b.dates + (if span.tag == "DATE" then {span.text} else {})
    ensures r.organizations == b.organizations + (if span.tag == "ORG" then {span.text} else {})
  {
    if span.tag == "PERSON" then b.(characters := b.characters + {span.text})
    else if span.tag == "GPE" then b.(locations := b.locations + {span.text})
    else if span.tag == "DATE" then b.(dates := b.dates + {span.text})
    else if span.tag == "ORG" then b.(organizations := b.organizations + {span.text})
    else b
  }

  /** `perform_ner` over the spans in document order. */
  function PerformNer(spans: seq<Span>): (r: Buckets)
    ensures r.characters == Labelled(spans, "PERSON")
    ensures r.locations == Labelled(spans, "GPE")
    ensures r.dates == Labelled(spans, "DATE")
    ensures r.organizations == Labelled(spans, "ORG")
    ensures spans == [] ==> r == NoEntities
  {
    if spans == [] then NoEntities
    else
      var last := spans[|spans| - 1];
      LabelledSnoc(spans[..|spans| - 1], last, "PERSON");
      LabelledSnoc(spans[..|spans| - 1], last, "GPE");
      LabelledSnoc(spans[..|spans| - 1], last, "DATE");
      LabelledSnoc(spans[..|spans| - 1], last, "ORG");
      assert spans[..|spans| - 1] + [last] == spans;
      Route(PerformNer(spans[..|spans| - 1]), last)
  }

  lemma LabelledSnoc(spans: seq<Span>, span: Span, tag: string)
    ensures Labelled(spans + [span], tag)
         == Labelled(spans, tag) + (if span.tag == tag then {span.text} else {})
  {
    var all := spans + [span];
    forall x | x in Labelled(all, tag)
      ensures x in Labelled(spans, tag) + (if span.tag == tag then {span.text} else {})
    {
      var i :| 0 <= i < |all| && all[i].tag == tag && all[i].text == x;
      if i < |spans| {
        assert spans[i] == all[i];
      }
    }
    forall x | x in Labelled(spans, tag)
      ensures x in Labelled(all, tag)
    {
      var i :| 0 <= i < |spans| && spans[i].tag == tag && spans[i].text == x;
      assert all[i] == spans[i];
    }
    if span.tag == tag {
      assert all[|spans|] == span;
    }
  }

  lemma {:induction false} LabelledAppend(a: seq<Span>, b: seq<Span>, tag: string)
    ensures Labelled(a + b, tag) == Labelled(a, tag) + Labelled(b, tag)
    decreases |b|
  {
    if b == [] {
      assert a + b == a;
    } else {
      var p := b[..|b| - 1];
      var last := b[|b| - 1];
      assert b == p + [last];
      assert a + b == (a + p) + [last];
      LabelledAppend(a, p, tag);
      LabelledSnoc(a + p, last, tag);
      LabelledSnoc(p, last, tag);
    }
  }

  /** The buckets of a concatenation are the unions of the buckets of the
      parts, so the order of the spans never matters. */
  lemma PerformNerAppend(a: seq<Span>, b: seq<Span>)
    ensures var r := PerformNer(a + b);
      var ra := PerformNer(a);
      var rb := PerformNer(b);
      && r.characters == ra.characters + rb.characters
      && r.locations == ra.locations + rb.locations
      && r.dates == ra.dates + rb.dates
      && r.organizations == ra.organizations + rb.organizations
  {
    LabelledAppend(a, b, "PERSON");
    LabelledAppend(a, b, "GPE");
    LabelledAppend(a, b, "DATE");
    LabelledAppend(a, b, "ORG");
  }

  /** A span whose label is none of the four changes no bucket, wherever it
      stands. */
  lemma OtherLabelIgnored(a: seq<Span>, span: Span, b: seq<Span>)
    requires span.tag !in {"PERSON", "GPE", "DATE", "ORG"}
    ensures PerformNer(a + [span] + b) == PerformNer(a + b)
  {
    LabelledSnoc(a, span, "PERSON");
    LabelledSnoc(a, span, "GPE");
    LabelledSnoc(a, span, "DATE");
    LabelledSnoc(a, span, "ORG");
    assert PerformNer(a + [span]) == PerformNer(a);
    PerformNerAppend(a + [span], b);
    PerformNerAppend(a, b);
  }

  /** The bucket a recognised label fills; the empty set for any other label. */
  function Bucket(b: Buckets, tag: string): set<string>
  {
    if tag == "PERSON" then b.characters
    else if tag == "GPE" then b.locations
    else if tag == "DATE" then b.dates
    else if tag == "ORG" then b.organizations
    else {}
  }

  /** Each span adds its text to the bucket of its own label and to no other. */
  lemma RoutedByLabel(spans: seq<Span>, span: Span, tag: string)
    requires tag in {"PERSON", "GPE", "DATE", "ORG"}
    ensures Bucket(PerformNer(spans + [span]), tag)
         == Bucket(PerformNer(spans), tag) + (if span.tag == tag then {span.text} else {})
  {
    LabelledSnoc(spans, span, tag);
  }
}
