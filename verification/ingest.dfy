/** Choosing the text extractor by file name, `extract_text_from_file`, and
    what the page does with its result. Reading the PDF or DOCX container is
    not modelled: the pages' texts and the paragraphs' texts are the input. */
module Ingest {
  import opened Strings
  import Clean

  /** The string returned, in place of a document, for any other file name. */
  const UnsupportedMessage := "Unsupported file format. Please upload a PDF or DOCX file."

  /** `extract_pdf_text`: the pages' texts concatenated in page order. */
  function ExtractPdfText(pages: seq<string>): (r: string)
    ensures |r| == TotalLength(pages)
    ensures forall i :: 0 <= i < |pages| ==>
      var lo := TotalLength(pages[..i]); lo + |pages[i]| <= |r| && r[lo..lo + |pages[i]|] == pages[i]
  {
    assert forall i :: 0 <= i < |pages| ==>
      var lo := TotalLength(pages[..i]); lo + |pages[i]| <= |Concat(pages)| && Concat(pages)[lo..lo + |pages[i]|] == pages[i]
    by {
      forall i | 0 <= i < |pages| {
        ConcatPiece(pages, i);
      }
    }
    Concat(pages)
  }

  /** `extract_docx_text`: the paragraphs' texts joined by newlines. */
  function ExtractDocxText(paragraphs: seq<string>): (r: string)
    ensures paragraphs != [] ==> |r| == TotalLength(paragraphs) + |paragraphs| - 1
  {
    Join("\n", paragraphs)
  }

  /** `extract_text_from_file`: `.pdf` is tested first, then `.docx`; the
      test is case-sensitive. */
  function ExtractTextFromFile(name: string, pages: seq<string>, paragraphs: seq<string>): (r: string)
    ensures EndsWith(name, ".pdf") ==> r == ExtractPdfText(pages)
    ensures !EndsWith(name, ".pdf") && EndsWith(name, ".docx") ==> r == ExtractDocxText(paragraphs)
    ensures !EndsWith(name, ".pdf") && !EndsWith(name, ".docx") ==> r == UnsupportedMessage
  {
    if EndsWith(name, ".pdf") then ExtractPdfText(pages)
    else if EndsWith(name, ".docx") then ExtractDocxText(paragraphs)
    else UnsupportedMessage
  }

  /** Any name made by appending `.pdf` selects the PDF extractor. */
  lemma PdfSuffixSelectsPdf(stem: string, pages: seq<string>, paragraphs: seq<string>)
    ensures ExtractTextFromFile(stem + ".pdf", pages, paragraphs) == ExtractPdfText(pages)
  {
    assert (stem + ".pdf")[|stem|..] == ".pdf";
  }

  /** Any name made by appending `.docx` selects the DOCX extractor. */
  lemma DocxSuffixSelectsDocx(stem: string, pages: seq<string>, paragraphs: seq<string>)
    ensures ExtractTextFromFile(stem + ".docx", pages, paragraphs) == ExtractDocxText(paragraphs)
  {
    var name := stem + ".docx";
    assert name[|stem|..] == ".docx";
    assert name[|name| - 1] == 'x';
  }

  /** Upper-case extensions are not recognised. */
  lemma UpperCaseExtensionUnsupported(pages: seq<string>, paragraphs: seq<string>)
    ensures ExtractTextFromFile("REPORT.PDF", pages, paragraphs) == UnsupportedMessage
    ensures ExtractTextFromFile("notes.DOCX", pages, paragraphs) == UnsupportedMessage
  {
    assert "REPORT.PDF"[6..] != ".pdf" by { assert "REPORT.PDF"[6..][1] == 'P'; }
    assert "REPORT.PDF"[5..] != ".docx" by { assert "REPORT.PDF"[5..][0] == 'T'; }
    assert "notes.DOCX"[6..] != ".pdf" by { assert "notes.DOCX"[6..][0] == 'D'; }
    assert "notes.DOCX"[5..] != ".docx" by { assert "notes.DOCX"[5..][1] == 'D'; }
  }

  /** What the page goes on to analyse, or that it shows an error instead. */
  datatype Outcome = Analysed(cleaned: string) | Rejected

  /** The page as written: `isinstance(raw_text, str)` holds of every value
      `extract_text_from_file` returns, the sentinel included, so the text is
      always cleaned and analysed and the error branch is never taken. */
  function AnalyseAsWritten(name: string, pages: seq<string>, paragraphs: seq<string>): (r: Outcome)
    ensures r.Analysed?
  {
    var raw := ExtractTextFromFile(name, pages, paragraphs);
    Analysed(Clean.CleanText(raw))
  }

  /** For an unsupported name the sentinel itself is analysed as a document,
      and it is not empty once cleaned. */
  lemma SentinelIsAnalysed(name: string, pages: seq<string>, paragraphs: seq<string>)
    requires !EndsWith(name, ".pdf") && !EndsWith(name, ".docx")
    ensures AnalyseAsWritten(name, pages, paragraphs) == Analysed(Clean.CleanText(UnsupportedMessage))
    ensures Clean.CleanText(UnsupportedMessage) != []
  {
    SentinelLast();
    Clean.KeptLastNonEmpty(UnsupportedMessage);
  }

  /** The sentinel ends with a period. */
  lemma SentinelLast()
    ensures UnsupportedMessage != [] && UnsupportedMessage[|UnsupportedMessage| - 1] == '.'
  {
    assert |UnsupportedMessage| == 58;
  }

  /** The extraction result as a tagged value: the document's text, or the
      unsupported-format failure. */
  datatype Extracted = Document(text: string) | UnsupportedFormat

  /** The extraction with the failure made explicit: a document exactly when
      the name ends in `.pdf` or `.docx`. */
  function Ingest(name: string, pages: seq<string>, paragraphs: seq<string>): (r: Extracted)
    ensures r.UnsupportedFormat? <==> !EndsWith(name, ".pdf") && !EndsWith(name, ".docx")
    ensures r.Document? ==> r.text == ExtractTextFromFile(name, pages, paragraphs)
  {
    if EndsWith(name, ".pdf") then Document(ExtractPdfText(pages))
    else if EndsWith(name, ".docx") then Document(ExtractDocxText(paragraphs))
    else UnsupportedFormat
  }

  /** The page as intended: only a document is cleaned and analysed; an
      unsupported name leads to the error message. */
  function Analyse(name: string, pages: seq<string>, paragraphs: seq<string>): (r: Outcome)
    ensures r.Rejected? <==> !EndsWith(name, ".pdf") && !EndsWith(name, ".docx")
    ensures r.Analysed? ==> r == AnalyseAsWritten(name, pages, paragraphs)
  {
    match Ingest(name, pages, paragraphs)
    case Document(text) => Analysed(Clean.CleanText(text))
    case UnsupportedFormat => Rejected
  }
}
