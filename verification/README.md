# Text analysis core of a document-analysis page, in Dafny

The modelled program is a Streamlit page (`app.py`). It takes an uploaded PDF or DOCX file, extracts its text and cleans it. On request it then runs five analyses on the cleaned text: named-entity buckets, sentence simplification, a summary, a ranked theme list and per-sentence sentiment labels. The linguistic work is done by third-party models (a spaCy parser and tagger, the VADER scorer, sumy's TextRank). This model treats their output as input data and models the deterministic logic the script itself contains:

- `Chars` (`chars.dfy`): the character classes `[a-zA-Z]` and `\s`, and `str.lower()`.
- `Strings` (`strings.dfy`): `sep.join(parts)`, the concatenation of page texts, and `str.endswith`.
- `Clean` (`clean.dfy`): `clean_text`. It lower-cases the text, deletes everything outside `[a-zA-Z\s.]`, collapses white-space runs to one space and strips the ends.
- `Entities` (`entities.dfy`): `perform_ner`. It routes tagged spans labelled PERSON, GPE, DATE and ORG into four sets.
- `Simplify` (`simplify.dfy`): `simplify_sentence`. A sentence with an `nsubj`, a `ROOT` and a `dobj` token becomes `subjects verbs objects.`; any other sentence passes through unchanged. The pieces are joined by spaces.
- `Themes` (`themes.dfy`): `extract_themes`. It keeps the lower-cased text of the non-stop-word `NOUN` tokens, counts them and returns `Counter.most_common(top_n)`: highest count first, ties in order of first occurrence.
- `Sentiment` (`sentiment.dfy`): `sentiment_analysis`. Labels are fixed by the thresholds `>= 0.05` (Positive) and `<= -0.05` (Negative); anything else is Neutral.
- `Ingest` (`ingest.dfy`): `extract_text_from_file`. It dispatches on the case-sensitive suffix `.pdf`, then `.docx`, and otherwise returns the sentinel string. This module also models what the page does with that result.

Oracles become parameters:
- A parsed sentence is its text plus `(text, dep)` tokens.
- A theme token is `(text, pos, isStop)`.
- An entity is a `(label, text)` span; the label field is called `tag` because `label` is a Dafny keyword.
- A scored sentence is `(text, score)`, with the score a `real`.
- A PDF is the list of its pages' texts, and a DOCX is the list of its paragraphs' texts.

Two facts about the code shape the model:
- Themes are returned without their counts.
- The unsupported-format sentinel is not a terminal state (see Findings).

## Model

| member | source | states |
|---|---|---|
| Chars.LowerChar | app.py:42 | `str.lower()` on one character: an ASCII capital becomes the small letter at the same alphabet position, and no output character is an ASCII capital. Every other character outside the two special non-ASCII cases is unchanged. |
| Chars.Lower | app.py:42 | The lowered text contains no ASCII capital letter and is never shorter than the input. Without a DOTTED CAPITAL I, each character is lowered in place: the output has the input's length and character `i` is the lowered form of input character `i`. |
| Chars.LowerAppend | app.py:42 | Lowering works piecewise: lowering `a + b` gives lowered `a` followed by lowered `b`. |
| Clean.DropDisallowed | app.py:43 | Every character left is an ASCII letter, white space or `.`, and no capital is introduced. A text made only of allowed characters is kept whole; a text with none becomes empty. |
| Clean.DropAppend | app.py:43 | The filter works piecewise on `a + b`. With the two whole-text cases of `DropDisallowed`, this fixes the output as exactly the allowed characters, in order. |
| Clean.Strip | app.py:44 | The result is a contiguous slice of the input with no white space at either end. Everything removed before and after that slice is white space. |
| Clean.CollapseSpaces | app.py:44 | Its own contract gives only the length bound, emptiness and the first character. Its whole content is fixed by `Clean.CollapseIsJoinedWords`. |
| Clean.CollapseIsJoinedWords | app.py:44 | For every input, `re.sub(r'\s+', ' ', s)` is the words of `s.split()` joined by single spaces, with one space in front exactly when `s` starts with white space, and one behind exactly when it ends in white space after some word. |
| Clean.CollapseLast | app.py:44 | A non-empty input collapses to a text ending in a space exactly when the input ends in white space. |
| Clean.CollapseSpacing | app.py:44 | For every input, the only white space left after collapsing is single plain spaces: no two are adjacent. |
| Clean.NonSpaceCollapse | app.py:44 | Collapsing white space keeps every other character, in order. |
| Clean.WordsCollapse | app.py:44 | For a text not starting with white space, collapsing the runs and trimming the end gives the text's words joined by single spaces. |
| Clean.CollapseShape | app.py:44 | Collapsing white-space runs leaves only single plain spaces between the other characters. |
| Clean.CleanText | app.py:41-44 | The output contains only `a`-`z`, space and `.`, never two spaces in a row, and no space at either end. Empty input gives empty output. |
| Clean.CleanTextIdempotent | app.py:41-44 | `clean_text(clean_text(x)) == clean_text(x)`. |
| Clean.CleanTextFixedPoints | app.py:41-44 | `clean_text(s) == s` exactly when `s` already has the clean shape. |
| Clean.CleanTextKeepsContent | app.py:41-44 | With the spaces removed, the output is exactly the letters and periods of the lowered input, in order: nothing is lost, added or reordered. |
| Clean.CleanTextEmptyIff | app.py:41-44 | The output is empty exactly when the lowered input has no letter and no period. |
| Clean.CleanTextIsJoinedWords | app.py:43-44 | The output equals `' '.join(t.split())`, where `t` is the lowered input with disallowed characters deleted. This is an independent reference for the collapse-and-strip steps. |
| Strings.Join | app.py:82 | `sep.join(parts)`: the empty list gives the empty string and one part gives itself. The length is the total length of the parts plus one separator between each pair. |
| Strings.JoinAppend | app.py:87 | For non-empty `a` and `b`, joining `a + b` is joining `a`, one separator, then joining `b`. |
| Strings.Concat | app.py:22-25 | The concatenation's length is the total length of the pieces. No pieces give the empty string, and one piece gives itself. |
| Strings.ConcatAppend | app.py:24-25 | Concatenating `a + b` is concatenating `a`, then `b`: every piece appears once, in order. |
| Strings.ConcatPiece | app.py:24-25 | Piece `i` sits in the concatenation at the offset given by the total length of the pieces before it. |
| Strings.EndsWith | app.py:33-35 | `s.endswith(suffix)` holds exactly when `s` is some stem followed by `suffix`. |
| Entities.Route | app.py:56-63 | One loop step: each bucket grows by the span's text exactly when the span carries that bucket's label, and otherwise stays as it was. |
| Entities.PerformNer | app.py:47-64 | Each of the four buckets holds exactly the texts of the spans labelled PERSON, GPE, DATE and ORG respectively. No spans give four empty sets. |
| Entities.PerformNerAppend | app.py:55-63 | The buckets for `a + b` are the unions of the buckets for `a` and for `b`, so span order never matters. |
| Entities.OtherLabelIgnored | app.py:55-63 | A span with any other label changes no bucket, wherever it stands among the spans. |
| Entities.RoutedByLabel | app.py:56-63 | A new span adds its text to the bucket of its own label and to no other bucket. |
| Simplify.Gather | app.py:73-79 | The list for a dependency label has one entry per token carrying that label. A string is in it exactly when some token with that label has that text. It is empty exactly when no token has the label. |
| Simplify.GatherAppend | app.py:73-79 | The subject, verb and object lists keep token order: gathering over `a + b` is gathering over `a` followed by gathering over `b`. |
| Simplify.Skeleton | app.py:82 | The skeleton is non-empty and ends in `.`. Its length is the three lists' total lengths, plus 5 per ` and `, 2 per `, `, and 3 for the two spaces and the period. With one entry per list it is exactly `subject verb object.`. |
| Simplify.SimplifyOne | app.py:71-85 | A sentence with at least one `nsubj`, one `ROOT` and one `dobj` token becomes the skeleton, which is non-empty and ends in `.`. Any other sentence is its own text, unchanged. |
| Simplify.Pieces | app.py:71-86 | There is one piece per sentence, in sentence order, and piece `i` is what sentence `i` contributes. |
| Simplify.SimplifySentences | app.py:67-87 | No sentences give the empty string; one sentence gives its piece. |
| Simplify.SimplifyAppend | app.py:87 | For non-empty `a` and `b`, the result for `a + b` is the result for `a`, a single space, then the result for `b`: one piece per sentence, in order. |
| Simplify.OtherDepIgnored | app.py:73-79 | Tokens with any other dependency label never change a sentence's piece. |
| Simplify.SingleSvo | app.py:73-83 | A sentence with exactly one token labelled `nsubj`, one labelled `ROOT` and one labelled `dobj`, at any positions and in any order, gives exactly `subject verb object.`. |
| Simplify.NoSvoPassesThrough | app.py:84-87 | If no sentence has the full structure, the result is the sentence texts joined by spaces. |
| Themes.Keywords | app.py:99 | A string is a keyword exactly when it is the lowered text of some non-stop-word `NOUN` token. Each keyword occurs in the list exactly as often as there are such tokens with that lowered text. |
| Themes.KeywordsAppend | app.py:99 | The keyword list of a concatenation is the keyword list of the first part followed by that of the second. The list therefore keeps the tokens' order, as the list comprehension does. |
| Themes.Count | app.py:100 | `Counter(keywords)[k]` is positive exactly when `k` is a keyword, and never exceeds the list length. |
| Themes.FirstIndex | app.py:100 | The position of the first occurrence of a keyword, or the list length when it is absent. |
| Themes.Distinct | app.py:100 | The counter's keys: each keyword once, in order of first occurrence. |
| Themes.BeforeIsStrictTotalOrder | app.py:101 | The ranking order (count descending, then first occurrence) is irreflexive, transitive and total on distinct keywords. |
| Themes.BestIndex | app.py:101 | The picked candidate ranks before every other remaining candidate. |
| Themes.TopN | app.py:101 | `most_common(n)` returns `min(n, candidates)` items, or none when `n <= 0`. Items come in ranking order, and no candidate left out ranks before one kept. |
| Themes.ExtractThemes | app.py:97-101 | The result has no duplicates. Its length is `min(top_n, distinct keywords)`. Every theme is a qualifying keyword, and themes come in non-increasing count with ties by first occurrence. No keyword left out has a higher count, or an equal count and earlier first occurrence. |
| Themes.TopSelectionUnique | app.py:101 | The promise of `most_common` determines its result: two lists that both meet it are equal. |
| Themes.ThemesAreTheTopSelection | app.py:97-101 | Any list meeting that promise is the result of `extract_themes`. |
| Themes.TopNPrefix | app.py:101 | Asking for more themes only extends the list; the first `n` never change. |
| Themes.NonQualifyingIgnored | app.py:99 | A non-noun or stop-word token never changes the themes, wherever it stands among the tokens. |
| Sentiment.Classify | app.py:111-116 | Positive iff `score >= 0.05`, Negative iff `score < 0.05` and `score <= -0.05`, Neutral iff `-0.05 < score < 0.05`. |
| Sentiment.ClassifyMonotone | app.py:111-116 | A higher score never gets a lower label (Negative < Neutral < Positive). |
| Sentiment.NameInjective | app.py:112-116 | The three label spellings are distinct. |
| Sentiment.SentimentAnalysis | app.py:104-119 | There is one pair per sentence, in order. Each pair holds the sentence text and a label that is Positive iff `score >= 0.05` and Negative iff `score <= -0.05`. |
| Ingest.ExtractPdfText | app.py:21-26 | The text's length is the pages' total length, and page `i`'s text appears at the offset given by the total length of the pages before it. So the text is the pages concatenated in page order. |
| Ingest.ExtractDocxText | app.py:28-30 | The paragraphs joined by newlines: total length plus one newline between each pair. |
| Ingest.ExtractTextFromFile | app.py:32-38 | `.pdf` selects the PDF text. `.docx` without `.pdf` selects the DOCX text. Every other name yields exactly the sentinel string. |
| Ingest.PdfSuffixSelectsPdf | app.py:33-34 | Any name ending in `.pdf` selects PDF extraction. |
| Ingest.DocxSuffixSelectsDocx | app.py:35-36 | Any name ending in `.docx` selects DOCX extraction. |
| Ingest.UpperCaseExtensionUnsupported | app.py:33-38 | The match is case-sensitive: `REPORT.PDF` and `notes.DOCX` yield the sentinel. |
| Ingest.AnalyseAsWritten | app.py:128-135 | As written, every extraction result, the sentinel included, is cleaned and analysed. |
| Ingest.SentinelIsAnalysed | app.py:128-135 | For an unsupported name the sentinel itself is analysed, and it is non-empty once cleaned. |
| Ingest.Ingest | app.py:32-38 | Corrected extraction: the result is the unsupported-format failure exactly when the name ends in neither `.pdf` nor `.docx`. Otherwise it is the document text `extract_text_from_file` returns. |
| Ingest.Analyse | app.py:128-135 | Corrected flow: the text is rejected exactly when the name ends in neither `.pdf` nor `.docx`. Otherwise it is analysed as before. |

## Left out

- spaCy parsing, sentence segmentation, dependency labels, part-of-speech and entity tagging, and stop-word flags (app.py:5, 15-18, 48, 68, 98, 106). They are calls into foreign models; their output is an input of the model.
- VADER compound scoring (app.py:105, 110) is a foreign lexicon model, so the score is a `real` input. The thresholds are compared as reals. No double lies between 0.05 and the double nearest 0.05, and the same holds at -0.05, so the comparisons agree with the floating-point ones on every double score.
- `summarize_text` (app.py:90-94) is only a call into sumy's TextRank summariser, which is not part of this model. The script adds only the space join, already modelled by `Strings.Join`.
- Reading PDF pages and DOCX paragraphs (app.py:23-25, 29) is container parsing and file I/O. The page and paragraph texts are inputs.
- The Streamlit layout is display and I/O. This covers the checkboxes, the 1000-character preview, `", ".join(themes)`, the per-sentence `strip()` when showing sentiment, and the model download at start-up (app.py:11-18, 122-172). Lines 128-135 are modelled only as far as the finding below needs.
- Chars.LowerChar: models `str.lower()` exactly for ASCII and for the two characters whose lower-case form contains an ASCII letter (U+0130, U+212A). It leaves every other non-ASCII character unchanged, where Python may map it to another non-ASCII character. The next step deletes all such characters either way, so `Clean.CleanText` is exact.
- Themes.Keywords: keywords are lowered with `Chars.Lower`, which lowers ASCII only. A non-ASCII capital such as `Ä` therefore counts as a separate keyword, where Python's `token.text.lower()` would merge it with `ä`. The page passes only cleaned text to `extract_themes` (app.py:159), and that text is ASCII, so this never arises there.
- Chars.IsSpace is the fixed set of characters Python's `\s` and `str.strip()` treat as white space. It is not derived from the Unicode database at run time.
- `top_n` is a parameter of `Themes.ExtractThemes`; the script's default is `Themes.DefaultTopN`.

## Findings

| source | as written | input that shows it | evidently intended | confidence | as-written member | corrected member |
|---|---|---|---|---|---|---|
| app.py:130 | `isinstance(raw_text, str)` is true of every value `extract_text_from_file` returns, the sentinel included. The error branch at app.py:169-170 is dead, and the sentinel is shown, cleaned and analysed as if it were the document. | a file named `REPORT.PDF` (upper-case extension) | a name with an unsupported extension gets the error message and no analysis | high that the branch is dead; not executed | Ingest.SentinelIsAnalysed | Ingest.Analyse |
