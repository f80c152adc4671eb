# Resume analyzer: a Dafny model

A model of the analysis core of a small resume-scoring web service (`main.py`).
The service takes a PDF resume and extracts and lower-cases its text. It then
scores the text against a fixed list of 13 skills and stores a flat record of
the result. Two read endpoints rebuild the analysis from that record.

The model has seven modules:

- `Strings`: the string primitives involved.
  - Python's `pat in s` is a leftmost substring search, proved to agree with
    the declarative "occurs at some index".
  - `str.endswith`.
  - ASCII `str.lower`.
  - The decimal rendering behind `f"{score}%"`.
- `Words`: Python's argument-less `str.split()`, behind `total_words`.
- `Delimited`: `sep.join(xs)` and the guarded read-back
  `s.split(sep) if s else []`.
- `Normalizer`: `extract_text_from_pdf` with the page texts given as input.
  The pages are appended in order and the result is lower-cased. This is a
  method with a loop, proved against a specification function.
- `Tips`: the three fixed suggestion texts.
- `Scorer`: `REQUIRED_SKILLS` and `analyze_resume`.
  - The found/missing partition.
  - The whole-percentage score.
  - The three conditional suggestions.
  - The method `AnalyzeResume`, which follows the source's statements and is
    proved equal to the functional specification `Analyze`.
- `Upload`: the `upload_resume` handler without HTTP and without the database.
  - The case-sensitive `.pdf` check.
  - The `ResumeData` row built from an analysis.
  - The analysis that the read endpoints rebuild from a row.
  - A proof that this read-back returns exactly the analysis that was stored.

## Model

| member | source | states |
|---|---|---|
| `Strings.IndexOf` | main.py:59 | The search returns the leftmost index where the pattern occurs. It returns none only when the pattern occurs nowhere. |
| `Strings.Contains` | main.py:59-60 | `skill in text` holds iff the skill is a substring of the text, in both directions. |
| `Strings.EndsWithIff` | main.py:88 | `s.endswith(x)` holds iff `s` is some string followed by `x`. |
| `Strings.ToLower` | main.py:54 | `lower()` keeps the length and lower-cases each ASCII letter in place, leaving every other character unchanged. |
| `Strings.LowerIsLower` | main.py:54 | `lower()` leaves no upper-case letter and is idempotent. It is the identity on text that is already lower case. |
| `Strings.LowerKeepsKeyword` | main.py:54 | A lower-case keyword present in the raw text is still present after lower-casing. |
| `Strings.Decimal` | main.py:74 | The rendering of the score is all digits and has no leading zero. A score of 0 is rendered as exactly "0". |
| `Strings.DecimalRoundTrip` | main.py:74 | Reading the decimal rendering back gives the number. |
| `Words.Split` | main.py:100 | `text.split()` yields only non-empty words without whitespace. |
| `Words.WordCount` | main.py:100 | `len(text.split())` is at most the length of the text. It is 0 iff the text is whitespace only. |
| `Words.SplitBlank` | main.py:100 | `text.split()` has at most one word per character and is empty iff the text is whitespace only. |
| `Words.SplitToken` | main.py:100 | A whitespace-free string is one word, or no word when it is empty. |
| `Words.SplitAtSpace` | main.py:100 | Splitting at any whitespace character gives the words on its left followed by the words on its right. Together with `SplitToken` this determines `split()` completely. |
| `Words.SplitIgnoresCase` | main.py:95-100 | Two texts with whitespace in the same positions have the same word count. |
| `Delimited.Join` | main.py:101 | In the join of two or more items, the separator follows the first item directly. |
| `Delimited.SplitOn` | main.py:130 | `s.split(sep)` has at least one piece, and no piece contains the separator. |
| `Delimited.JoinSplit` | main.py:130 | `sep.join(s.split(sep)) == s` for every string: splitting loses nothing. |
| `Delimited.Decode` | main.py:130-133 | The guarded read-back gives no items iff the column is empty. Joining its items again restores the column. |
| `Delimited.SplitJoin` | main.py:130-131 | Splitting a join gives the list back when the separator cannot overlap itself and no item contains it. |
| `Delimited.DecodeJoin` | main.py:130-133 | The guarded read-back inverts the join iff no item contains the separator and the list is not `[""]`. |
| `Normalizer.Concat` | main.py:50-53 | No pages give the empty text, and a single page gives itself. With `ConcatAppend` this determines the text: the pages appear whole, in document order, with nothing between them. |
| `Normalizer.ConcatAppend` | main.py:52-53 | Concatenating pages distributes over splitting the page list. |
| `Normalizer.PageInText` | main.py:52-53 | Every page appears whole in the concatenated text, at the offset given by the pages before it. |
| `Normalizer.ExtractText` | main.py:48-54 | The page loop followed by `lower()` returns the lower-cased concatenation of the pages in document order. |
| `Normalizer.KeywordOnPageIsFound` | main.py:50-54 | A keyword present in the lower-cased text of any page is present in the normalised document text. |
| `Tips.TipsFreeOfSemicolon` | main.py:65-69 | None of the three suggestion texts contains a semicolon. |
| `Scorer.Select` | main.py:59-60 | A comprehension keeps exactly the list entries whose containment in the text equals the requested polarity. |
| `Scorer.SelectKeepsOrder` | main.py:59-60 | The comprehension result is a subsequence of the skill list, so it keeps the list's order. |
| `Scorer.SelectPartitions` | main.py:59-60 | Found and missing skills add up to the skill list as multisets, and their lengths add up to its length. They cover it and are disjoint. |
| `Scorer.SelectDistinct` | main.py:59-60 | A selection from a repetition-free list is repetition-free. |
| `Scorer.Score` | main.py:61 | The score is the floor of `100 * found / 13` and lies in 0..100. It is 100 iff all 13 skills are found. |
| `Scorer.ScoreOf` | main.py:61 | The score of a text lies in 0..100. |
| `Scorer.BelowPassingIffAtMostSeven` | main.py:61-64 | With 13 skills, the score is below 60 iff at most 7 skills are found. |
| `Scorer.Suggestions` | main.py:63-69 | Each tip appears iff its condition holds, and the tips keep the fixed order. There are at most the three fixed ones. The list is empty iff the score is at least 60 and the text contains both "project" and "experience". |
| `Scorer.ScoreLabel` | main.py:74 | `resume_score` ends in `%` and has at least one character before it. |
| `Scorer.Analyze` | main.py:57-76 | Found and missing skills together have the length of the skill list, and there are at most three suggestions. The lemmas below state the rest. |
| `Scorer.AnalyzeResume` | main.py:57-76 | The statement-by-statement analysis, including the suggestions built by conditional appends, equals the specification `Analyze`. |
| `Scorer.RequiredSkillsWellFormed` | main.py:42-45 | The skill list has 13 entries. They are distinct, non-empty and lower case. |
| `Scorer.AnalysisPartitionsSkills` | main.py:57-60 | Each found skill occurs in the text and each missing skill does not. The two lists are disjoint, repetition-free and cover the skill list with multiplicity. Both keep its order. |
| `Scorer.AnalysisScore` | main.py:61-74 | `resume_score` renders the whole percentage of the 13 skills found. That percentage lies in 0..100 and is 100 iff nothing is missing. |
| `Scorer.SkillsTipIffAtMostSeven` | main.py:61-65 | The skills suggestion is given iff at most 7 skills are found. |
| `Scorer.ScoreLabelReadsBack` | main.py:74 | The characters before `%` are decimal digits denoting the score, with no leading zero. A score of 0 gives exactly "0%". |
| `Scorer.ContainedSkillFound` | main.py:59 | When a found skill contains another listed skill, that other skill is found too. |
| `Scorer.FastApiImpliesApi` | main.py:43-44 | Whenever "fastapi" is found, "api" is found. |
| `Scorer.JavaScriptImpliesJava` | main.py:43-44 | Whenever "javascript" is found, "java" is found. |
| `Upload.IsPdfName` | main.py:88 | Accepted names are exactly those of the form `stem + ".pdf"`. |
| `Upload.PdfNameCheck` | main.py:88-89 | The check is case-sensitive and looks at the suffix only: every stem with `.pdf` is accepted, and `.PDF` and `.docx` are refused. |
| `Upload.MakeRow` | main.py:98-105 | The row keeps the filename and the score string. Its word count is the number of words of the text. |
| `Upload.ReadAnalysis` | main.py:127-135 | The read endpoints keep the score string. Each list column gives no items iff it is empty, and joining the items again restores the column. |
| `Upload.SeparatorsUnbordered` | main.py:101-104 | Neither `", "` nor `"; "` can overlap itself. |
| `Upload.SkillListReadsBack` | main.py:101-102 | Any list of listed skills survives the `", "` join and split unchanged. |
| `Upload.TipListReadsBack` | main.py:104 | Any list of the fixed suggestions survives the `"; "` join and split unchanged. |
| `Upload.AnalysisFromFixedVocabulary` | main.py:57-76 | An analysis only contains listed skills and the three fixed suggestions. |
| `Upload.RowReadsBack` | main.py:146-155 | Rebuilding the analysis from a stored row gives exactly the analysis the row was built from. |
| `Upload.UploadResume` | main.py:85-116 | The upload is refused iff the name does not end in `.pdf`. On success, the analysis is that of the lower-cased page text, and the row keeps the filename and the word count of the text. The row reads back as the returned analysis. |
| `Upload.SkillOnPageIsFound` | main.py:95-96 | A listed skill on any page, in any letter case, is reported as found and not as missing. |
| `Upload.LowerKeepsWordCount` | main.py:95-100 | Lower-casing does not change the word count. |

## Left out

- HTTP and framework wiring are not modelled: the routes, CORS, the status codes and the response messages, including the root route's message. The 400 refusal is the `InvalidFileType` error.
- The SQLite store is not modelled:
  - the table creation and the ids it assigns;
  - `session.add` and `commit`;
  - listing all rows in `get_all_resumes`;
  - the 404 of `get_resume` for an unknown id;
  - `delete_resume` and `clear_all_resumes`.

  The per-row conversion that both read endpoints share is modelled as `ReadAnalysis`. The table is a persistence layer with no logic of its own.
- Writing the upload to `uploads/` and opening the PDF with PyMuPDF are I/O and a foreign library. The page texts are a parameter of `ExtractText` and `UploadResume`. `Upload.UploadResume` therefore does not model the failures of these steps. An unwritable path or a corrupt PDF raises an exception (HTTP 500) and creates no row. The model's "refused iff the name does not end in `.pdf`" covers only the 400 refusal (`InvalidFileType`).
- `os.path.join` with an arbitrary client filename is part of that file write and is left out.
- `Scorer.Score` computes the exact floor of `100 * found / 13`, while the source computes `int((found / 13) * 100)` in floating point. The two agree for every found count from 0 to 13: each non-integral `100 * k / 13` is at least 1/13 away from an integer, far beyond the rounding error of a double. `Score` takes the found count only and divides by the length of the fixed list, which `RequiredSkillsWellFormed` states is 13.
- `Strings.ToLower` lower-cases ASCII letters only. Python's full Unicode `lower()` is not modelled, including the characters whose lower-case form is longer. This changes results. For example, Python lowers 'İ' (U+0130) to an ASCII 'i' followed by a combining dot, so a resume containing "APİ" becomes "api̇". Python then reports "api" as found, but the model does not.
- A missing filename (`None`) in the upload is not modelled. The filename is always a string here.
