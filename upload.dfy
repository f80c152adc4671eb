/** The upload path of `POST /upload_resume` and the read-back of
    `GET /resume/{id}` and `GET /resumes`, without HTTP and without the
    database: the filename check, the row written for a resume, and the
    analysis rebuilt from that row. */
module Upload {
  import opened Strings
  import opened Words
  import opened Delimited
  import opened Normalizer
  import opened Scorer
  import opened Tips

  /** Separators of the flattened list columns. */
  const SkillSeparator: string := ", "
  const TipSeparator: string := "; "

  /** `file.filename.endswith(".pdf")`: accepted names are exactly those of
      the form `stem + ".pdf"`. */
  function IsPdfName(filename: string): (ok: bool)
    ensures ok <==> exists stem: string :: stem + ".pdf" == filename
  {
    EndsWithIff(filename, ".pdf");
    EndsWith(filename, ".pdf")
  }

  /** The check is case-sensitive and looks at the suffix only: every stem
      with ".pdf" is accepted, ".PDF" and other extensions are refused. */
  lemma PdfNameCheck(stem: string)
    ensures IsPdfName(stem + ".pdf")
    ensures !IsPdfName(stem + ".PDF") && !IsPdfName(stem + ".docx")
  {
    assert (stem + ".pdf")[|stem|..] == ".pdf";
    assert (stem + ".PDF")[|stem + ".PDF"| - 4..] == ".PDF";
    assert (stem + ".docx")[|stem + ".docx"| - 4..] == "docx";
  }

  datatype UploadError = InvalidFileType

  datatype Result<T> = Ok(value: T) | Err(error: UploadError)

  /** A `ResumeData` row as the upload fills it in. The `id` column is
      assigned by the database and is not part of this model. */
  datatype ResumeRow = ResumeRow(
    filename: string,
    totalWords: nat,
    skillsFound: string,
    skillsMissing: string,
    resumeScore: string,
    suggestions: string)

  /** The row built from an analysed upload: list fields joined with ", "
      (skills) and "; " (suggestions). */
  function MakeRow(filename: string, text: string, a: Analysis): (row: ResumeRow)
    ensures row.filename == filename && row.resumeScore == a.resumeScore
    ensures row.totalWords == |Words.Split(text)|
  {
    ResumeRow(filename, WordCount(text),
              Join(a.skillsFound, SkillSeparator), Join(a.skillsMissing, SkillSeparator),
              a.resumeScore, Join(a.suggestions, TipSeparator))
  }

  /** The `analysis` object that the read endpoints rebuild from a row:
      each list column split on its separator, an empty column giving []. */
  function ReadAnalysis(row: ResumeRow): (a: Analysis)
    ensures a.resumeScore == row.resumeScore
    ensures Join(a.skillsFound, SkillSeparator) == row.skillsFound
    ensures Join(a.skillsMissing, SkillSeparator) == row.skillsMissing
    ensures Join(a.suggestions, TipSeparator) == row.suggestions
    ensures (a.skillsFound == [] <==> row.skillsFound == [])
        && (a.skillsMissing == [] <==> row.skillsMissing == [])
        && (a.suggestions == [] <==> row.suggestions == [])
  {
    Analysis(Decode(row.skillsFound, SkillSeparator), Decode(row.skillsMissing, SkillSeparator),
             row.resumeScore, Decode(row.suggestions, TipSeparator))
  }

  /** A string without the first character of `sep` does not contain `sep`. */
  lemma FreeOfSeparator(sep: string, s: string)
    requires sep != [] && sep[0] !in s
    ensures !IsSubstring(sep, s)
  {
    forall i: nat ensures !OccursAt(sep, s, i) {
    }
  }

  /** Neither separator can overlap itself. */
  lemma SeparatorsUnbordered()
    ensures Unbordered(SkillSeparator) && Unbordered(TipSeparator)
  {
    forall m | 0 < m < 2 ensures SkillSeparator[..m] != SkillSeparator[2 - m..] {
      assert SkillSeparator[..1][0] == ',';
    }
    forall m | 0 < m < 2 ensures TipSeparator[..m] != TipSeparator[2 - m..] {
      assert TipSeparator[..1][0] == ';';
    }
  }

  /** Every list of skills drawn from `REQUIRED_SKILLS` survives the ", "
      encoding unchanged. */
  lemma {:induction false} SkillListReadsBack(skills: seq<string>)
    requires forall s :: s in skills ==> s in RequiredSkills
    ensures Decode(Join(skills, SkillSeparator), SkillSeparator) == skills
  {
    assert "" !in RequiredSkills;
    forall s | s in skills ensures !IsSubstring(SkillSeparator, s) {
      assert ',' !in s;
      FreeOfSeparator(SkillSeparator, s);
    }
    SeparatorsUnbordered();
    DecodeJoin(skills, SkillSeparator);
  }

  /** Every list of suggestions drawn from the three fixed tips survives the
      "; " encoding unchanged. */
  lemma {:induction false} TipListReadsBack(tips: seq<string>)
    requires forall t :: t in tips ==> t in [SkillsTip, ProjectTip, ExperienceTip]
    ensures Decode(Join(tips, TipSeparator), TipSeparator) == tips
  {
    assert "" !in [SkillsTip, ProjectTip, ExperienceTip];
    forall t | t in tips ensures !IsSubstring(TipSeparator, t) {
      TipsFreeOfSemicolon();
      FreeOfSeparator(TipSeparator, t);
    }
    SeparatorsUnbordered();
    DecodeJoin(tips, TipSeparator);
  }

  /** What `analyze_resume` can put in its lists: skills from
      `REQUIRED_SKILLS` and the three fixed suggestions. */
  predicate FromFixedVocabulary(a: Analysis) {
    && (forall s :: s in a.skillsFound ==> s in RequiredSkills)
    && (forall s :: s in a.skillsMissing ==> s in RequiredSkills)
    && (forall t :: t in a.suggestions ==> t in [SkillsTip, ProjectTip, ExperienceTip])
  }

  lemma AnalysisFromFixedVocabulary(text: string)
    ensures FromFixedVocabulary(Analyze(text))
  {
  }

  /** Reading a stored row back gives exactly the analysis it was built
      from: same skills in the same order, same score string, same
      suggestions. */
  lemma {:induction false} RowReadsBack(filename: string, text: string, a: Analysis)
    requires FromFixedVocabulary(a)
    ensures ReadAnalysis(MakeRow(filename, text, a)) == a
  {
    SkillListReadsBack(a.skillsFound);
    SkillListReadsBack(a.skillsMissing);
    TipListReadsBack(a.suggestions);
  }

  /** What a successful upload produces: the row to store and the analysis
      returned to the client. */
  datatype Uploaded = Uploaded(row: ResumeRow, analysis: Analysis)

  /** `upload_resume`, with the uploaded PDF given by its page texts: a name
      not ending in ".pdf" is refused before anything is extracted or
      stored; otherwise the text is normalised and analysed, and the row is
      built from it. */
  method UploadResume(filename: string, pages: seq<string>) returns (r: Result<Uploaded>)
    ensures r.Err? <==> !IsPdfName(filename)
    ensures r.Err? ==> r.error == InvalidFileType
    ensures r.Ok? ==> r.value.analysis == Analyze(ToLower(Concat(pages)))
    ensures r.Ok? ==> r.value.row.filename == filename
    ensures r.Ok? ==> r.value.row.totalWords == WordCount(Concat(pages))
    ensures r.Ok? ==> ReadAnalysis(r.value.row) == r.value.analysis
  {
    if !IsPdfName(filename) {
      return Err(InvalidFileType);
    }
    var text := ExtractText(pages);
    var analysis := AnalyzeResume(text);
    var row := MakeRow(filename, text, analysis);
    AnalysisFromFixedVocabulary(text);
    RowReadsBack(filename, text, analysis);
    LowerKeepsWordCount(Concat(pages));
    r := Ok(Uploaded(row, analysis));
  }

  /** A required skill written on any page of an accepted upload, in any
      letter case, is reported as found and not as missing. */
  lemma SkillOnPageIsFound(pages: seq<string>, i: nat, skill: string)
    requires i < |pages| && skill in RequiredSkills
    requires IsSubstring(skill, ToLower(pages[i]))
    ensures var a := Analyze(ToLower(Concat(pages)));
      skill in a.skillsFound && skill !in a.skillsMissing
  {
    KeywordOnPageIsFound(pages, i, skill);
  }

  /** Lower-casing does not change the word count. */
  lemma LowerKeepsWordCount(s: string)
    ensures WordCount(ToLower(s)) == WordCount(s)
  {
    SplitIgnoresCase(ToLower(s), s);
  }
}
