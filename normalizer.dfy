/** The text normaliser of `extract_text_from_pdf`: page texts are appended
    in document order and the result is lower-cased. The pages are given as
    strings; opening the PDF and reading each page is not part of this model. */
module Normalizer {
  import opened Strings

  /** The pages joined in order, with no separator. */
  function Concat(pages: seq<string>): (text: string)
    ensures pages == [] ==> text == ""
    ensures |pages| == 1 ==> text == pages[0]
  {
    if pages == [] then "" else Concat(pages[..|pages| - 1]) + pages[|pages| - 1]
  }

  /** Concatenation of a split list is the concatenation of its parts. */
  lemma {:induction false} ConcatAppend(a: seq<string>, b: seq<string>)
    ensures Concat(a + b) == Concat(a) + Concat(b)
    decreases |b|
  {
    if b == [] {
      assert a + b == a;
    } else {
      assert (a + b)[..|a + b| - 1] == a + b[..|b| - 1];
      ConcatAppend(a, b[..|b| - 1]);
    }
  }

  /** Every page appears whole in the joined text, at the offset given by
      the pages before it. */
  lemma PageInText(pages: seq<string>, i: nat)
    requires i < |pages|
    ensures OccursAt(pages[i], Concat(pages), |Concat(pages[..i])|)
  {
    assert pages == pages[..i] + [pages[i]] + pages[i + 1..];
    ConcatAppend(pages[..i] + [pages[i]], pages[i + 1..]);
    ConcatAppend(pages[..i], [pages[i]]);
    assert Concat([pages[i]]) == Concat([]) + pages[i];
    var text := Concat(pages);
    var offset := |Concat(pages[..i])|;
    assert text == Concat(pages[..i]) + pages[i] + Concat(pages[i + 1..]);
    assert text[offset..offset + |pages[i]|] == pages[i];
  }

  /** `extract_text_from_pdf` with the page texts as input: the loop
      `text += page.get_text()` followed by `text.lower()`. */
  method ExtractText(pages: seq<string>) returns (text: string)
    ensures text == ToLower(Concat(pages))
  {
    var raw := "";
    for i := 0 to |pages|
      invariant raw == Concat(pages[..i])
    {
      assert pages[..i + 1][..i] == pages[..i];
      raw := raw + pages[i];
    }
    assert pages[..|pages|] == pages;
    text := ToLower(raw);
  }

  /** A keyword that occurs in the lower-cased text of one page occurs in
      the normalised text of the whole document: a skill or section name
      written on any page, in any letter case, is seen by the scorer. */
  lemma {:induction false} KeywordOnPageIsFound(pages: seq<string>, i: nat, k: string)
    requires i < |pages|
    requires IsSubstring(k, ToLower(pages[i]))
    ensures IsSubstring(k, ToLower(Concat(pages)))
  {
    var t := Concat(pages);
    var offset := |Concat(pages[..i])|;
    PageInText(pages, i);
    LowerSlice(t, offset, offset + |pages[i]|);
    assert ToLower(t)[offset..offset + |pages[i]|] == ToLower(pages[i]);
    assert OccursAt(ToLower(pages[i]), ToLower(t), offset);
    SubstringTransitive(k, ToLower(pages[i]), ToLower(t));
  }
}
