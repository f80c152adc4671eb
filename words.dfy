/** Python's argument-less `str.split()`, which `len(text.split())` uses to
    count the words of a resume. */
module Words {

  /** The characters Python's `str.split()` treats as whitespace: space,
      `\t \n \v \f \r` (9 to 13), the separators 28 to 31, and the
      Unicode spaces and line or paragraph separators. */
  predicate IsSpace(c: char) {
    var n := c as int;
    || n == 0x20 || 0x09 <= n <= 0x0D || 0x1C <= n <= 0x1F
    || n == 0x85 || n == 0xA0 || n == 0x1680 || 0x2000 <= n <= 0x200A
    || n == 0x2028 || n == 0x2029 || n == 0x202F || n == 0x205F || n == 0x3000
  }

  predicate HasNoSpace(s: string) {
    forall i :: 0 <= i < |s| ==> !IsSpace(s[i])
  }

  /** Length of the run of non-whitespace characters `s` starts with. */
  function RunLength(s: string): (n: nat)
    ensures n <= |s|
    ensures HasNoSpace(s[..n])
    ensures n < |s| ==> IsSpace(s[n])
  {
    if s == [] || IsSpace(s[0]) then 0
    else
      var n := 1 + RunLength(s[1..]);
      assert s[..n] == [s[0]] + s[1..][..n - 1];
      n
  }

  /** `s.split()`: maximal runs of non-whitespace characters, in order. */
  function Split(s: string): (words: seq<string>)
    decreases |s|
    ensures forall w :: w in words ==> w != [] && HasNoSpace(w)
  {
    if s == [] then []
    else if IsSpace(s[0]) then Split(s[1..])
    else
      var n := RunLength(s);
      [s[..n]] + Split(s[n..])
  }

  /** `len(s.split())`: never more words than characters, and no word at
      all exactly when the text is blank. */
  function WordCount(s: string): (n: nat)
    ensures n <= |s|
    ensures n == 0 <==> forall i :: 0 <= i < |s| ==> IsSpace(s[i])
  {
    SplitBlank(s);
    |Split(s)|
  }

  /** The split has at most one word per character, and is empty exactly for
      a text made of whitespace only. */
  lemma {:induction false} SplitBlank(s: string)
    ensures |Split(s)| <= |s|
    ensures Split(s) == [] <==> forall i :: 0 <= i < |s| ==> IsSpace(s[i])
    decreases |s|
  {
    if s != [] {
      if IsSpace(s[0]) {
        SplitBlank(s[1..]);
        if forall i :: 0 <= i < |s| - 1 ==> IsSpace(s[1..][i]) {
          forall i | 0 <= i < |s| ensures IsSpace(s[i]) {
            if i > 0 { assert s[i] == s[1..][i - 1]; }
          }
        }
      } else {
        var n := RunLength(s);
        SplitBlank(s[n..]);
      }
    }
  }

  /** A run does not reach past a whitespace character that follows it. */
  lemma {:induction false} RunStopsAtSpace(a: string, b: string)
    requires b != [] && IsSpace(b[0])
    ensures RunLength(a + b) == RunLength(a)
  {
    if a != [] && !IsSpace(a[0]) {
      assert (a + b)[1..] == a[1..] + b;
      RunStopsAtSpace(a[1..], b);
    }
  }

  /** A string without whitespace is one word (or none, if it is empty). */
  lemma {:induction false} SplitToken(s: string)
    requires HasNoSpace(s)
    ensures Split(s) == if s == [] then [] else [s]
  {
    if s != [] {
      assert s[..|s|] == s;
      assert s[|s|..] == [];
    }
  }

  /** Splitting at a whitespace character: the words of `a + [c] + b` are the
      words of `a` followed by the words of `b`. With SplitToken this
      determines Split completely. */
  lemma {:induction false} SplitAtSpace(a: string, c: char, b: string)
    requires IsSpace(c)
    ensures Split(a + [c] + b) == Split(a) + Split(b)
    decreases |a|, 1
  {
    var s := a + [c] + b;
    if a == [] {
      assert s == [c] + b;
      assert s[1..] == b;
    } else if IsSpace(a[0]) {
      assert s[1..] == a[1..] + [c] + b;
      SplitAtSpace(a[1..], c, b);
    } else {
      SplitAtSpaceInWord(a, c, b);
    }
  }

  /** The case of SplitAtSpace where `a` starts with a word. */
  lemma {:induction false} SplitAtSpaceInWord(a: string, c: char, b: string)
    requires IsSpace(c) && a != [] && !IsSpace(a[0])
    ensures Split(a + [c] + b) == Split(a) + Split(b)
    decreases |a|, 0
  {
    var s := a + [c] + b;
    var n := RunLength(a);
    calc {
      Split(s);
    == { assert s == a + ([c] + b); RunStopsAtSpace(a, [c] + b); SplitFirstWord(s); }
      [s[..n]] + Split(s[n..]);
    == { assert s[..n] == a[..n]; assert s[n..] == a[n..] + [c] + b; }
      [a[..n]] + Split(a[n..] + [c] + b);
    == { SplitAtSpace(a[n..], c, b); }
      [a[..n]] + (Split(a[n..]) + Split(b));
    == { SplitFirstWord(a); }
      Split(a) + Split(b);
    }
  }

  /** A string that starts with a word splits into that word and the words
      of the rest. */
  lemma SplitFirstWord(s: string)
    requires s != [] && !IsSpace(s[0])
    ensures Split(s) == [s[..RunLength(s)]] + Split(s[RunLength(s)..])
  {
  }

  /** Lower-casing never turns a character into or out of whitespace, so it
      leaves the word count alone. */
  lemma {:induction false} SplitIgnoresCase(s: string, t: string)
    requires |s| == |t|
    requires forall i :: 0 <= i < |s| ==> (IsSpace(s[i]) <==> IsSpace(t[i]))
    ensures WordCount(s) == WordCount(t)
    decreases |s|
  {
    if s != [] {
      if IsSpace(s[0]) {
        SplitIgnoresCase(s[1..], t[1..]);
      } else {
        RunLengthIgnoresCase(s, t);
        var n := RunLength(s);
        SplitIgnoresCase(s[n..], t[n..]);
      }
    }
  }

  lemma {:induction false} RunLengthIgnoresCase(s: string, t: string)
    requires |s| == |t|
    requires forall i :: 0 <= i < |s| ==> (IsSpace(s[i]) <==> IsSpace(t[i]))
    ensures RunLength(s) == RunLength(t)
    decreases |s|
  {
    if s != [] && !IsSpace(s[0]) {
      RunLengthIgnoresCase(s[1..], t[1..]);
    }
  }
}
