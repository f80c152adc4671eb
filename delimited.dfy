/** The flat text encoding of list fields in a stored resume record:
    `sep.join(xs)` when writing, and `s.split(sep) if s else []` when
    reading back. */
module Delimited {
  import opened Strings

  /** `sep.join(xs)`. */
  function Join(xs: seq<string>, sep: string): (r: string)
    ensures |xs| >= 2 ==> OccursAt(sep, r, |xs[0]|)
  {
    if xs == [] then ""
    else if |xs| == 1 then xs[0]
    else
      assert (xs[0] + sep + Join(xs[1..], sep))[|xs[0]|..|xs[0]| + |sep|] == sep;
      xs[0] + sep + Join(xs[1..], sep)
  }

  /** `s.split(sep)` for a non-empty separator: cut at the leftmost
      occurrence, then keep cutting the rest. */
  function SplitOn(s: string, sep: string): (pieces: seq<string>)
    requires sep != []
    decreases |s|
    ensures |pieces| >= 1
    ensures forall p :: p in pieces ==> !IsSubstring(sep, p)
  {
    match IndexOf(s, sep)
    case None => [s]
    case Some(i) =>
      NoOccurrenceInPrefix(sep, s, i);
      [s[..i]] + SplitOn(s[i + |sep|..], sep)
  }

  /** The guarded read-back `s.split(sep) if s else []`: an empty column
      gives no items, and joining the items again restores the column. */
  function Decode(s: string, sep: string): (xs: seq<string>)
    requires sep != []
    ensures xs == [] <==> s == []
    ensures Join(xs, sep) == s
  {
    if s == [] then [] else JoinSplit(s, sep); SplitOn(s, sep)
  }

  /** `sep.join(s.split(sep)) == s`: splitting loses nothing. */
  lemma {:induction false} JoinSplit(s: string, sep: string)
    requires sep != []
    ensures Join(SplitOn(s, sep), sep) == s
    decreases |s|
  {
    var r := IndexOf(s, sep);
    if r.Some? {
      var i := r.value;
      var rest := s[i + |sep|..];
      var tail := SplitOn(rest, sep);
      calc {
        Join(SplitOn(s, sep), sep);
      == { SplitOnAt(s, sep, i); }
        Join([s[..i]] + tail, sep);
      == { JoinCons(s[..i], tail, sep); }
        s[..i] + sep + Join(tail, sep);
      == { JoinSplit(rest, sep); }
        s[..i] + sep + rest;
      == { assert s[i..i + |sep|] == sep; CutInThree(s, i, i + |sep|); }
        s;
      }
    }
  }

  lemma CutInThree(s: string, i: nat, j: nat)
    requires i <= j <= |s|
    ensures s[..i] + s[i..j] + s[j..] == s
  {
  }

  /** Joining an item in front of a non-empty list puts one separator
      between them. */
  lemma JoinCons(x: string, xs: seq<string>, sep: string)
    requires xs != []
    ensures Join([x] + xs, sep) == x + sep + Join(xs, sep)
  {
    assert ([x] + xs)[1..] == xs;
  }

  /** No proper prefix of `sep` is also a suffix of it, so two occurrences of
      `sep` can never overlap. Both ", " and "; " have this property. */
  predicate Unbordered(sep: string) {
    forall m :: 0 < m < |sep| ==> sep[..m] != sep[|sep| - m..]
  }

  lemma NoOccurrenceInPrefix(pat: string, s: string, i: nat)
    requires pat != [] && i <= |s|
    requires forall j: nat :: j < i ==> !OccursAt(pat, s, j)
    ensures !IsSubstring(pat, s[..i])
  {
    forall j: nat ensures !OccursAt(pat, s[..i], j) {
      if OccursAt(pat, s[..i], j) {
        assert s[..i][j..j + |pat|] == s[j..j + |pat|];
        assert OccursAt(pat, s, j);
      }
    }
  }

  lemma OccurrenceInPrefix(pat: string, x: string, t: string, i: nat)
    requires i + |pat| <= |x|
    requires OccursAt(pat, x + t, i)
    ensures OccursAt(pat, x, i)
  {
    assert (x + t)[i..i + |pat|] == x[i..i + |pat|];
  }

  /** An occurrence of `sep` that starts inside `x` and ends inside the `sep`
      that follows it shows that `sep` has a border. */
  lemma StraddleIsBorder(x: string, sep: string, rest: string, i: nat)
    requires i < |x| < i + |sep|
    requires OccursAt(sep, x + sep + rest, i)
    ensures var m := i + |sep| - |x|; 0 < m < |sep| && sep[..m] == sep[|sep| - m..]
  {
    var s := x + sep + rest;
    var k := |x| - i;
    var m := |sep| - k;
    forall t | 0 <= t < m ensures sep[..m][t] == sep[|sep| - m..][t] {
      assert sep[k + t] == s[i + k + t] == s[|x| + t] == sep[t];
    }
  }

  /** In `x + sep + rest`, where `x` does not contain an unbordered `sep`, the
      leftmost occurrence of `sep` is the one right after `x`. */
  lemma FirstSeparator(x: string, sep: string, rest: string)
    requires sep != [] && Unbordered(sep)
    requires !IsSubstring(sep, x)
    ensures IndexOf(x + sep + rest, sep) == Some(|x|)
  {
    var s := x + sep + rest;
    assert s[|x|..|x| + |sep|] == sep;
    assert OccursAt(sep, s, |x|);
    var i := IndexOf(s, sep).value;
    if i < |x| {
      if i + |sep| <= |x| {
        OccurrenceInPrefix(sep, x, sep + rest, i);
        assert false;
      } else {
        StraddleIsBorder(x, sep, rest, i);
        assert false;
      }
    }
  }

  /** Splitting a join gives back a list whose elements do not contain the
      separator. */
  lemma {:induction false} SplitJoin(xs: seq<string>, sep: string)
    requires sep != [] && Unbordered(sep)
    requires |xs| >= 1
    requires forall x :: x in xs ==> !IsSubstring(sep, x)
    ensures SplitOn(Join(xs, sep), sep) == xs
  {
    if |xs| == 1 {
      assert Join(xs, sep) == xs[0];
      assert xs[0] in xs;
      assert !Contains(xs[0], sep);
    } else {
      var x, rest := xs[0], Join(xs[1..], sep);
      var s := x + sep + rest;
      assert Join(xs, sep) == s;
      assert x in xs;
      FirstSeparator(x, sep, rest);
      SplitOnAt(s, sep, |x|);
      assert s[..|x|] == x && s[|x| + |sep|..] == rest;
      SplitJoin(xs[1..], sep);
      assert xs == [x] + xs[1..];
    }
  }

  /** `split` cuts at the leftmost occurrence and continues after it. */
  lemma SplitOnAt(s: string, sep: string, i: nat)
    requires sep != [] && IndexOf(s, sep) == Some(i)
    ensures SplitOn(s, sep) == [s[..i]] + SplitOn(s[i + |sep|..], sep)
  {
  }

  /** The read-back inverts the join exactly when no element contains the
      separator and the list is not the single empty string (which joins to
      "" and reads back as the empty list). */
  lemma DecodeJoin(xs: seq<string>, sep: string)
    requires sep != [] && Unbordered(sep)
    ensures Decode(Join(xs, sep), sep) == xs
        <==> xs != [""] && forall x :: x in xs ==> !IsSubstring(sep, x)
  {
    var s := Join(xs, sep);
    if xs != [""] && forall x :: x in xs ==> !IsSubstring(sep, x) {
      if xs != [] {
        SplitJoin(xs, sep);
        if |xs| == 1 {
          assert s == xs[0] && s != [];
        } else {
          assert OccursAt(sep, s, |xs[0]|);
        }
      }
    }
    if Decode(s, sep) == xs && xs != [] {
      assert s != [];
      forall x | x in xs ensures !IsSubstring(sep, x) {
        assert x in SplitOn(s, sep);
      }
    }
  }
}
