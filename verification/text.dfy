/** String helpers over strings as sequences of characters: split("\n") as parseStory uses it,
    the token structure of a line, and first/last occurrence of a character, which locate the
    split points of the line pattern's groups and the lastIndexOf(" ") that cuts annotations. */
module Text {
  import opened Wrappers

  /** A string made of n spaces. */
  function Spaces(n: nat): (r: string)
    ensures |r| == n
    ensures forall i :: 0 <= i < n ==> r[i] == ' '
  {
    seq(n, _ => ' ')
  }

  /** A non-empty word without spaces, as matched by the pattern `[^ ]+`. */
  predicate Token(t: string) {
    |t| > 0 && forall i :: 0 <= i < |t| ==> t[i] != ' '
  }

  /** Position of the first c in s (String.indexOf); None stands for -1. */
  function IndexOf(s: string, c: char): (r: Option<nat>)
    ensures r.None? ==> forall j :: 0 <= j < |s| ==> s[j] != c
    ensures r.Some? ==> r.value < |s| && s[r.value] == c && forall j :: 0 <= j < r.value ==> s[j] != c
  {
    if |s| == 0 then None
    else if s[0] == c then Some(0)
    else
      match IndexOf(s[1..], c)
      case None => None
      case Some(i) => Some(i + 1)
  }

  /** Position of the last c in s (String.lastIndexOf); None stands for -1. */
  function LastIndexOf(s: string, c: char): (r: Option<nat>)
    ensures r.None? ==> forall j :: 0 <= j < |s| ==> s[j] != c
    ensures r.Some? ==> r.value < |s| && s[r.value] == c && forall j :: r.value < j < |s| ==> s[j] != c
  {
    if |s| == 0 then None
    else if s[|s| - 1] == c then Some(|s| - 1)
    else
      var init := s[..|s| - 1];
      assert s == init + [s[|s| - 1]];
      LastIndexOf(init, c)
  }

  /** Number of spaces at the start of s. */
  function LeadingSpaces(s: string): (r: nat)
    ensures r <= |s|
    ensures forall i :: 0 <= i < r ==> s[i] == ' '
    ensures r < |s| ==> s[r] != ' '
  {
    if |s| == 0 || s[0] != ' ' then 0 else 1 + LeadingSpaces(s[1..])
  }

  /** Number of spaces at the end of s. */
  function TrailingSpaces(s: string): (r: nat)
    ensures r <= |s|
    ensures forall i :: |s| - r <= i < |s| ==> s[i] == ' '
    ensures r < |s| ==> s[|s| - 1 - r] != ' '
  {
    if |s| == 0 || s[|s| - 1] != ' ' then 0 else 1 + TrailingSpaces(s[..|s| - 1])
  }

  /** The strings of parts joined with sep between neighbours. */
  function Join(parts: seq<string>, sep: char): (s: string)
    requires |parts| > 0
  {
    if |parts| == 1 then parts[0] else parts[0] + [sep] + Join(parts[1..], sep)
  }

  /** Every piece of s between occurrences of sep, empty pieces included. */
  function Segments(s: string, sep: char): (r: seq<string>)
    ensures |r| > 0
    ensures forall i :: 0 <= i < |r| ==> sep !in r[i]
    ensures Join(r, sep) == s
  {
    match IndexOf(s, sep)
    case None => [s]
    case Some(i) =>
      var rest := Segments(s[i + 1..], sep);
      assert s == s[..i] + [sep] + s[i + 1..];
      [s[..i]] + rest
  }

  /** xs without its run of trailing empty strings. */
  function DropTrailingEmpty(xs: seq<string>): (r: seq<string>)
    ensures |r| <= |xs| && r == xs[..|r|]
    ensures forall i :: |r| <= i < |xs| ==> xs[i] == []
    ensures |r| > 0 ==> r[|r| - 1] != []
  {
    if |xs| > 0 && xs[|xs| - 1] == [] then DropTrailingEmpty(xs[..|xs| - 1]) else xs
  }

  /** String.split with a one-character separator and limit 0: a string without the
      separator is returned whole; otherwise trailing empty pieces are removed. */
  function Split(s: string, sep: char): (r: seq<string>)
    ensures forall i :: 0 <= i < |r| ==> sep !in r[i]
    ensures sep !in s ==> r == [s]
    ensures sep in s ==>
      (|r| <= |Segments(s, sep)| && r == Segments(s, sep)[..|r|]
       && forall i :: |r| <= i < |Segments(s, sep)| ==> Segments(s, sep)[i] == [])
    ensures sep in s && |r| > 0 ==> r[|r| - 1] != []
  {
    if sep !in s then [s] else DropTrailingEmpty(Segments(s, sep))
  }

  /** The first occurrence is the one with no occurrence before it. */
  lemma IndexOfAt(s: string, c: char, k: nat)
    requires k < |s| && s[k] == c && forall j :: 0 <= j < k ==> s[j] != c
    ensures IndexOf(s, c) == Some(k)
  {
  }

  /** The last occurrence is the one with no occurrence after it. */
  lemma LastIndexOfAt(s: string, c: char, k: nat)
    requires k < |s| && s[k] == c && forall j :: k < j < |s| ==> s[j] != c
    ensures LastIndexOf(s, c) == Some(k)
  {
  }

  /** Splitting undoes joining: pieces without the separator come back unchanged. */
  lemma {:induction false} SegmentsOfJoin(parts: seq<string>, sep: char)
    requires |parts| > 0
    requires forall i :: 0 <= i < |parts| ==> sep !in parts[i]
    ensures Segments(Join(parts, sep), sep) == parts
  {
    if |parts| == 1 {
      assert IndexOf(parts[0], sep).None?;
    } else {
      var tail := Join(parts[1..], sep);
      var s := parts[0] + [sep] + tail;
      assert Join(parts, sep) == s;
      var k := |parts[0]|;
      assert s[..k] == parts[0];
      IndexOfAt(s, sep, k);
      assert s[k + 1..] == tail;
      SegmentsOfJoin(parts[1..], sep);
      assert Segments(s, sep) == [s[..k]] + Segments(s[k + 1..], sep);
      assert parts == [parts[0]] + parts[1..];
    }
  }

  /** A joined string contains the separator exactly when more than one piece was joined. */
  lemma {:induction false} JoinContainsSep(parts: seq<string>, sep: char)
    requires |parts| > 0
    requires forall i :: 0 <= i < |parts| ==> sep !in parts[i]
    ensures sep in Join(parts, sep) <==> |parts| > 1
  {
    if |parts| > 1 {
      assert Join(parts, sep)[|parts[0]|] == sep;
    }
  }

  /** A string made only of separators splits into empty pieces only. */
  lemma {:induction false} SegmentsOfSeparators(s: string, sep: char)
    requires forall i :: 0 <= i < |s| ==> s[i] == sep
    ensures forall i :: 0 <= i < |Segments(s, sep)| ==> Segments(s, sep)[i] == []
  {
    if |s| > 0 {
      IndexOfAt(s, sep, 0);
      SegmentsOfSeparators(s[1..], sep);
      assert Segments(s, sep) == [s[..0]] + Segments(s[1..], sep);
    }
  }

  /** String.split drops every piece of a string made only of separators. */
  lemma SplitOfSeparators(s: string, sep: char)
    requires |s| > 0 && forall i :: 0 <= i < |s| ==> s[i] == sep
    ensures Split(s, sep) == []
  {
    assert s[0] == sep;
    SegmentsOfSeparators(s, sep);
  }

  /** n empty strings. */
  function Blanks(n: nat): (r: seq<string>)
    ensures |r| == n && forall i :: 0 <= i < n ==> r[i] == []
  {
    seq(n, _ => [])
  }

  /** n copies of one character. */
  function Repeat(c: char, n: nat): (r: string)
    ensures |r| == n && forall i :: 0 <= i < n ==> r[i] == c
  {
    seq(n, _ => c)
  }

  /** Joining one more piece appends the separator and that piece. */
  lemma {:induction false} JoinSnoc(parts: seq<string>, x: string, sep: char)
    requires |parts| > 0
    ensures Join(parts + [x], sep) == Join(parts, sep) + [sep] + x
    decreases |parts|
  {
    var all := parts + [x];
    assert all[0] == parts[0] && all[1..] == parts[1..] + [x];
    if |parts| == 1 {
      assert all[1..] == [x];
    } else {
      JoinSnoc(parts[1..], x, sep);
    }
  }

  /** Joining with n empty pieces at the end appends n separators. */
  lemma {:induction false} JoinBlanks(parts: seq<string>, n: nat, sep: char)
    requires |parts| > 0
    ensures Join(parts + Blanks(n), sep) == Join(parts, sep) + Repeat(sep, n)
  {
    if n == 0 {
      assert parts + Blanks(0) == parts;
    } else {
      JoinBlanks(parts, n - 1, sep);
      assert parts + Blanks(n) == (parts + Blanks(n - 1)) + [[]];
      JoinSnoc(parts + Blanks(n - 1), [], sep);
      assert Repeat(sep, n) == Repeat(sep, n - 1) + [sep];
    }
  }

  /** Trailing empty pieces after a non-empty last piece are exactly what is dropped. */
  lemma {:induction false} DropBlanks(xs: seq<string>, n: nat)
    requires |xs| > 0 && xs[|xs| - 1] != []
    ensures DropTrailingEmpty(xs + Blanks(n)) == xs
  {
    if n > 0 {
      var all := xs + Blanks(n);
      assert all[..|all| - 1] == xs + Blanks(n - 1);
      DropBlanks(xs, n - 1);
    } else {
      assert xs + Blanks(0) == xs;
    }
  }

  /** String.split drops the separators at the end of a string: pieces joined and followed
      by n > 0 separators split back into the pieces, when the last piece is not empty. */
  lemma SplitWithTrailingSeps(parts: seq<string>, n: nat, sep: char)
    requires n > 0 && |parts| > 0 && parts[|parts| - 1] != []
    requires forall i :: 0 <= i < |parts| ==> sep !in parts[i]
    ensures Split(Join(parts, sep) + Repeat(sep, n), sep) == parts
  {
    var pieces := parts + Blanks(n);
    var s := Join(parts, sep) + Repeat(sep, n);
    JoinBlanks(parts, n, sep);
    assert forall i :: 0 <= i < |pieces| ==> sep !in pieces[i] by {
      forall i | 0 <= i < |pieces|
        ensures sep !in pieces[i]
      {
        if i >= |parts| {
          assert pieces[i] == [];
        }
      }
    }
    SegmentsOfJoin(pieces, sep);
    assert s[|Join(parts, sep)|] == sep;
    DropBlanks(parts, n);
  }
}
