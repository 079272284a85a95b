/**
 * The few functions of Go's `strings` package that the code generator relies on,
 * with Go's semantics. A Go string is a sequence of bytes; here it is a Dafny
 * `string` in which each character stands for one byte.
 */
module GoStrings {

  /** strings.HasPrefix */
  predicate StartsWith(s: string, prefix: string)
  {
    |prefix| <= |s| && s[..|prefix|] == prefix
  }

  /** `pat` occurs in `s` starting at position `i`. */
  predicate Occurs(s: string, pat: string, i: int)
  {
    0 <= i && i + |pat| <= |s| && s[i..i + |pat|] == pat
  }

  /** The first occurrence of `pat` in `s` at or after `from`, or -1. */
  function IndexFrom(s: string, pat: string, from: nat): (r: int)
    ensures r == -1 || (from <= r && Occurs(s, pat, r))
    decreases |s| - from
  {
    if from + |pat| > |s| then -1
    else if s[from..from + |pat|] == pat then from
    else IndexFrom(s, pat, from + 1)
  }

  /** No occurrence lies between `from` and the position IndexFrom returns. */
  lemma {:induction false} IndexFromFirst(s: string, pat: string, from: nat)
    ensures forall j :: from <= j && (IndexFrom(s, pat, from) == -1 || j < IndexFrom(s, pat, from)) ==>
      !Occurs(s, pat, j)
    decreases |s| - from
  {
    if from + |pat| <= |s| && s[from..from + |pat|] != pat {
      IndexFromFirst(s, pat, from + 1);
    }
  }

  /** strings.Index: the position of the first occurrence of `pat` in `s`, or -1. */
  function Index(s: string, pat: string): (r: int)
    ensures r == -1 || Occurs(s, pat, r)
  {
    IndexFrom(s, pat, 0)
  }

  /** Index returns -1 only when `pat` does not occur, and otherwise no occurrence comes earlier. */
  lemma IndexFirst(s: string, pat: string)
    ensures forall j :: 0 <= j && (Index(s, pat) == -1 || j < Index(s, pat)) ==> !Occurs(s, pat, j)
  {
    IndexFromFirst(s, pat, 0);
  }

  /** strings.Contains */
  predicate Contains(s: string, pat: string)
  {
    Index(s, pat) >= 0
  }

  /** Index returns the one occurrence that has no occurrence before it. */
  lemma IndexIsFirst(s: string, pat: string, i: int)
    requires Occurs(s, pat, i)
    requires forall j :: 0 <= j < i ==> !Occurs(s, pat, j)
    ensures Index(s, pat) == i
  {
    IndexFirst(s, pat);
  }

  /** An occurrence inside a prefix of `s` is an occurrence in `s`. */
  lemma OccursInPrefix(s: string, pat: string, n: nat, j: int)
    requires n <= |s|
    requires Occurs(s[..n], pat, j)
    ensures Occurs(s, pat, j) && j + |pat| <= n
  {
    assert s[..n][j..j + |pat|] == s[j..j + |pat|];
  }

  /** The text before the first occurrence of `pat` does not contain `pat`. */
  lemma BeforeFirstHasNone(s: string, pat: string)
    requires |pat| > 0 && Index(s, pat) >= 0
    ensures !Contains(s[..Index(s, pat)], pat)
  {
    var i := Index(s, pat);
    var k := Index(s[..i], pat);
    if k >= 0 {
      OccursInPrefix(s, pat, i, k);
      IndexFirst(s, pat);
      assert false;
    }
  }

  /**
   * strings.Replace(s, pat, rep, 1): the first occurrence of `pat` in `s`
   * is replaced by `rep`; without an occurrence `s` is returned unchanged.
   */
  function ReplaceFirst(s: string, pat: string, rep: string): (r: string)
    ensures !Contains(s, pat) ==> r == s
    ensures Contains(s, pat) ==> |r| == |s| - |pat| + |rep|
  {
    var i := Index(s, pat);
    if i < 0 then s else s[..i] + rep + s[i + |pat|..]
  }

  /** The occurrence that is replaced is the first one. */
  lemma ReplaceFirstAt(s: string, pat: string, rep: string, i: int)
    requires Occurs(s, pat, i)
    requires forall j :: 0 <= j < i ==> !Occurs(s, pat, j)
    ensures ReplaceFirst(s, pat, rep) == s[..i] + rep + s[i + |pat|..]
  {
    IndexIsFirst(s, pat, i);
  }

  /** A string that begins with the pattern has that prefix replaced. */
  lemma ReplaceFirstPrefix(s: string, pat: string, rep: string)
    requires StartsWith(s, pat)
    ensures ReplaceFirst(s, pat, rep) == rep + s[|pat|..]
  {
    assert Occurs(s, pat, 0);
    ReplaceFirstAt(s, pat, rep, 0);
  }

  /**
   * strings.Split(s, sep) for a non-empty separator: the pieces of `s` between
   * the non-overlapping occurrences of `sep`, scanned from the left.
   */
  function Split(s: string, sep: string): (r: seq<string>)
    requires |sep| > 0
    ensures |r| >= 1
    decreases |s|
  {
    var i := Index(s, sep);
    if i < 0 then [s]
    else [s[..i]] + Split(s[i + |sep|..], sep)
  }

  /** A split at a found separator is the piece before it followed by the split of the rest. */
  lemma SplitStep(s: string, sep: string)
    requires |sep| > 0 && Index(s, sep) >= 0
    ensures Split(s, sep) == [s[..Index(s, sep)]] + Split(s[Index(s, sep) + |sep|..], sep)
  {
  }

  /** No piece of a split contains the separator. */
  lemma {:induction false} SplitPiecesLackSeparator(s: string, sep: string)
    requires |sep| > 0
    ensures forall k :: 0 <= k < |Split(s, sep)| ==> !Contains(Split(s, sep)[k], sep)
    decreases |s|
  {
    var i := Index(s, sep);
    if i >= 0 {
      var rest := s[i + |sep|..];
      BeforeFirstHasNone(s, sep);
      SplitPiecesLackSeparator(rest, sep);
      SplitStep(s, sep);
    }
  }

  /** strings.Join */
  function Join(parts: seq<string>, sep: string): string
  {
    if |parts| == 0 then ""
    else if |parts| == 1 then parts[0]
    else parts[0] + sep + Join(parts[1..], sep)
  }

  /** Joining a first piece in front of at least one more adds the piece and a separator. */
  lemma JoinCons(p: string, parts: seq<string>, sep: string)
    requires |parts| >= 1
    ensures Join([p] + parts, sep) == p + sep + Join(parts, sep)
  {
    assert ([p] + parts)[1..] == parts;
  }

  /** strings.Count for a non-empty pattern: the number of non-overlapping occurrences. */
  function Count(s: string, pat: string): nat
    requires |pat| > 0
  {
    |Split(s, pat)| - 1
  }

  /**
   * strings.Replace(s, pat, rep, -1) for a non-empty pattern: every
   * non-overlapping occurrence of `pat`, scanned left to right, becomes `rep`.
   */
  function ReplaceAll(s: string, pat: string, rep: string): (r: string)
    requires |pat| > 0
    ensures !Contains(s, pat) ==> r == s
    decreases |s|
  {
    var i := Index(s, pat);
    if i < 0 then s
    else s[..i] + rep + ReplaceAll(s[i + |pat|..], pat, rep)
  }

  /** Each replaced occurrence changes the length by the difference of the two lengths. */
  lemma {:induction false} ReplaceAllLength(s: string, pat: string, rep: string)
    requires |pat| > 0
    ensures |ReplaceAll(s, pat, rep)| == |s| + Count(s, pat) * (|rep| - |pat|)
    decreases |s|
  {
    var i := Index(s, pat);
    if i >= 0 {
      var rest := s[i + |pat|..];
      var c, d := Count(rest, pat), |rep| - |pat|;
      assert |ReplaceAll(s, pat, rep)| == i + |rep| + |ReplaceAll(rest, pat, rep)|;
      assert Count(s, pat) == c + 1 by {
        SplitStep(s, pat);
      }
      ReplaceAllLength(rest, pat, rep);
      MulSucc(c, d);
    }
  }

  lemma MulSucc(c: int, d: int)
    ensures (c + 1) * d == c * d + d
  {
  }

  lemma ThreeSlices(s: string, a: nat, b: nat)
    requires a <= b <= |s|
    ensures s == s[..a] + s[a..b] + s[b..]
  {
    assert s[..a] + s[a..b] == s[..b];
  }

  /** Joining with the separator undoes a split: Join(Split(s, sep), sep) == s. */
  lemma {:induction false} JoinSplit(s: string, sep: string)
    requires |sep| > 0
    ensures Join(Split(s, sep), sep) == s
    decreases |s|
  {
    var i := Index(s, sep);
    if i >= 0 {
      var rest := s[i + |sep|..];
      SplitStep(s, sep);
      JoinCons(s[..i], Split(rest, sep), sep);
      JoinSplit(rest, sep);
      assert s == s[..i] + sep + rest by {
        ThreeSlices(s, i, i + |sep|);
      }
    }
  }

  /** A one-byte separator placed after a piece without it is the first one found. */
  lemma SeparatorAfterPiece(p: string, sep: string, rest: string)
    requires |sep| == 1 && !Contains(p, sep)
    ensures Index(p + sep + rest, sep) == |p|
  {
    var s := p + sep + rest;
    assert Occurs(s, sep, |p|) by {
      assert s[|p|..|p| + 1] == sep;
    }
    IndexFirst(p, sep);
    forall j | 0 <= j < |p|
      ensures !Occurs(s, sep, j)
    {
      assert s[j..j + 1] == p[j..j + 1];
      assert !Occurs(p, sep, j);
    }
    IndexIsFirst(s, sep, |p|);
  }

  /**
   * Splitting at a one-byte separator undoes a join of pieces that do not
   * contain it: Split(Join(parts, sep), sep) == parts.
   */
  lemma {:induction false} SplitJoin(parts: seq<string>, sep: string)
    requires |sep| == 1 && |parts| >= 1
    requires forall k :: 0 <= k < |parts| ==> !Contains(parts[k], sep)
    ensures Split(Join(parts, sep), sep) == parts
    decreases |parts|
  {
    if |parts| > 1 {
      var p := parts[0];
      var rest := Join(parts[1..], sep);
      var s := p + sep + rest;
      JoinCons(p, parts[1..], sep);
      assert [p] + parts[1..] == parts;
      SeparatorAfterPiece(p, sep, rest);
      SplitStep(s, sep);
      assert s[..|p|] == p;
      assert s[|p| + 1..] == rest;
      SplitJoin(parts[1..], sep);
    } else {
      assert Index(parts[0], sep) < 0;
    }
  }

  /** Joining one more piece appends the separator and the piece. */
  lemma {:induction false} JoinSnoc(parts: seq<string>, last: string, sep: string)
    requires |parts| >= 1
    ensures Join(parts + [last], sep) == Join(parts, sep) + sep + last
    decreases |parts|
  {
    if |parts| > 1 {
      assert (parts + [last])[1..] == parts[1..] + [last];
      JoinSnoc(parts[1..], last, sep);
    }
  }

  /** Replacing every occurrence is joining the pieces of a split with the replacement. */
  lemma {:induction false} ReplaceAllIsJoinOfSplit(s: string, pat: string, rep: string)
    requires |pat| > 0
    ensures ReplaceAll(s, pat, rep) == Join(Split(s, pat), rep)
    decreases |s|
  {
    var i := Index(s, pat);
    if i >= 0 {
      var rest := s[i + |pat|..];
      SplitStep(s, pat);
      JoinCons(s[..i], Split(rest, pat), rep);
      ReplaceAllIsJoinOfSplit(rest, pat, rep);
    }
  }

  /** Replacing a pattern by itself changes nothing. */
  lemma {:induction false} ReplaceAllWithItself(s: string, pat: string)
    requires |pat| > 0
    ensures ReplaceAll(s, pat, pat) == s
  {
    ReplaceAllIsJoinOfSplit(s, pat, pat);
    JoinSplit(s, pat);
  }
}
