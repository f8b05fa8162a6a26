/** The System.String operations the front-matter code relies on: Trim,
    ToLowerInvariant, Replace, Split with RemoveEmptyEntries, Join, and the
    StringBuilder pattern of appending each line followed by a line break. */
module Text {

  /** Environment.NewLine, fixed to a single line feed. */
  const NewLine: string := "\n"

  // ---------------------------------------------------------------------------
  // White space and Trim
  // ---------------------------------------------------------------------------

  /** char.IsWhiteSpace: the Unicode space, line and paragraph separators and
      the control characters U+0009..U+000D and U+0085. */
  predicate IsWhiteSpace(c: char) {
    || c == ' '
    || '\t' <= c <= '\r'
    || c == '\U{85}'
    || c == '\U{A0}'
    || c == '\U{1680}'
    || '\U{2000}' <= c <= '\U{200A}'
    || c == '\U{2028}'
    || c == '\U{2029}'
    || c == '\U{202F}'
    || c == '\U{205F}'
    || c == '\U{3000}'
  }

  /** Every character of s in [lo, hi) is white space. */
  predicate WhiteSpaceBetween(s: string, lo: int, hi: int)
    requires 0 <= lo <= hi <= |s|
  {
    forall k :: lo <= k < hi ==> IsWhiteSpace(s[k])
  }

  /** No white space at either end: the shape String.Trim leaves behind. */
  predicate Trimmed(s: string) {
    |s| == 0 || (!IsWhiteSpace(s[0]) && !IsWhiteSpace(s[|s| - 1]))
  }

  /** Cutting s at i and j keeps s[i..j], which has no white space at its ends,
      and throws away nothing but white space. */
  predicate TrimCut(s: string, i: int, j: int) {
    && 0 <= i <= j <= |s|
    && WhiteSpaceBetween(s, 0, i)
    && WhiteSpaceBetween(s, j, |s|)
    && (i < j ==> !IsWhiteSpace(s[i]) && !IsWhiteSpace(s[j - 1]))
  }

  /** The index of the first non-white-space character at or after i. */
  function SkipSpace(s: string, i: nat): (k: nat)
    requires i <= |s|
    ensures i <= k <= |s|
    ensures WhiteSpaceBetween(s, i, k)
    ensures k < |s| ==> !IsWhiteSpace(s[k])
    decreases |s| - i
  {
    if i < |s| && IsWhiteSpace(s[i]) then SkipSpace(s, i + 1) else i
  }

  /** The end of the text before the white space that runs back from j to lo. */
  function SkipSpaceBack(s: string, lo: nat, j: nat): (k: nat)
    requires lo <= j <= |s|
    ensures lo <= k <= j
    ensures WhiteSpaceBetween(s, k, j)
    ensures k > lo ==> !IsWhiteSpace(s[k - 1])
  {
    if lo < j && IsWhiteSpace(s[j - 1]) then SkipSpaceBack(s, lo, j - 1) else j
  }

  /** String.Trim: the text between the leading and the trailing white space. */
  function Trim(s: string): (r: string)
    ensures Trimmed(r)
    ensures exists i, j :: TrimCut(s, i, j) && r == s[i..j]
  {
    var i := SkipSpace(s, 0);
    var j := SkipSpaceBack(s, i, |s|);
    assert TrimCut(s, i, j);
    s[i..j]
  }

  /** There is only one way to trim a string: any cut that removes only white
      space and leaves no white space at the ends is the one Trim makes. */
  lemma TrimUnique(s: string, i: int, j: int)
    requires TrimCut(s, i, j)
    ensures Trim(s) == s[i..j]
  {
    var i', j' :| TrimCut(s, i', j') && Trim(s) == s[i'..j'];
    // each cut starts at the first and ends after the last non-white-space character
    NonSpaceOutsideCut(s, i', j', i, j);
    NonSpaceOutsideCut(s, i, j, i', j');
  }

  lemma NonSpaceOutsideCut(s: string, i: int, j: int, i': int, j': int)
    requires TrimCut(s, i, j) && TrimCut(s, i', j')
    ensures i < j ==> i' <= i && j <= j'
    ensures i < j ==> i' < j'
  {
    if i < j {
      assert !IsWhiteSpace(s[i]);
      assert !IsWhiteSpace(s[j - 1]);
      if i < i' {
        assert false;
      }
      if j' < j {
        assert false;
      }
    }
  }

  /** Trimming twice is trimming once. */
  lemma TrimIdempotent(s: string)
    ensures Trim(Trim(s)) == Trim(s)
  {
    var t := Trim(s);
    assert t[0..|t|] == t;
    TrimUnique(t, 0, |t|);
  }

  /** Trailing white space after an already trimmed text is all Trim removes. */
  lemma TrimDropsTrailing(s: string, w: string)
    requires Trimmed(s)
    requires WhiteSpaceBetween(w, 0, |w|)
    ensures Trim(s + w) == s
  {
    var t := s + w;
    assert forall k :: |s| <= k < |t| ==> t[k] == w[k - |s|];
    assert t[0..|s|] == s;
    TrimUnique(t, 0, |s|);
  }

  // ---------------------------------------------------------------------------
  // ToLowerInvariant
  // ---------------------------------------------------------------------------

  function ToLowerChar(c: char): char {
    if 'A' <= c <= 'Z' then (c as int - 'A' as int + 'a' as int) as char else c
  }

  function ToUpperChar(c: char): char {
    if 'a' <= c <= 'z' then (c as int - 'a' as int + 'A' as int) as char else c
  }

  /** String.ToLowerInvariant, restricted to the ASCII letters. */
  function ToLowerInvariant(s: string): (r: string)
    ensures |r| == |s|
    ensures forall i :: 0 <= i < |s| ==> r[i] == ToLowerChar(s[i])
  {
    seq(|s|, i requires 0 <= i < |s| => ToLowerChar(s[i]))
  }

  predicate IsLowerAsciiWord(w: string) {
    forall i :: 0 <= i < |w| ==> 'a' <= w[i] <= 'z'
  }

  /** A name lower-cases to a lower-case word exactly when it spells that word
      with each letter in either case: "Tags", "TAGS" and "tAgS" all match "tags". */
  lemma LowerMatchesAnyCase(k: string, w: string)
    requires IsLowerAsciiWord(w)
    ensures ToLowerInvariant(k) == w
        <==> |k| == |w| && forall i :: 0 <= i < |w| ==> k[i] == w[i] || k[i] == ToUpperChar(w[i])
  {
    var l := ToLowerInvariant(k);
    forall i | 0 <= i < |w| && i < |k|
      ensures l[i] == w[i] <==> k[i] == w[i] || k[i] == ToUpperChar(w[i])
    {
      LowerCharMatches(k[i], w[i]);
    }
    if |k| == |w| && forall i :: 0 <= i < |w| ==> k[i] == w[i] || k[i] == ToUpperChar(w[i]) {
      assert l == w;
    }
  }

  /** A lower-case word is its own lower case. */
  lemma LowerWordUnchanged(w: string)
    requires IsLowerAsciiWord(w)
    ensures ToLowerInvariant(w) == w
  {
    assert forall i :: 0 <= i < |w| ==> ToLowerInvariant(w)[i] == w[i];
  }

  lemma LowerCharMatches(c: char, x: char)
    requires 'a' <= x <= 'z'
    ensures ToLowerChar(c) == x <==> c == x || c == ToUpperChar(x)
  {
  }

  // ---------------------------------------------------------------------------
  // Replace
  // ---------------------------------------------------------------------------

  predicate MatchAt(s: string, pat: string, i: nat) {
    i + |pat| <= |s| && s[i..i + |pat|] == pat
  }

  predicate Contains(s: string, pat: string) {
    exists i: nat | i <= |s| :: MatchAt(s, pat, i)
  }

  /** String.Replace: scanning from the left, each occurrence of pat is
      replaced by rep and scanning resumes after it (non-overlapping). */
  function Replace(s: string, pat: string, rep: string): string
    requires |pat| > 0
    decreases |s|
  {
    if |s| < |pat| then s
    else if s[..|pat|] == pat then rep + Replace(s[|pat|..], pat, rep)
    else [s[0]] + Replace(s[1..], pat, rep)
  }

  /** The rewrite applied to serializer output: each "- " becomes "  - ". */
  function IndentItems(s: string): string {
    Replace(s, "- ", "  - ")
  }

  /** s begins with the sequence-item marker "- ". */
  predicate StartsItem(s: string) {
    |s| >= 2 && s[0] == '-' && s[1] == ' '
  }

  /** Reference definition of the rewrite, one character at a time: two spaces
      go in front of every '-' that is followed by a space. */
  function InsertIndent(s: string): string {
    if |s| == 0 then ""
    else (if StartsItem(s) then "  " else "") + [s[0]] + InsertIndent(s[1..])
  }

  /** How many item markers s holds. */
  function ItemMarks(s: string): nat {
    if |s| == 0 then 0 else (if StartsItem(s) then 1 else 0) + ItemMarks(s[1..])
  }

  /** The left-to-right Replace agrees with the character-wise reference. */
  lemma {:induction false} IndentItemsIsInsertion(s: string)
    ensures IndentItems(s) == InsertIndent(s)
    decreases |s|
  {
    if |s| < 2 {
      if |s| == 1 {
        assert InsertIndent(s[1..]) == "";
      }
    } else if s[..2] == "- " {
      IndentItemsIsInsertion(s[2..]);
      assert s[1..][1..] == s[2..];
      assert !StartsItem(s[1..]);
    } else {
      IndentItemsIsInsertion(s[1..]);
      assert !StartsItem(s);
    }
  }

  /** Each marker adds exactly two characters. */
  lemma {:induction false} InsertIndentLength(s: string)
    ensures |InsertIndent(s)| == |s| + 2 * ItemMarks(s)
  {
    if |s| > 0 {
      InsertIndentLength(s[1..]);
    }
  }

  lemma ContainsStep(s: string, pat: string)
    requires |s| > 0
    ensures Contains(s, pat) <==> MatchAt(s, pat, 0) || Contains(s[1..], pat)
  {
    if Contains(s, pat) && !MatchAt(s, pat, 0) {
      var i: nat :| i <= |s| && MatchAt(s, pat, i);
      assert i >= 1;
      assert s[1..][i - 1..i - 1 + |pat|] == s[i..i + |pat|];
      assert MatchAt(s[1..], pat, i - 1);
    }
    if Contains(s[1..], pat) {
      var i: nat :| i <= |s| - 1 && MatchAt(s[1..], pat, i);
      assert s[1..][i..i + |pat|] == s[i + 1..i + 1 + |pat|];
      assert MatchAt(s, pat, i + 1);
    }
  }

  /** Markers are counted exactly when "- " occurs. */
  lemma {:induction false} ItemMarksZero(s: string)
    ensures ItemMarks(s) == 0 <==> !Contains(s, "- ")
  {
    if |s| == 0 {
      assert forall i: nat :: !MatchAt(s, "- ", i);
    } else {
      ItemMarksZero(s[1..]);
      ContainsStep(s, "- ");
      assert MatchAt(s, "- ", 0) <==> StartsItem(s);
    }
  }

  /** The rewrite changes the text if and only if the text holds "- ". */
  lemma IndentItemsUnchangedIff(s: string)
    ensures IndentItems(s) == s <==> !Contains(s, "- ")
  {
    IndentItemsIsInsertion(s);
    InsertIndentLength(s);
    ItemMarksZero(s);
    if !Contains(s, "- ") {
      NoMarksNoInsertion(s);
    }
  }

  lemma {:induction false} NoMarksNoInsertion(s: string)
    requires ItemMarks(s) == 0
    ensures InsertIndent(s) == s
  {
    if |s| > 0 {
      NoMarksNoInsertion(s[1..]);
    }
  }

  /** The rewrite does not stop at the item marker: "- " inside the item's own
      text is indented as well, so such a tag is altered. */
  lemma IndentReachesItemText(t: string)
    requires Contains(t, "- ")
    ensures IndentItems("- " + t) == "  - " + IndentItems(t)
    ensures IndentItems(t) != t
  {
    var s := "- " + t;
    assert s[..2] == "- ";
    assert s[2..] == t;
    IndentItemsUnchangedIff(t);
  }

  // ---------------------------------------------------------------------------
  // Lines: Split, Join and StringBuilder appends
  // ---------------------------------------------------------------------------

  /** The index of the first line feed at or after i, or |s| if there is none. */
  function LineEnd(s: string, i: nat): (k: nat)
    requires i <= |s|
    ensures i <= k <= |s|
    ensures forall j :: i <= j < k ==> s[j] != '\n'
    ensures k < |s| ==> s[k] == '\n'
    decreases |s| - i
  {
    if i == |s| || s[i] == '\n' then i else LineEnd(s, i + 1)
  }

  /** String.Split on NewLine keeping empty entries: the pieces between line feeds. */
  function Pieces(s: string): (r: seq<string>)
    ensures |r| >= 1
    ensures SingleLines(r)
    decreases |s|
  {
    var i := LineEnd(s, 0);
    if i == |s| then [s] else [s[..i]] + Pieces(s[i + 1..])
  }

  /** The StringSplitOptions.RemoveEmptyEntries filter. */
  function RemoveEmpty(ls: seq<string>): (r: seq<string>)
    ensures "" !in r
    ensures forall x :: x in r ==> x in ls
  {
    if |ls| == 0 then [] else (if ls[0] == "" then [] else [ls[0]]) + RemoveEmpty(ls[1..])
  }

  /** String.Split(NewLine, StringSplitOptions.RemoveEmptyEntries). */
  function SplitLines(s: string): (r: seq<string>)
    ensures "" !in r
    ensures SingleLines(r)
  {
    RemoveEmpty(Pieces(s))
  }

  /** string.Join(NewLine, ls). */
  function JoinLines(ls: seq<string>): string {
    if |ls| == 0 then ""
    else if |ls| == 1 then ls[0]
    else ls[0] + NewLine + JoinLines(ls[1..])
  }

  /** What a StringBuilder holds after appending each line and then NewLine. */
  function AppendLines(ls: seq<string>): string {
    if |ls| == 0 then "" else AppendLines(ls[..|ls| - 1]) + ls[|ls| - 1] + NewLine
  }

  /** Lines that are joined hold no line break of their own. */
  predicate SingleLines(ls: seq<string>) {
    forall l :: l in ls ==> '\n' !in l
  }

  /** LineEnd is the first line feed: any index with no line feed before it
      and a line feed (or the end) at it is the one LineEnd finds. */
  lemma {:induction false} LineEndUnique(s: string, i: nat, k: nat)
    requires i <= k <= |s|
    requires forall j :: i <= j < k ==> s[j] != '\n'
    requires k < |s| ==> s[k] == '\n'
    ensures LineEnd(s, i) == k
    decreases |s| - i
  {
    if i < k {
      LineEndUnique(s, i + 1, k);
    }
  }

  lemma PiecesOfLine(a: string)
    requires '\n' !in a
    ensures Pieces(a) == [a]
  {
    LineEndUnique(a, 0, |a|);
  }

  /** Splitting at a line feed splits the pieces there. */
  lemma {:induction false} PiecesOfConcat(a: string, b: string)
    ensures Pieces(a + NewLine + b) == Pieces(a) + Pieces(b)
    decreases |a|
  {
    var t := a + NewLine + b;
    var i := LineEnd(a, 0);
    LineEndUnique(t, 0, i);
    if i == |a| {
      assert t[..i] == a;
      assert t[i + 1..] == b;
    } else {
      assert t[..i] == a[..i];
      assert t[i + 1..] == a[i + 1..] + NewLine + b;
      PiecesOfConcat(a[i + 1..], b);
    }
  }

  lemma {:induction false} RemoveEmptyConcat(xs: seq<string>, ys: seq<string>)
    ensures RemoveEmpty(xs + ys) == RemoveEmpty(xs) + RemoveEmpty(ys)
  {
    if |xs| > 0 {
      RemoveEmptyConcat(xs[1..], ys);
      assert (xs + ys)[1..] == xs[1..] + ys;
    } else {
      assert xs + ys == ys;
    }
  }

  lemma {:induction false} RemoveEmptyKeeps(ls: seq<string>)
    requires "" !in ls
    ensures RemoveEmpty(ls) == ls
  {
    if |ls| > 0 {
      RemoveEmptyKeeps(ls[1..]);
    }
  }

  /** Dropping empty lines leaves non-empty lines at either end in place. */
  lemma RemoveEmptyAround(a: string, xs: seq<string>, b: string)
    requires a != "" && b != ""
    ensures RemoveEmpty([a] + xs + [b]) == [a] + RemoveEmpty(xs) + [b]
  {
    assert [a] + xs + [b] == [a] + (xs + [b]);
    RemoveEmptyConcat([a], xs + [b]);
    RemoveEmptyConcat(xs, [b]);
    RemoveEmptyKeeps([a]);
    RemoveEmptyKeeps([b]);
  }

  /** Join and Split are inverse on a list of lines with no line breaks. */
  lemma {:induction false} PiecesOfJoin(ls: seq<string>)
    requires |ls| > 0
    requires SingleLines(ls)
    ensures Pieces(JoinLines(ls)) == ls
  {
    if |ls| == 1 {
      PiecesOfLine(ls[0]);
    } else {
      PiecesOfJoin(ls[1..]);
      PiecesOfLine(ls[0]);
      PiecesOfConcat(ls[0], JoinLines(ls[1..]));
    }
  }

  /** Joining non-empty single lines and splitting with RemoveEmptyEntries gives them back. */
  lemma SplitLinesOfJoin(ls: seq<string>)
    requires SingleLines(ls)
    requires "" !in ls
    ensures SplitLines(JoinLines(ls)) == ls
  {
    if |ls| > 0 {
      PiecesOfJoin(ls);
      RemoveEmptyKeeps(ls);
    } else {
      PiecesOfLine("");
      assert RemoveEmpty([""]) == [];
    }
  }

  /** A run of the lines Split returns survives a join and a second split. */
  lemma SplitLinesOfJoinedRun(s: string, i: nat, j: nat)
    requires i <= j <= |SplitLines(s)|
    ensures SplitLines(JoinLines(SplitLines(s)[i..j])) == SplitLines(s)[i..j]
  {
    var run := SplitLines(s)[i..j];
    assert forall l :: l in run ==> l in SplitLines(s);
    SplitLinesOfJoin(run);
  }

  /** Joining the pieces puts back the line feeds Split removed. */
  lemma {:induction false} JoinOfPieces(s: string)
    ensures JoinLines(Pieces(s)) == s
    decreases |s|
  {
    var i := LineEnd(s, 0);
    if i < |s| {
      JoinOfPieces(s[i + 1..]);
      JoinLinesCons(s[..i], Pieces(s[i + 1..]));
      assert s == s[..i] + NewLine + s[i + 1..];
    }
  }

  lemma JoinLinesCons(x: string, ls: seq<string>)
    requires |ls| > 0
    ensures JoinLines([x] + ls) == x + NewLine + JoinLines(ls)
  {
    assert ([x] + ls)[1..] == ls;
  }

  lemma {:induction false} JoinLinesSnoc(ls: seq<string>, x: string)
    requires |ls| > 0
    ensures JoinLines(ls + [x]) == JoinLines(ls) + NewLine + x
  {
    if |ls| > 1 {
      JoinLinesSnoc(ls[1..], x);
      assert (ls + [x])[1..] == ls[1..] + [x];
    } else {
      assert ls + [x] == [ls[0], x];
    }
  }

  /** Appending each line and a break is joining them and adding one final break. */
  lemma {:induction false} AppendLinesIsJoin(ls: seq<string>)
    requires |ls| > 0
    ensures AppendLines(ls) == JoinLines(ls) + NewLine
  {
    if |ls| > 1 {
      var init := ls[..|ls| - 1];
      AppendLinesIsJoin(init);
      JoinLinesSnoc(init, ls[|ls| - 1]);
      assert init + [ls[|ls| - 1]] == ls;
    } else {
      assert ls[..0] == [];
    }
  }
}
