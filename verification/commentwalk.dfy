/**
  line_is_comment_only and collect_preceding_comment_block_lines of
  src/Compressor.cpp: the comment lines written just above a signature.

  The walk goes upward from the line before the signature. It passes over
  at most one blank line and every comment-only line, and it stops at the
  first line that is neither. The comment lines it passed are returned
  top to bottom, trimmed and joined by newlines.
*/
module CommentWalk {
  import opened Text
  import opened Utils

  /** The index of the first byte of s that std::isspace rejects, |s| when there is none. */
  function FirstNotSpace(s: string): (i: nat)
    ensures i <= |s|
    ensures i < |s| ==> !IsSpace(s[i])
  {
    if s == [] || !IsSpace(s[0]) then 0 else 1 + FirstNotSpace(s[1..])
  }

  /** Every byte before FirstNotSpace(s) is a space. */
  lemma {:induction false} SpaceRun(s: string)
    ensures AllSpace(s[..FirstNotSpace(s)])
  {
    if s != [] && IsSpace(s[0]) {
      SpaceRun(s[1..]);
      assert s[..FirstNotSpace(s)] == [s[0]] + s[1..][..FirstNotSpace(s[1..])];
    }
  }

  /** A comment opener: '#', "//", the block opener or the block closer. */
  predicate CommentMark(rest: string) {
    && rest != []
    && (rest[0] == '#'
        || (|rest| >= 2 && rest[0] == '/' && (rest[1] == '/' || rest[1] == '*'))
        || (|rest| >= 2 && rest[0] == '*' && rest[1] == '/'))
  }

  /** line_is_comment_only: the first byte that is not a space is '#', or it
      starts "//", the block opener or the block closer. A line that is all
      spaces, or whose first such byte is a letter, is not a comment. The
      debug report to std::cerr is not modelled. */
  predicate LineIsCommentOnly(line: string) {
    var i := FirstNotSpace(line);
    && i < |line|
    && !IsAlpha(line[i])
    && (line[i] == '#'
        || (i + 1 < |line| && line[i] == '/' && line[i + 1] == '/')
        || (i + 1 < |line| && line[i] == '/' && line[i + 1] == '*')
        || (i + 1 < |line| && line[i] == '*' && line[i + 1] == '/'))
  }

  /** A line is comment-only exactly when it is a run of spaces followed by
      a comment mark. */
  lemma LineIsCommentOnlySpec(line: string)
    ensures LineIsCommentOnly(line) <==>
      exists i :: 0 <= i <= |line| && AllSpace(line[..i]) && CommentMark(line[i..])
  {
    var f := FirstNotSpace(line);
    SpaceRun(line);
    if LineIsCommentOnly(line) {
      var rest := line[f..];
      assert rest[0] == line[f];
      assert f + 1 < |line| ==> rest[1] == line[f + 1];
      assert CommentMark(rest);
    }
    if i :| 0 <= i <= |line| && AllSpace(line[..i]) && CommentMark(line[i..]) {
      var rest := line[i..];
      assert rest[0] == line[i];
      assert i + 1 < |line| ==> rest[1] == line[i + 1];
      assert i < |line| && !IsSpace(line[i]);
      assert forall k :: 0 <= k < i ==> IsSpace(line[k]) by {
        assert forall k :: 0 <= k < i ==> line[..i][k] == line[k];
      }
      assert forall k :: 0 <= k < f ==> IsSpace(line[k]) by {
        assert forall k :: 0 <= k < f ==> line[..f][k] == line[k];
      }
      assert i == f;
    }
  }

  /** A line that starts with the block closer is comment-only. */
  lemma ClosingLineIsCommentOnly(line: string)
    ensures |line| >= 2 && line[0] == '*' && line[1] == '/' ==> LineIsCommentOnly(line)
  {
  }

  // ---------------------------------------------------------------------
  // collect_preceding_comment_block_lines
  // ---------------------------------------------------------------------

  /** How the walk sees a line: blank once trimmed, comment-only once
      trimmed, or code. */
  datatype LineKind = Blank | CommentLine | CodeLine

  function KindOf(line: string): LineKind {
    var t := Trim(line);
    if t == [] then Blank else if LineIsCommentOnly(t) then CommentLine else CodeLine
  }

  /** The kind of every line. */
  function Kinds(lines: seq<string>): (ks: seq<LineKind>)
    ensures |ks| == |lines|
  {
    if lines == [] then [] else Kinds(lines[..|lines| - 1]) + [KindOf(Last(lines))]
  }
  lemma {:induction false} KindsAt(lines: seq<string>, i: nat)
    requires i < |lines|
    ensures Kinds(lines)[i] == KindOf(lines[i]) && TrimAll(lines)[i] == Trim(lines[i])
  {
    if i < |lines| - 1 { KindsAt(lines[..|lines| - 1], i); }
  }

  /** The number of blank lines among ks[lo..n]. */
  function Blanks(ks: seq<LineKind>, lo: nat, n: nat): nat
    requires lo <= n <= |ks|
    decreases n - lo
  {
    if n == lo then 0 else Blanks(ks, lo, n - 1) + (if ks[n - 1] == Blank then 1 else 0)
  }

  /** Where the walk upward from line n - 1 stops, `blank` more blank lines
      being allowed: the first line of the part it passes over. */
  function WalkStart(ks: seq<LineKind>, n: nat, blank: nat): (lo: nat)
    requires n <= |ks|
    ensures lo <= n
  {
    if n == 0 then 0
    else if ks[n - 1] == Blank then (if blank > 0 then WalkStart(ks, n - 1, blank - 1) else n)
    else if ks[n - 1] == CommentLine then WalkStart(ks, n - 1, blank)
    else n
  }

  /** A walk from line n - 1 upward may stop at lo: lines lo..n - 1 are blank
      or comment-only, they hold at most `blank` blank lines, and the line
      above them (if any) is code, or a blank line when no blank is left. */
  predicate WalkStops(ks: seq<LineKind>, n: nat, blank: nat, lo: nat)
    requires lo <= n <= |ks|
  {
    && (forall k :: lo <= k < n ==> ks[k] != CodeLine)
    && Blanks(ks, lo, n) <= blank
    && (lo == 0 || ks[lo - 1] == CodeLine || (ks[lo - 1] == Blank && Blanks(ks, lo, n) == blank))
  }

  /** A stop for the walk from line n - 2 is one for the walk from line
      n - 1 when line n - 1 is a comment line, or a blank line that uses up
      one of the allowed blanks. */
  lemma StopsUp(ks: seq<LineKind>, n: nat, blank: nat, b: nat, lo: nat)
    requires 0 < n <= |ks| && lo < n
    requires WalkStops(ks, n - 1, b, lo)
    requires (ks[n - 1] == Blank && b + 1 == blank) || (ks[n - 1] == CommentLine && b == blank)
    ensures WalkStops(ks, n, blank, lo)
  {
  }

  /** The converse of StopsUp. */
  lemma StopsDown(ks: seq<LineKind>, n: nat, blank: nat, lo: nat)
    requires 0 < n <= |ks| && lo < n
    requires WalkStops(ks, n, blank, lo)
    ensures ks[n - 1] == Blank ==> blank > 0 && WalkStops(ks, n - 1, blank - 1, lo)
    ensures ks[n - 1] != Blank ==> ks[n - 1] == CommentLine && WalkStops(ks, n - 1, blank, lo)
  {
  }

  /** The walk stops where WalkStops says it may. */
  lemma {:induction false} WalkStartStops(ks: seq<LineKind>, n: nat, blank: nat)
    requires n <= |ks|
    ensures WalkStops(ks, n, blank, WalkStart(ks, n, blank))
  {
    if n > 0 {
      if ks[n - 1] == Blank && blank > 0 {
        WalkStartStops(ks, n - 1, blank - 1);
        StopsUp(ks, n, blank, blank - 1, WalkStart(ks, n - 1, blank - 1));
      } else if ks[n - 1] == CommentLine {
        WalkStartStops(ks, n - 1, blank);
        StopsUp(ks, n, blank, blank, WalkStart(ks, n - 1, blank));
      }
    }
  }

  /** The stop is determined: WalkStart is the only place WalkStops allows. */
  lemma {:induction false} WalkStopsUnique(ks: seq<LineKind>, n: nat, blank: nat, lo: nat)
    requires lo <= n <= |ks| && WalkStops(ks, n, blank, lo)
    ensures lo == WalkStart(ks, n, blank)
  {
    if lo < n {
      StopsDown(ks, n, blank, lo);
      if ks[n - 1] == Blank {
        WalkStopsUnique(ks, n - 1, blank - 1, lo);
      } else {
        WalkStopsUnique(ks, n - 1, blank, lo);
      }
    }
  }

  /** The strings that are not empty, in order. */
  function NonEmpty(xs: seq<string>): (r: seq<string>)
    ensures |r| <= |xs|
  {
    if xs == [] then [] else NonEmpty(xs[..|xs| - 1]) + (if Last(xs) == [] then [] else [Last(xs)])
  }

  /** What collect_preceding_comment_block_lines returns for the signature on
      lines[lineIdx]: the lines the walk passed, trimmed, the blank ones
      dropped, top to bottom, joined by newlines. */
  function PrecedingComments(lines: seq<string>, lineIdx: nat): string
    requires lineIdx <= |lines|
  {
    Join(NonEmpty(TrimAll(lines)[WalkStart(Kinds(lines), lineIdx, 1)..lineIdx]), "\n")
  }

  /** The lines the walk passed, trimmed, the blank ones dropped, top to
      bottom: PrecedingComments joins them with newlines. */
  function PrecedingLines(lines: seq<string>, lineIdx: nat): seq<string>
    requires lineIdx <= |lines|
  {
    NonEmpty(TrimAll(lines)[WalkStart(Kinds(lines), lineIdx, 1)..lineIdx])
  }

  /** NonEmpty keeps only strings of xs, and none of them empty. */
  lemma {:induction false} NonEmptyMembers(xs: seq<string>)
    ensures forall x :: x in NonEmpty(xs) ==> x in xs && x != []
  {
    if xs != [] {
      NonEmptyMembers(xs[..|xs| - 1]);
      assert forall x :: x in xs[..|xs| - 1] ==> x in xs;
    }
  }

  /** Trimmed lines are trimmed, and hold no newline when the lines hold none. */
  lemma TrimAllClean(lines: seq<string>)
    requires forall k :: 0 <= k < |lines| ==> '\n' !in lines[k]
    ensures forall k :: 0 <= k < |TrimAll(lines)| ==> IsTrimmed(TrimAll(lines)[k]) && '\n' !in TrimAll(lines)[k]
  {
    forall k | 0 <= k < |TrimAll(lines)|
      ensures IsTrimmed(TrimAll(lines)[k]) && '\n' !in TrimAll(lines)[k]
    {
      KindsAt(lines, k);
      TrimChars(lines[k]);
    }
  }

  /** Dropping the empty strings of trimmed, newline-free strings leaves
      non-empty, trimmed, newline-free strings. */
  lemma NonEmptyClean(xs: seq<string>)
    requires forall k :: 0 <= k < |xs| ==> IsTrimmed(xs[k]) && '\n' !in xs[k]
    ensures forall k :: 0 <= k < |NonEmpty(xs)| ==> NonEmpty(xs)[k] != [] && IsTrimmed(NonEmpty(xs)[k]) && '\n' !in NonEmpty(xs)[k]
  {
    NonEmptyMembers(xs);
    forall k | 0 <= k < |NonEmpty(xs)|
      ensures NonEmpty(xs)[k] != [] && IsTrimmed(NonEmpty(xs)[k]) && '\n' !in NonEmpty(xs)[k]
    {
      assert NonEmpty(xs)[k] in NonEmpty(xs);
    }
  }

  /** Every preceding comment line is non-empty and trimmed, and holds no
      newline when the lines hold none. */
  lemma PrecedingLinesClean(lines: seq<string>, lineIdx: nat)
    requires lineIdx <= |lines|
    requires forall k :: 0 <= k < |lines| ==> '\n' !in lines[k]
    ensures forall k :: 0 <= k < |PrecedingLines(lines, lineIdx)| ==>
      var x := PrecedingLines(lines, lineIdx)[k]; x != [] && IsTrimmed(x) && '\n' !in x
  {
    var ts := TrimAll(lines);
    var lo := WalkStart(Kinds(lines), lineIdx, 1);
    TrimAllClean(lines);
    assert forall k :: 0 <= k < lineIdx - lo ==> ts[lo..lineIdx][k] == ts[lo + k];
    NonEmptyClean(ts[lo..lineIdx]);
  }

  /** NonEmpty, one string taken off the front. */
  lemma {:induction false} NonEmptyCons(x: string, xs: seq<string>)
    ensures NonEmpty([x] + xs) == (if x == [] then [] else [x]) + NonEmpty(xs)
    decreases |xs|
  {
    var head := if x == [] then [] else [x];
    if xs != [] {
      var init := xs[..|xs| - 1];
      var tail := if Last(xs) == [] then [] else [Last(xs)];
      assert ([x] + xs)[..|xs|] == [x] + init;
      assert NonEmpty([x] + xs) == NonEmpty([x] + init) + tail;
      NonEmptyCons(x, init);
      AppendAssoc(head, NonEmpty(init), tail);
    } else {
      assert ([x] + xs)[..0] == [];
    }
  }

  lemma ReverseSnoc<T>(xs: seq<T>, x: T)
    ensures Reverse(xs + [x]) == [x] + Reverse(xs)
  {
    var r := Reverse(xs + [x]);
    assert forall k :: 0 < k <= |xs| ==> r[k] == (xs + [x])[|xs| - k];
  }

  /** What the walk knows with lines i + 1..lineIdx - 1 passed, ks and ts
      being the kinds and the trims of the lines, and `collected` holding the
      non-empty trims passed, bottom to top. */
  predicate Walked(ks: seq<LineKind>, ts: seq<string>, lineIdx: nat, i: int, blankAllowed: nat, collected: seq<string>)
    requires lineIdx <= |ks| == |ts|
  {
    && -1 <= i < lineIdx
    && WalkStart(ks, i + 1, blankAllowed) == WalkStart(ks, lineIdx, 1)
    && Reverse(collected) == NonEmpty(ts[i + 1..lineIdx])
  }

  /** One line passed upward: its trim, unless empty, goes to the front of
      the top-to-bottom list. */
  lemma PassLine(ts: seq<string>, lineIdx: nat, i: nat, collected: seq<string>)
    requires i < lineIdx <= |ts|
    requires Reverse(collected) == NonEmpty(ts[i + 1..lineIdx])
    ensures Reverse(collected + (if ts[i] == [] then [] else [ts[i]])) == NonEmpty(ts[i..lineIdx])
  {
    assert ts[i..lineIdx] == [ts[i]] + ts[i + 1..lineIdx];
    NonEmptyCons(ts[i], ts[i + 1..lineIdx]);
    if ts[i] != [] {
      ReverseSnoc(collected, ts[i]);
    } else {
      assert collected + [] == collected;
    }
  }

  /** Passing a blank line while one is still allowed keeps what the walk knows. */
  lemma WalkBlank(ks: seq<LineKind>, ts: seq<string>, lineIdx: nat, i0: nat, b0: nat, collected: seq<string>, i: int, b: nat)
    requires lineIdx <= |ks| == |ts|
    requires Walked(ks, ts, lineIdx, i0, b0, collected)
    requires ks[i0] == Blank && ts[i0] == [] && b0 > 0 && i == i0 - 1 && b == b0 - 1
    ensures Walked(ks, ts, lineIdx, i, b, collected)
  {
    PassLine(ts, lineIdx, i0, collected);
  }

  /** Passing a comment line, collected at the back, keeps what the walk knows. */
  lemma WalkComment(ks: seq<LineKind>, ts: seq<string>, lineIdx: nat, i0: nat, b0: nat, collected0: seq<string>, collected: seq<string>, i: int)
    requires lineIdx <= |ks| == |ts|
    requires Walked(ks, ts, lineIdx, i0, b0, collected0)
    requires ks[i0] == CommentLine && ts[i0] != []
    requires collected == collected0 + [ts[i0]] && i == i0 - 1
    ensures Walked(ks, ts, lineIdx, i, b0, collected)
  {
    PassLine(ts, lineIdx, i0, collected0);
  }

  /** A code line, or a blank line with no blank left, is where the walk stops. */
  lemma WalkStop(ks: seq<LineKind>, ts: seq<string>, lineIdx: nat, i: nat, b: nat, collected: seq<string>)
    requires lineIdx <= |ks| == |ts|
    requires Walked(ks, ts, lineIdx, i, b, collected)
    requires (ks[i] == Blank && b == 0) || ks[i] == CodeLine
    ensures WalkStart(ks, lineIdx, 1) == i + 1
  {
  }

  /** The trim and the kind of line i. */
  lemma KindAt(lines: seq<string>, ks: seq<LineKind>, ts: seq<string>, i: nat, trimmed: string)
    requires ks == Kinds(lines) && ts == TrimAll(lines) && i < |lines| && trimmed == Trim(lines[i])
    ensures ts[i] == trimmed
    ensures ks[i] == (if trimmed == [] then Blank else if LineIsCommentOnly(trimmed) then CommentLine else CodeLine)
  {
    KindsAt(lines, i);
  }

  /** Once the walk has stopped, the reverse of what it collected is what
      PrecedingComments joins. */
  lemma WalkResult(lines: seq<string>, ks: seq<LineKind>, ts: seq<string>, lineIdx: nat, i: int, b: nat, collected: seq<string>)
    requires ks == Kinds(lines) && ts == TrimAll(lines) && lineIdx <= |lines|
    requires Walked(ks, ts, lineIdx, i, b, collected)
    requires i >= 0 ==> WalkStart(ks, lineIdx, 1) == i + 1
    ensures Join(Reverse(collected), "\n") == PrecedingComments(lines, lineIdx)
    ensures collected == [] ==> PrecedingComments(lines, lineIdx) == ""
  {
  }

  /** collect_preceding_comment_block_lines: walks upward from
      lines[lineIdx - 1] and returns the comment lines it passes, in their
      original order. The branch that rebuilds a block comment ending on a
      line starting with the block closer is never reached: such a line is
      comment-only already. */
  method CollectPrecedingCommentBlockLines(lines: seq<string>, lineIdx: nat) returns (r: string)
    requires lineIdx <= |lines|
    ensures r == PrecedingComments(lines, lineIdx)
    ensures lineIdx == 0 ==> r == ""
  {
    if lineIdx == 0 {
      return "";
    }
    var i: int := lineIdx - 1;
    var collected: seq<string> := [];
    var blankAllowed: nat := 1;
    ghost var ks, ts := Kinds(lines), TrimAll(lines);
    while i >= 0
      invariant Walked(ks, ts, lineIdx, i, blankAllowed, collected)
      decreases i
    {
      var trimmed := Trim(lines[i]);
      KindAt(lines, ks, ts, i, trimmed);
      if trimmed == [] {
        if blankAllowed > 0 {
          blankAllowed := blankAllowed - 1;
          i := i - 1;
          WalkBlank(ks, ts, lineIdx, i + 1, blankAllowed + 1, collected, i, blankAllowed);
          continue;
        } else {
          WalkStop(ks, ts, lineIdx, i, blankAllowed, collected);
          break;
        }
      }
      if LineIsCommentOnly(trimmed) {
        ghost var collected0 := collected;
        collected := collected + [trimmed];
        i := i - 1;
        WalkComment(ks, ts, lineIdx, i + 1, blankAllowed, collected0, collected, i);
        continue;
      }
      var isBlockEnd := |trimmed| >= 2 && trimmed[0] == '*' && trimmed[1] == '/';
      ClosingLineIsCommentOnly(trimmed);
      if isBlockEnd {
        assert false;
      }
      WalkStop(ks, ts, lineIdx, i, blankAllowed, collected);
      break;
    }
    WalkResult(lines, ks, ts, lineIdx, i, blankAllowed, collected);
    if collected == [] {
      return "";
    }
    var ordered := Reverse(collected);
    r := Join(ordered, "\n");
  }

  /** The walk returns "" for the first line, and otherwise the comment
      lines between the signature and the line where it stops, where that
      stop is the unique one WalkStops allows with one blank line: at most
      one blank line is passed, every line passed is blank or comment-only,
      and the line above them is code (or a second blank line). */
  lemma PrecedingCommentsSpec(lines: seq<string>, lineIdx: nat)
    requires lineIdx <= |lines|
    ensures lineIdx == 0 ==> PrecedingComments(lines, lineIdx) == ""
    ensures var ks := Kinds(lines);
      var lo := WalkStart(ks, lineIdx, 1);
      && WalkStops(ks, lineIdx, 1, lo)
      && (forall lo': nat :: lo' <= lineIdx && WalkStops(ks, lineIdx, 1, lo') ==> lo' == lo)
      && PrecedingComments(lines, lineIdx) == Join(NonEmpty(TrimAll(lines)[lo..lineIdx]), "\n")
  {
    var ks := Kinds(lines);
    WalkStartStops(ks, lineIdx, 1);
    forall lo': nat | lo' <= lineIdx && WalkStops(ks, lineIdx, 1, lo')
      ensures lo' == WalkStart(ks, lineIdx, 1)
    {
      WalkStopsUnique(ks, lineIdx, 1, lo');
    }
  }
}
