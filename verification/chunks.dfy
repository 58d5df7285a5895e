/**
  Compressor::extractChunks of src/Compressor.cpp: the digest of one file.

  The text is cut into lines. Every line that, trimmed, looks like a
  signature (C-like or Python rules) gives a chunk. A chunk is the
  comments just above the signature, the signature cut after its
  parameter list, and an elided body that keeps at most six comment lines
  found inside the braces. Chunks repeat at most once. When no line gives
  a chunk, the leading comment lines of the file are used instead.
*/
module Chunks {
  import opened Text
  import opened Utils
  import opened Scan
  import opened CommentWalk

  // ---------------------------------------------------------------------
  // split_lines and the line offsets
  // ---------------------------------------------------------------------

  /** The loop of split_lines has read s[..i] and holds the finished lines
      and the start of the current one. */
  predicate Splitting(s: string, lines: seq<string>, start: nat, i: nat) {
    && start <= i <= |s| + 1
    && (i <= |s| ==> Split(s[..i], '\n') == lines + [s[start..i]])
    && (i == |s| + 1 ==> lines == Split(s, '\n'))
  }

  /** A newline at i closes the current line. */
  lemma SplitAtNewline(s: string, lines0: seq<string>, start0: nat, i0: nat, lines: seq<string>, start: nat, i: nat)
    requires i0 < |s| && s[i0] == '\n' && Splitting(s, lines0, start0, i0)
    requires lines == lines0 + [s[start0..i0]] && start == i0 + 1 && i == i0 + 1
    ensures Splitting(s, lines, start, i)
  {
    assert s[..i0 + 1] == s[..i0] + ['\n'];
    SplitSnocSep(s[..i0], '\n');
    assert s[start..i] == "";
  }

  /** Any other byte extends the current line. */
  lemma SplitAtOther(s: string, lines: seq<string>, start: nat, i0: nat, i: nat)
    requires i0 < |s| && s[i0] != '\n' && Splitting(s, lines, start, i0) && i == i0 + 1
    ensures Splitting(s, lines, start, i)
  {
    assert s[..i0 + 1] == s[..i0] + [s[i0]];
    SplitSnocOther(s[..i0], s[i0], '\n');
    var p := lines + [s[start..i0]];
    assert p[..|p| - 1] == lines;
    assert s[start..i0] + [s[i0]] == s[start..i];
  }

  /** The end of the text closes the last line. */
  lemma SplitAtEnd(s: string, lines0: seq<string>, start0: nat, lines: seq<string>, start: nat, i: nat)
    requires Splitting(s, lines0, start0, |s|)
    requires lines == lines0 + [s[start0..|s|]] && start == |s| + 1 && i == |s| + 1
    ensures Splitting(s, lines, start, i)
  {
    assert s[..|s|] == s;
  }

  /** split_lines: the pieces of s between newlines, the last one running to
      the end (so there is always at least one). */
  method SplitLines(s: string) returns (lines: seq<string>)
    ensures lines == Split(s, '\n')
  {
    lines := [];
    var start := 0;
    var i := 0;
    assert s[..0] == [] && s[0..0] == [];
    while i <= |s|
      invariant Splitting(s, lines, start, i)
      decreases |s| + 1 - i
    {
      if i == |s| || s[i] == '\n' {
        ghost var lines0, start0, i0 := lines, start, i;
        lines := lines + [s[start..i]];
        start := i + 1;
        i := i + 1;
        if i0 == |s| {
          SplitAtEnd(s, lines0, start0, lines, start, i);
        } else {
          SplitAtNewline(s, lines0, start0, i0, lines, start, i);
        }
      } else {
        i := i + 1;
        SplitAtOther(s, lines, start, i - 1, i);
      }
    }
  }

  /** split_lines gives one line more than there are newlines, none holding
      a newline, and joining them with newlines gives the text back. */
  lemma SplitLinesSpec(s: string)
    ensures |Split(s, '\n')| == Count(s, '\n') + 1
    ensures forall k :: 0 <= k < |Split(s, '\n')| ==> '\n' !in Split(s, '\n')[k]
    ensures Join(Split(s, '\n'), "\n") == s
  {
    SplitPieces(s, '\n');
    JoinSplit(s, '\n');
  }

  /** Where line i starts when every line is followed by one newline. */
  function Offset(lines: seq<string>, i: nat): nat
    requires i <= |lines|
  {
    if i == 0 then 0 else Offset(lines, i - 1) + |lines[i - 1]| + 1
  }

  /** The offsets loop of extractChunks: offsets[i + 1] = offsets[i] + |lines[i]| + 1. */
  method LineOffsets(lines: seq<string>) returns (offsets: seq<nat>)
    ensures |offsets| == |lines| + 1
    ensures forall i :: 0 <= i <= |lines| ==> offsets[i] == Offset(lines, i)
  {
    offsets := seq(|lines| + 1, _ => 0);
    var i := 0;
    while i < |lines|
      invariant 0 <= i <= |lines| && |offsets| == |lines| + 1
      invariant forall k :: 0 <= k <= i ==> offsets[k] == Offset(lines, k)
    {
      offsets := offsets[i + 1 := offsets[i] + |lines[i]| + 1];
      i := i + 1;
    }
  }

  /** Offsets of a line list with one more line in front. */
  lemma {:induction false} OffsetCons(a: string, rest: seq<string>, i: nat)
    requires 1 <= i <= |rest| + 1
    ensures Offset([a] + rest, i) == |a| + 1 + Offset(rest, i - 1)
  {
    if i > 1 {
      OffsetCons(a, rest, i - 1);
      assert ([a] + rest)[i - 1] == rest[i - 2];
    }
  }

  /** `line` sits in s at offset o, followed by a newline, or by the end of
      s when it is the last line. */
  predicate SitsAt(s: string, line: string, o: nat, last: bool) {
    && o + |line| <= |s|
    && s[o..o + |line|] == line
    && (if last then o + |line| == |s| else o + |line| < |s| && s[o + |line|] == '\n')
  }

  /** A line sitting in a suffix of s sits in s, further on. */
  lemma SitsShift(s: string, k: nat, line: string, o: nat, last: bool)
    requires k <= |s| && SitsAt(s[k..], line, o, last)
    ensures SitsAt(s, line, k + o, last)
  {
    assert s[k..][o..o + |line|] == s[k + o..k + o + |line|];
    if !last {
      assert s[k..][o + |line|] == s[k + o + |line|];
    }
  }

  /** offsets[i] is the index in s where line i of split_lines starts: the
      line sits there, followed by a newline unless it is the last one. */
  lemma {:induction false} LineAt(s: string, i: nat)
    requires i < |Split(s, '\n')|
    ensures SitsAt(s, Split(s, '\n')[i], Offset(Split(s, '\n'), i), i + 1 == |Split(s, '\n')|)
    decreases |s|
  {
    if i == 0 {
      FirstLineAt(s);
    } else {
      var lines := Split(s, '\n');
      var k := IndexOf(s, '\n');
      assert k < |s|;
      var rest := Split(s[k + 1..], '\n');
      assert lines == [s[..k]] + rest;
      LineAt(s[k + 1..], i - 1);
      LineAtStep(s, k, lines, rest, i);
    }
  }

  /** Line i of s is line i - 1 of what follows the first newline, shifted. */
  lemma LineAtStep(s: string, k: nat, lines: seq<string>, rest: seq<string>, i: nat)
    requires k < |s| && lines == [s[..k]] + rest && 0 < i < |lines|
    requires SitsAt(s[k + 1..], rest[i - 1], Offset(rest, i - 1), i == |rest|)
    ensures SitsAt(s, lines[i], Offset(lines, i), i + 1 == |lines|)
  {
    OffsetCons(s[..k], rest, i);
    SitsShift(s, k + 1, rest[i - 1], Offset(rest, i - 1), i == |rest|);
  }

  /** The first line sits at offset 0; it is the last one when s has no newline. */
  lemma FirstLineAt(s: string)
    ensures SitsAt(s, Split(s, '\n')[0], 0, |Split(s, '\n')| == 1)
  {
    var k := IndexOf(s, '\n');
    if k < |s| {
      assert Split(s, '\n') == [s[..k]] + Split(s[k + 1..], '\n');
    }
  }

  /** Past the last line the offset is |s| + 1. */
  lemma OffsetEnd(s: string)
    ensures Offset(Split(s, '\n'), |Split(s, '\n')|) == |s| + 1
  {
    LineAt(s, |Split(s, '\n')| - 1);
  }

  // ---------------------------------------------------------------------
  // Signature detection (is_c_like_sig, is_python_sig)
  // ---------------------------------------------------------------------

  /** is_c_like_sig, on a trimmed line. */
  predicate IsCLikeSig(t: string) {
    && t != []
    && (|| StartsWith(t, "class ") || StartsWith(t, "struct ")
        || StartsWith(t, "function ") || Contains(t, " function ")
        || ('(' in t && ')' in t && ('{' in t || Last(t) == '{'))
        || (Contains(t, "=>") && '{' in t))
  }

  /** is_python_sig, on a trimmed line. */
  predicate IsPythonSig(t: string) {
    StartsWith(t, "def ") || StartsWith(t, "class ")
  }

  /** The rule set extractChunks applies: Python's for "py", C-like otherwise. */
  predicate IsSignature(t: string, ext: string) {
    if ext == "py" then IsPythonSig(t) else IsCLikeSig(t)
  }

  /** The test for a trailing '{' in is_c_like_sig adds nothing: a line
      whose last byte is '{' contains '{'. A C-like signature is a class,
      struct or function header, or has a parameter list and a brace, or an
      arrow and a brace. */
  lemma CLikeSigSpec(t: string)
    ensures IsCLikeSig(t) <==>
      && t != []
      && (|| StartsWith(t, "class ") || StartsWith(t, "struct ")
          || StartsWith(t, "function ") || Contains(t, " function ")
          || ('{' in t && (('(' in t && ')' in t) || Contains(t, "=>"))))
  {
    if t != [] && Last(t) == '{' {
      assert t[|t| - 1] in t;
    }
  }

  // ---------------------------------------------------------------------
  // Signature normalisation and body elision
  // ---------------------------------------------------------------------

  /** The signature cut after its parameter list: up to the first ')' after
      the first '(', or, with no ')', before the first '{'; with no '(' a
      trailing '{' is dropped. Each cut is trimmed again. */
  function CutSignature(t: string): string {
    var p := IndexOf(t, '(');
    if p < |t| then
      var q := FindFrom(t, ')', p);
      if q < |t| then Trim(t[..q + 1])
      else
        var b := IndexOf(t, '{');
        if b < |t| then Trim(t[..b]) else t
    else if t != [] && Last(t) == '{' then Trim(t[..|t| - 1])
    else t
  }

  /** The signature extractChunks prints: cut, and for Python ending in ':'. */
  function NormalizeSignature(t: string, ext: string): string {
    var sig := CutSignature(t);
    if ext == "py" && sig != [] && Last(sig) != ':' then sig + ":" else sig
  }

  /** On a trimmed line holding '(' and, after it, ')', the signature is the
      line up to and including the first ')' after the first '(': it ends at
      that ')'. */
  lemma CutAtParameters(t: string)
    requires IsTrimmed(t) && '(' in t
    requires ')' in t[IndexOf(t, '(')..]
    ensures var p := IndexOf(t, '('); var sig := CutSignature(t);
      && p < |sig| <= |t| && sig == t[..|sig|] && Last(sig) == ')'
      && ')' !in t[p..|sig| - 1]
  {
    var p := IndexOf(t, '(');
    IndexOfFirst(t, '(');
    FindFromFirst(t, ')', p);
    var q := FindFrom(t, ')', p);
    CutAtClose(t, p, q);
    var sig := t[..q + 1];
    assert |sig| == q + 1 && Last(sig) == ')' && sig == t[..|sig|];
    assert ')' !in t[p..|sig| - 1];
  }

  /** Cut at a closing parenthesis, a trimmed line needs no trimming again. */
  lemma CutAtClose(t: string, p: nat, q: nat)
    requires IsTrimmed(t) && p == IndexOf(t, '(') < |t|
    requires q == FindFrom(t, ')', p) < |t|
    ensures CutSignature(t) == t[..q + 1]
  {
    var c := t[..q + 1];
    assert c[0] == t[0] && Last(c) == ')';
    TrimKeepsNonSpaceEnds(c);
  }

  /** A line without '(' and without a trailing '{' is its own signature. */
  lemma CutPlain(t: string)
    requires '(' !in t && (t == [] || Last(t) != '{')
    ensures CutSignature(t) == t
  {
    IndexOfFirst(t, '(');
  }

  /** A Python signature always ends with ':' (unless it is empty). */
  lemma PythonSignatureColon(t: string)
    ensures var sig := NormalizeSignature(t, "py"); sig != [] ==> Last(sig) == ':'
  {
  }

  /** The comment lines a body keeps: the non-empty trimmed lines of the
      collected comments, at most maxLines of them. */
  function KeptComments(comments: string, maxLines: nat): (kept: seq<string>)
    ensures |kept| <= maxLines
  {
    var ts := TrimmedNonEmpty(GetlinePieces(comments, '\n'));
    if |ts| <= maxLines then ts else ts[..maxLines]
  }

  /** TrimmedNonEmpty of a prefix of the pieces is a prefix of TrimmedNonEmpty. */
  lemma {:induction false} TrimmedNonEmptyPrefix(pieces: seq<string>, i: nat)
    requires i <= |pieces|
    ensures var a := TrimmedNonEmpty(pieces[..i]); |a| <= |TrimmedNonEmpty(pieces)| && a == TrimmedNonEmpty(pieces)[..|a|]
    decreases |pieces|
  {
    if i == |pieces| {
      assert pieces[..i] == pieces;
    } else {
      var init := pieces[..|pieces| - 1];
      TrimmedNonEmptyPrefix(init, i);
      assert init[..i] == pieces[..i];
      var a := TrimmedNonEmpty(pieces[..i]);
      var b := TrimmedNonEmpty(init);
      var t := Trim(Last(pieces));
      assert TrimmedNonEmpty(pieces) == b + (if t == [] then [] else [t]);
      assert (b + (if t == [] then [] else [t]))[..|a|] == b[..|a|];
    }
  }

  /** What the limit_comment_lines loop has kept once it has read i pieces. */
  predicate Limiting(pieces: seq<string>, maxLines: nat, keep: seq<string>, i: nat) {
    && i <= |pieces|
    && keep == TrimmedNonEmpty(pieces[..i])
    && |keep| <= maxLines
  }

  /** The loop ends with exactly the lines KeptComments keeps. */
  lemma LimitDone(comments: string, maxLines: nat, keep: seq<string>, i: nat)
    requires Limiting(GetlinePieces(comments, '\n'), maxLines, keep, i)
    requires i == |GetlinePieces(comments, '\n')| || |keep| == maxLines
    ensures keep == KeptComments(comments, maxLines)
  {
    var pieces := GetlinePieces(comments, '\n');
    TrimmedNonEmptyPrefix(pieces, i);
    if i == |pieces| {
      assert pieces[..i] == pieces;
    }
  }

  /** limit_comment_lines: the first maxLines non-empty trimmed lines of the
      comments, joined by newlines. */
  method LimitCommentLines(comments: string, maxLines: nat) returns (r: string)
    ensures r == Join(KeptComments(comments, maxLines), "\n")
  {
    if comments == [] {
      assert Split(comments, '\n') == [""];
      return "";
    }
    var pieces := GetlinePieces(comments, '\n');
    var keep: seq<string> := [];
    var i := 0;
    assert pieces[..0] == [];
    while i < |pieces| && |keep| < maxLines
      invariant Limiting(pieces, maxLines, keep, i)
    {
      var t := Trim(pieces[i]);
      TrimmedNonEmptySnoc(pieces, i);
      if t != [] {
        keep := keep + [t];
      } else {
        assert TrimmedNonEmpty(pieces[..i + 1]) == TrimmedNonEmpty(pieces[..i]) + [];
      }
      i := i + 1;
    }
    LimitDone(comments, maxLines, keep, i);
    r := Join(keep, "\n");
  }

  /** The body keeps at most maxLines lines, each non-empty, trimmed and
      without a newline, in the order of the comments; splitting the kept
      text at its newlines gives those lines back. */
  lemma KeptCommentsSpec(comments: string, maxLines: nat)
    ensures var kept := KeptComments(comments, maxLines);
      && |kept| <= maxLines
      && (forall k :: 0 <= k < |kept| ==> kept[k] != [] && IsTrimmed(kept[k]) && '\n' !in kept[k])
      && kept == TrimmedNonEmpty(GetlinePieces(comments, '\n'))[..|kept|]
      && (kept != [] ==> Split(Join(kept, "\n"), '\n') == kept)
  {
    var pieces := GetlinePieces(comments, '\n');
    var ts := TrimmedNonEmpty(pieces);
    GetlinePiecesSpec(comments, '\n');
    TrimmedNonEmptyWellFormed(pieces);
    TrimmedNonEmptyFromPieces(pieces, '\n');
    var kept := KeptComments(comments, maxLines);
    assert forall k :: 0 <= k < |kept| ==> kept[k] == ts[k];
    if kept != [] {
      SplitJoin(kept, '\n');
    }
  }

  /** The text a chunk is made of before the final trim: the preceding
      comments on their own lines, the signature, and the elided body. */
  function Snippet(pre: string, sig: string, inner: string, ext: string): string {
    var head := if pre == [] then "" else if Last(pre) != '\n' then pre + "\n" else pre;
    var body :=
      if inner != [] then " {\n" + inner + "\n  /* ... */\n}"
      else if ext == "py" then "  # ..."
      else " { /* ... */ }";
    head + sig + body
  }

  /** Trimming a text that ends with a marker whose first and last bytes are
      not blank keeps the whole marker at the end. */
  lemma TrimKeepsMarker(a: string, m: string)
    requires m != [] && !IsTrimSpace(m[0]) && !IsTrimSpace(Last(m))
    ensures EndsWith(Trim(a + m), m)
  {
    var s := a + m;
    LeadingRun(s);
    assert s[|a|] == m[0];
    var f := FirstNotTrimSpace(s);
    assert f <= |a|;
    assert EndNotTrimSpace(s) == |s|;
    assert Trim(s) == s[f..];
    assert Trim(s)[|Trim(s)| - |m|..] == m;
  }

  /** A chunk ends with its body marker: the elided braces after kept
      comment lines, "# ..." for Python, "{ /* ... */ }" otherwise; so a
      chunk is never empty. */
  lemma SnippetEnds(pre: string, sig: string, inner: string, ext: string)
    ensures var chunk := Trim(Snippet(pre, sig, inner, ext));
      && chunk != []
      && (inner != [] ==> EndsWith(chunk, "/* ... */\n}"))
      && (inner == [] && ext == "py" ==> EndsWith(chunk, "# ..."))
      && (inner == [] && ext != "py" ==> EndsWith(chunk, "{ /* ... */ }"))
  {
    var head := if pre == [] then "" else if Last(pre) != '\n' then pre + "\n" else pre;
    if inner != [] {
      var m := "/* ... */\n}";
      assert Snippet(pre, sig, inner, ext) == (head + sig + " {\n" + inner + "\n  ") + m;
      TrimKeepsMarker(head + sig + " {\n" + inner + "\n  ", m);
    } else if ext == "py" {
      var m := "# ...";
      assert Snippet(pre, sig, inner, ext) == (head + sig + "  ") + m;
      TrimKeepsMarker(head + sig + "  ", m);
    } else {
      var m := "{ /* ... */ }";
      assert Snippet(pre, sig, inner, ext) == (head + sig + " ") + m;
      TrimKeepsMarker(head + sig + " ", m);
    }
  }

  // ---------------------------------------------------------------------
  // The body of a signature: its opening brace and the comments inside
  // ---------------------------------------------------------------------

  /** The first '{' at or after b; for Python the search gives up at the
      first newline. */
  function OpenBrace(s: string, b: nat, py: bool): Option<nat>
    decreases |s| - b
  {
    if b >= |s| then None
    else if s[b] == '{' then Some(b)
    else if py && s[b] == '\n' then None
    else OpenBrace(s, b + 1, py)
  }

  /** Where the brace search stops at the latest: the end of the line for
      Python, the end of the text otherwise. */
  function SearchEnd(s: string, from: nat, py: bool): (stop: nat)
    requires from <= |s|
    ensures from <= stop <= |s|
  {
    if py then NewlineFrom(s, from) else |s|
  }

  /** The brace search finds the first '{' before the search end, and
      finds none exactly when there is none there. */
  lemma {:induction false} OpenBraceSpec(s: string, from: nat, py: bool)
    requires from <= |s|
    ensures var stop := SearchEnd(s, from, py);
      && (OpenBrace(s, from, py).None? <==> '{' !in s[from..stop])
      && (OpenBrace(s, from, py).Some? ==>
            var b := OpenBrace(s, from, py).value;
            from <= b < stop && s[b] == '{' && '{' !in s[from..b])
    decreases |s| - from
  {
    var stop := SearchEnd(s, from, py);
    if from < |s| && s[from] != '{' && !(py && s[from] == '\n') {
      OpenBraceSpec(s, from + 1, py);
      assert SearchEnd(s, from + 1, py) == stop;
      assert s[from..stop] == [s[from]] + s[from + 1..stop];
      if OpenBrace(s, from, py).Some? {
        var b := OpenBrace(s, from, py).value;
        assert s[from..b] == [s[from]] + s[from + 1..b];
      }
    } else if from < |s| && s[from] == '{' {
      assert s[from..stop][0] == '{';
    }
  }

  /** The brace scan of extractChunks, from the start of the signature line. */
  method FindOpenBrace(s: string, from: nat, py: bool) returns (r: Option<nat>)
    ensures r == OpenBrace(s, from, py)
  {
    var b := from;
    while b < |s|
      invariant OpenBrace(s, b, py) == OpenBrace(s, from, py)
      decreases |s| - b
    {
      if s[b] == '{' {
        return Some(b);
      }
      if py && s[b] == '\n' {
        return None;
      }
      b := b + 1;
    }
    return None;
  }

  /** The matching brace, when there is one, lies after the opening one and
      inside s. */
  lemma MatchingBraceBounds(s: string, o: nat)
    ensures MatchingBrace(s, o).Some? ==> o < MatchingBrace(s, o).value < |s|
  {
    if o < |s| && s[o] == '{' {
      FirstCloseFinds(s, o, o);
      if MatchingBrace(s, o).Some? {
        ClosingIsCodeBrace(s, o, MatchingBrace(s, o).value);
      }
    }
  }

  /** The comments found between the signature's opening brace and its
      matching brace (both included); "" when there is no brace or it is
      never closed. */
  function InnerComments(s: string, ext: string, pos: nat): string {
    match OpenBrace(s, pos, ext == "py")
    case None => ""
    case Some(o) => BraceComments(s, o)
  }

  /** The comments of the block opened by the brace at o, up to and
      including its matching brace; "" when it is never closed. */
  function BraceComments(s: string, o: nat): string {
    match MatchingBrace(s, o)
    case None => ""
    case Some(e) =>
      MatchingBraceBounds(s, o);
      if e > o then CommentsInRange(s, o, e + 1) else ""
  }

  /** The inner comments of the signature starting at pos: the brace search,
      then the comments of the block it opens. */
  method InnerCommentsOf(s: string, ext: string, pos: nat) returns (r: string)
    ensures r == InnerComments(s, ext, pos)
  {
    var found := FindOpenBrace(s, pos, ext == "py");
    if found.None? {
      return "";
    }
    r := BraceCommentsOf(s, found.value);
  }

  /** find_matching_brace_safe, then collect_comments_in_range over the
      block when the brace is closed. */
  method BraceCommentsOf(s: string, o: nat) returns (r: string)
    ensures r == BraceComments(s, o)
  {
    var braceEnd := FindMatchingBrace(s, o);
    MatchingBraceDetermined(s, o, braceEnd);
    MatchingBraceBounds(s, o);
    if braceEnd.None? || braceEnd.value <= o {
      return "";
    }
    r := CollectCommentsInRange(s, o, braceEnd.value + 1);
  }

  // ---------------------------------------------------------------------
  // One chunk per signature line
  // ---------------------------------------------------------------------

  /** The chunk the signature on lines[i] gives: its preceding comments, the
      normalised signature and the body with at most six inner comment
      lines, trimmed. */
  function ChunkAt(s: string, ext: string, lines: seq<string>, i: nat): string
    requires i < |lines|
  {
    var inner := Join(KeptComments(InnerComments(s, ext, Offset(lines, i)), 6), "\n");
    Trim(Snippet(PrecedingComments(lines, i), NormalizeSignature(Trim(lines[i]), ext), inner, ext))
  }

  /** The signature cut of extractChunks: after the parameter list, or
      before the brace. */
  method CutSignatureOf(trimmed: string) returns (signature: string)
    ensures signature == CutSignature(trimmed)
  {
    signature := trimmed;
    var p := IndexOf(signature, '(');
    if p < |signature| {
      var q := FindFrom(signature, ')', p);
      if q < |signature| {
        signature := Trim(signature[..q + 1]);
      } else {
        var bracePos := IndexOf(signature, '{');
        if bracePos < |signature| {
          signature := Trim(signature[..bracePos]);
        }
      }
    } else if signature != [] && Last(signature) == '{' {
      signature := Trim(signature[..|signature| - 1]);
    }
  }

  /** The signature rewriting of extractChunks: the cut, and a ':' added
      for Python. */
  method NormalizeSignatureOf(trimmed: string, ext: string) returns (signature: string)
    ensures signature == NormalizeSignature(trimmed, ext)
  {
    signature := CutSignatureOf(trimmed);
    if ext == "py" && signature != [] && Last(signature) != ':' {
      signature := signature + ":";
    }
  }

  /** The snippet assembly of extractChunks, before the final trim. */
  method BuildSnippet(preComments: string, signature: string, innerLimited: string, ext: string) returns (snippet: string)
    ensures snippet == Snippet(preComments, signature, innerLimited, ext)
  {
    snippet := "";
    if preComments != [] {
      snippet := snippet + preComments;
      if Last(snippet) != '\n' {
        snippet := snippet + "\n";
      }
    }
    snippet := snippet + signature;
    if innerLimited != [] {
      snippet := snippet + " {\n" + innerLimited + "\n  /* ... */\n}";
    } else if ext == "py" {
      snippet := snippet + "  # ...";
    } else {
      snippet := snippet + " { /* ... */ }";
    }
  }

  /** The body of the extractChunks loop for a line that matched. */
  method SignatureChunk(s: string, ext: string, lines: seq<string>, i: nat, pos: nat) returns (snippet: string)
    requires i < |lines| && pos == Offset(lines, i)
    ensures snippet == ChunkAt(s, ext, lines, i)
  {
    var preComments := CollectPrecedingCommentBlockLines(lines, i);
    var innerComments := InnerCommentsOf(s, ext, pos);
    var signature := NormalizeSignatureOf(Trim(lines[i]), ext);
    var innerLimited := LimitCommentLines(innerComments, 6);
    snippet := BuildSnippet(preComments, signature, innerLimited, ext);
    snippet := Trim(snippet);
  }

  // ---------------------------------------------------------------------
  // Signature chunks, without repeats
  // ---------------------------------------------------------------------

  /** The chunk every line would give, were it a signature. */
  function Rendered(s: string, ext: string, lines: seq<string>): (cs: seq<string>)
    ensures |cs| == |lines|
  {
    Tabulate(ChunkTable(s, ext, lines), |lines|)
  }

  /** Line number to chunk. */
  function ChunkTable(s: string, ext: string, lines: seq<string>): nat -> string {
    (k: nat) => if k < |lines| then ChunkAt(s, ext, lines, k) else ""
  }

  /** Entry i of the table is the chunk of lines[i]. */
  lemma RenderedAt(s: string, ext: string, lines: seq<string>, i: nat)
    requires i < |lines|
    ensures Rendered(s, ext, lines)[i] == ChunkAt(s, ext, lines, i)
  {
    TabulateAt(ChunkTable(s, ext, lines), |lines|, i);
  }

  /** Which lines are signatures. */
  function Signatures(lines: seq<string>, ext: string): (sig: seq<bool>)
    ensures |sig| == |lines|
  {
    Tabulate(SignatureTable(lines, ext), |lines|)
  }

  /** Line number to "is a signature". */
  function SignatureTable(lines: seq<string>, ext: string): nat -> bool {
    (k: nat) => k < |lines| && IsSignature(Trim(lines[k]), ext)
  }

  /** Entry i of the flags says whether lines[i], trimmed, is a signature. */
  lemma SignaturesAt(lines: seq<string>, ext: string, i: nat)
    requires i < |lines|
    ensures Signatures(lines, ext)[i] == IsSignature(Trim(lines[i]), ext)
  {
    TabulateAt(SignatureTable(lines, ext), |lines|, i);
  }

  /** Every entry of the flags, at once. */
  lemma SignaturesSpec(lines: seq<string>, ext: string)
    ensures forall i :: 0 <= i < |lines| ==> Signatures(lines, ext)[i] == IsSignature(Trim(lines[i]), ext)
  {
    forall i | 0 <= i < |lines|
      ensures Signatures(lines, ext)[i] == IsSignature(Trim(lines[i]), ext)
    {
      SignaturesAt(lines, ext, i);
    }
  }

  /** The chunks the main loop keeps from the first n lines, sig flagging
      the signature lines and cs being the chunk of every line: in line
      order, an empty chunk skipped and a chunk already kept not kept
      again. */
  function Found(sig: seq<bool>, cs: seq<string>, n: nat): seq<string>
    requires n <= |sig| && n <= |cs|
  {
    if n == 0 then []
    else
      var d := Found(sig, cs, n - 1);
      if sig[n - 1] && cs[n - 1] != [] && cs[n - 1] !in d then d + [cs[n - 1]] else d
  }

  /** The chunk list for the given lines, cs being the chunk of every line:
      the signature chunks without repeats, or, when there are none, the
      fallback built from the leading comments. */
  function ChunksOf(lines: seq<string>, ext: string, cs: seq<string>): seq<string>
    requires |cs| == |lines|
  {
    var found := Found(Signatures(lines, ext), cs, |lines|);
    if found != [] then found else FallbackChunks(lines)
  }

  /** What extractChunks returns for the text s. */
  function Chunks(s: string, ext: string): seq<string> {
    var lines := Split(s, '\n');
    ChunksOf(lines, ext, Rendered(s, ext, lines))
  }

  // ---------------------------------------------------------------------
  // The fallback: the leading comments of the file
  // ---------------------------------------------------------------------

  /** t starts a // comment. */
  predicate StartsLineComment(t: string) {
    |t| >= 2 && t[0] == '/' && t[1] == '/'
  }

  /** t starts a block comment. */
  predicate StartsBlockComment(t: string) {
    |t| >= 2 && t[0] == '/' && t[1] == '*'
  }

  /** The first line from j on that holds a star-slash, |lines| when none does. */
  function BlockClose(lines: seq<string>, j: nat): (e: nat)
    requires j <= |lines|
    ensures j <= e <= |lines|
    ensures e < |lines| ==> Contains(lines[e], "*/")
    decreases |lines| - j
  {
    if j == |lines| then j
    else if Contains(lines[j], "*/") then j
    else BlockClose(lines, j + 1)
  }

  /** The text a block comment opening on lines[i] contributes: its trimmed
      first line, then each following line trimmed, up to and including the
      first one holding a star-slash (or to the end of the file). */
  function BlockText(lines: seq<string>, i: nat): string
    requires i < |lines|
  {
    var e := BlockClose(lines, i + 1);
    var last := if e < |lines| then e + 1 else |lines|;
    Join([Trim(lines[i])] + TrimAll(lines[i + 1..last]), "\n")
  }

  /** Where the scan goes on after the block comment opening on lines[i]:
      after its closing line; when it is never closed, the next line. */
  function AfterBlock(lines: seq<string>, i: nat): nat
    requires i < |lines|
  {
    var e := BlockClose(lines, i + 1);
    if e < |lines| then e + 1 else i + 1
  }

  /** The leading comments from lines[i] on, among the first 200 lines:
      blank lines are skipped, a // line is kept trimmed, a block comment
      is kept whole, and the first other line ends the scan. */
  function TopComments(lines: seq<string>, i: nat): seq<string>
    requires i <= |lines|
    decreases |lines| - i
  {
    if i == |lines| || i >= 200 then []
    else
      var t := Trim(lines[i]);
      if t == [] then TopComments(lines, i + 1)
      else if StartsLineComment(t) then [t] + TopComments(lines, i + 1)
      else if StartsBlockComment(t) then [BlockText(lines, i)] + TopComments(lines, AfterBlock(lines, i))
      else []
  }

  /** The fallback chunk list: the leading comments joined by newlines, or
      nothing when there are none. */
  function FallbackChunks(lines: seq<string>): seq<string> {
    var top := TopComments(lines, 0);
    if top == [] then [] else [Join(top, "\n")]
  }

  /** What the inner loop of the fallback has built after the lines
      i + 1..j - 1. */
  predicate Gathering(lines: seq<string>, i: nat, j: nat, text: string) {
    && i < j <= |lines|
    && text == Join([Trim(lines[i])] + TrimAll(lines[i + 1..j]), "\n")
    && BlockClose(lines, j) == BlockClose(lines, i + 1)
  }

  /** One more line of a block comment. */
  lemma GatherLine(lines: seq<string>, i: nat, j0: nat, text0: string, text: string)
    requires Gathering(lines, i, j0, text0) && j0 < |lines|
    requires text == text0 + "\n" + Trim(lines[j0])
    ensures text == Join([Trim(lines[i])] + TrimAll(lines[i + 1..j0 + 1]), "\n")
  {
    var xs := [Trim(lines[i])] + TrimAll(lines[i + 1..j0]);
    assert lines[i + 1..j0 + 1] == lines[i + 1..j0] + [lines[j0]];
    TrimAllSnoc(lines[i + 1..j0], lines[j0]);
    assert [Trim(lines[i])] + TrimAll(lines[i + 1..j0 + 1]) == xs + [Trim(lines[j0])];
    JoinSnoc(xs, Trim(lines[j0]), "\n");
  }

  /** A line holding the closer ends the block: the text is the block's. */
  lemma GatherClosed(lines: seq<string>, i: nat, j: nat, text0: string, text: string)
    requires Gathering(lines, i, j, text0) && j < |lines| && Contains(lines[j], "*/")
    requires text == text0 + "\n" + Trim(lines[j])
    ensures text == BlockText(lines, i) && j + 1 == AfterBlock(lines, i)
  {
    GatherLine(lines, i, j, text0, text);
  }

  /** A line without the closer keeps the block open. */
  lemma GatherOpen(lines: seq<string>, i: nat, j: nat, text0: string, text: string)
    requires Gathering(lines, i, j, text0) && j < |lines| && !Contains(lines[j], "*/")
    requires text == text0 + "\n" + Trim(lines[j])
    ensures Gathering(lines, i, j + 1, text)
  {
    GatherLine(lines, i, j, text0, text);
  }

  /** A block never closed runs to the last line. */
  lemma GatherUnclosed(lines: seq<string>, i: nat, text: string)
    requires Gathering(lines, i, |lines|, text)
    ensures text == BlockText(lines, i) && i + 1 == AfterBlock(lines, i)
  {
  }

  /** The inner loop of the fallback: a block comment opening on lines[i]. */
  method GatherBlock(lines: seq<string>, i: nat) returns (text: string, next: nat)
    requires i < |lines|
    ensures text == BlockText(lines, i) && next == AfterBlock(lines, i)
  {
    text := Trim(lines[i]);
    next := i + 1;
    var j := i + 1;
    assert lines[i + 1..j] == [];
    while j < |lines|
      invariant Gathering(lines, i, j, text)
      decreases |lines| - j
    {
      ghost var text0 := text;
      text := text + "\n" + Trim(lines[j]);
      if Contains(lines[j], "*/") {
        GatherClosed(lines, i, j, text0, text);
        next := j + 1;
        return;
      }
      GatherOpen(lines, i, j, text0, text);
      j := j + 1;
    }
    GatherUnclosed(lines, i, text);
  }

  /** What the fallback loop knows before line i: `top` holds the leading
      comments of the lines before it. */
  predicate Topping(lines: seq<string>, top: seq<string>, i: nat) {
    i <= |lines| && top + TopComments(lines, i) == TopComments(lines, 0)
  }

  /** A blank line is skipped. */
  lemma TopBlank(lines: seq<string>, top: seq<string>, i0: nat, i: nat)
    requires Topping(lines, top, i0) && i0 < |lines| && i0 < 200
    requires Trim(lines[i0]) == [] && i == i0 + 1
    ensures Topping(lines, top, i)
  {
  }

  /** A // line is kept. */
  lemma TopLine(lines: seq<string>, top0: seq<string>, i0: nat, top: seq<string>, i: nat)
    requires Topping(lines, top0, i0) && i0 < |lines| && i0 < 200
    requires Trim(lines[i0]) != [] && StartsLineComment(Trim(lines[i0]))
    requires top == top0 + [Trim(lines[i0])] && i == i0 + 1
    ensures Topping(lines, top, i)
  {
    AppendAssoc(top0, [Trim(lines[i0])], TopComments(lines, i));
  }

  /** A block comment is kept whole. */
  lemma TopBlock(lines: seq<string>, top0: seq<string>, i0: nat, top: seq<string>, i: nat)
    requires Topping(lines, top0, i0) && i0 < |lines| && i0 < 200
    requires Trim(lines[i0]) != [] && !StartsLineComment(Trim(lines[i0])) && StartsBlockComment(Trim(lines[i0]))
    requires top == top0 + [BlockText(lines, i0)] && i == AfterBlock(lines, i0)
    ensures Topping(lines, top, i)
  {
    AppendAssoc(top0, [BlockText(lines, i0)], TopComments(lines, i));
  }

  /** The scan ends at the 200th line, at the end of the file, or at a line
      that is neither blank nor a comment. */
  lemma TopStop(lines: seq<string>, top: seq<string>, i: nat)
    requires Topping(lines, top, i)
    requires i == |lines| || i >= 200 ||
      (Trim(lines[i]) != [] && !StartsLineComment(Trim(lines[i])) && !StartsBlockComment(Trim(lines[i])))
    ensures top == TopComments(lines, 0)
  {
  }

  /** The fallback loop of extractChunks. */
  method Fallback(lines: seq<string>) returns (chunks: seq<string>)
    ensures chunks == FallbackChunks(lines)
  {
    var top: seq<string> := [];
    var i := 0;
    while i < |lines| && i < 200
      invariant Topping(lines, top, i)
      decreases |lines| - i
    {
      var t := Trim(lines[i]);
      if t == [] {
        i := i + 1;
        TopBlank(lines, top, i - 1, i);
      } else if StartsLineComment(t) {
        ghost var top0 := top;
        top := top + [t];
        i := i + 1;
        TopLine(lines, top0, i - 1, top, i);
      } else if StartsBlockComment(t) {
        ghost var top0, i0 := top, i;
        var text, next := GatherBlock(lines, i);
        top := top + [text];
        i := next;
        TopBlock(lines, top0, i0, top, i);
      } else {
        break;
      }
    }
    TopStop(lines, top, i);
    chunks := if top == [] then [] else [Join(top, "\n")];
  }

  // ---------------------------------------------------------------------
  // extractChunks
  // ---------------------------------------------------------------------

  /** What the main loop knows before line i: `chunks` holds the chunks of
      the lines before it without repeats, `seen` the same strings, cs being
      the chunk of every line. */
  ghost predicate Extracting(sig: seq<bool>, cs: seq<string>, i: nat, chunks: seq<string>, seen: set<string>) {
    && i <= |sig| && |cs| == |sig|
    && chunks == Found(sig, cs, i)
    && (forall x :: x in seen <==> x in chunks)
  }

  /** A line that is no signature, or whose chunk is empty, adds nothing. */
  lemma ExtractSkip(sig: seq<bool>, cs: seq<string>, i0: nat, chunks: seq<string>, seen: set<string>, i: nat)
    requires Extracting(sig, cs, i0, chunks, seen) && i0 < |sig| && i == i0 + 1
    requires !sig[i0] || cs[i0] == []
    ensures Extracting(sig, cs, i, chunks, seen)
  {
  }

  /** A chunk met for the first time is added. */
  lemma ExtractNew(sig: seq<bool>, cs: seq<string>, i0: nat, chunks0: seq<string>, seen0: set<string>,
                   chunks: seq<string>, seen: set<string>, i: nat)
    requires Extracting(sig, cs, i0, chunks0, seen0) && i0 < |sig| && i == i0 + 1
    requires sig[i0] && cs[i0] != [] && cs[i0] !in seen0
    requires chunks == chunks0 + [cs[i0]] && seen == seen0 + {cs[i0]}
    ensures Extracting(sig, cs, i, chunks, seen)
  {
  }

  /** A chunk met before is not added again. */
  lemma ExtractRepeat(sig: seq<bool>, cs: seq<string>, i0: nat, chunks: seq<string>, seen: set<string>, i: nat)
    requires Extracting(sig, cs, i0, chunks, seen) && i0 < |sig| && i == i0 + 1
    requires sig[i0] && cs[i0] != [] && cs[i0] in seen
    ensures Extracting(sig, cs, i, chunks, seen)
  {
  }

  /** sig and cs are the flags and the chunks of the lines; an entry is
      looked up only where the loop meets the line's signature test or its
      chunk. */
  ghost predicate Tabled(s: string, ext: string, lines: seq<string>, sig: seq<bool>, cs: seq<string>) {
    && |sig| == |lines| && |cs| == |lines|
    && (forall k {:trigger IsSignature(Trim(lines[k]), ext)} :: 0 <= k < |lines| ==> sig[k] == IsSignature(Trim(lines[k]), ext))
    && (forall k {:trigger ChunkAt(s, ext, lines, k)} :: 0 <= k < |lines| ==> cs[k] == ChunkAt(s, ext, lines, k))
  }

  /** The flags and the chunk table are tabled. */
  lemma TabledHolds(s: string, ext: string, lines: seq<string>)
    ensures Tabled(s, ext, lines, Signatures(lines, ext), Rendered(s, ext, lines))
  {
    SignaturesSpec(lines, ext);
    forall k | 0 <= k < |lines|
      ensures Rendered(s, ext, lines)[k] == ChunkAt(s, ext, lines, k)
    {
      RenderedAt(s, ext, lines, k);
    }
  }

  /** One pass of the main loop of extractChunks, on lines[i]. */
  method ExtractLine(s: string, ext: string, lines: seq<string>, offsets: seq<nat>, ghost sig: seq<bool>,
                     ghost cs: seq<string>, i: nat, chunks0: seq<string>, seen0: set<string>)
    returns (chunks: seq<string>, seen: set<string>)
    requires i < |lines| && |offsets| == |lines| + 1 && offsets[i] == Offset(lines, i)
    requires Tabled(s, ext, lines, sig, cs)
    requires Extracting(sig, cs, i, chunks0, seen0)
    ensures Extracting(sig, cs, i + 1, chunks, seen)
  {
    chunks, seen := chunks0, seen0;
    var trimmed := Trim(lines[i]);
    var matched := IsSignature(trimmed, ext);
    if !matched {
      ExtractSkip(sig, cs, i, chunks, seen, i + 1);
      return;
    }
    var snippet := SignatureChunk(s, ext, lines, i, offsets[i]);
    if snippet == [] {
      ExtractSkip(sig, cs, i, chunks, seen, i + 1);
      return;
    }
    if snippet !in seen {
      seen := seen + {snippet};
      chunks := chunks + [snippet];
      ExtractNew(sig, cs, i, chunks0, seen0, chunks, seen, i + 1);
    } else {
      ExtractRepeat(sig, cs, i, chunks, seen, i + 1);
    }
  }

  /** The main loop of extractChunks: the chunks of the signature lines, in
      line order, each string once. */
  method SignatureChunks(s: string, ext: string, lines: seq<string>, ghost sig: seq<bool>, ghost cs: seq<string>)
    returns (chunks: seq<string>)
    requires Tabled(s, ext, lines, sig, cs)
    ensures chunks == Found(sig, cs, |lines|)
  {
    chunks := [];
    var seen: set<string> := {};
    var offsets := LineOffsets(lines);
    var i := 0;
    while i < |lines|
      invariant i <= |lines| && Extracting(sig, cs, i, chunks, seen)
      decreases |lines| - i
    {
      chunks, seen := ExtractLine(s, ext, lines, offsets, sig, cs, i, chunks, seen);
      i := i + 1;
    }
  }

  /** extractChunks: one chunk per signature line, in line order, each
      string once; the leading comments when no line is a signature. */
  method ExtractChunks(s: string, ext: string) returns (chunks: seq<string>)
    ensures chunks == Chunks(s, ext)
  {
    var lines := SplitLines(s);
    ghost var sig := Signatures(lines, ext);
    ghost var cs := Rendered(s, ext, lines);
    TabledHolds(s, ext, lines);
    chunks := SignatureChunks(s, ext, lines, sig, cs);
    if chunks == [] {
      chunks := Fallback(lines);
    }
  }

  // ---------------------------------------------------------------------
  // What extractChunks promises
  // ---------------------------------------------------------------------

  /** The chunk of a signature line is never empty and is trimmed; it ends
      with the elided body: the kept inner comment lines and the closing
      marker, "# ..." for Python, or "{ /* ... */ }". */
  lemma ChunkAtSpec(s: string, ext: string, lines: seq<string>, i: nat)
    requires i < |lines|
    ensures var c := ChunkAt(s, ext, lines, i);
      var inner := Join(KeptComments(InnerComments(s, ext, Offset(lines, i)), 6), "\n");
      && c != [] && IsTrimmed(c)
      && (inner != [] ==> EndsWith(c, "/* ... */\n}"))
      && (inner == [] && ext == "py" ==> EndsWith(c, "# ..."))
      && (inner == [] && ext != "py" ==> EndsWith(c, "{ /* ... */ }"))
  {
    var inner := Join(KeptComments(InnerComments(s, ext, Offset(lines, i)), 6), "\n");
    SnippetEnds(PrecedingComments(lines, i), NormalizeSignature(Trim(lines[i]), ext), inner, ext);
  }

  /** The lines of a chunk: the preceding comment lines, then the signature
      with its elided body, which takes one line when no inner comment is
      kept and otherwise opens a brace, lists the kept lines and closes with
      the marker and the brace on lines of their own. */
  function ChunkLines(pre: seq<string>, sig: string, kept: seq<string>, ext: string): seq<string> {
    pre + BodyLines(sig, kept, ext)
  }

  function BodyLines(sig: string, kept: seq<string>, ext: string): seq<string> {
    if kept != [] then [sig + " {"] + kept + ["  /* ... */", "}"]
    else if ext == "py" then [sig + "  # ..."]
    else [sig + " { /* ... */ }"]
  }

  /** The cut signature of a trimmed line is trimmed, and holds only
      characters of the line, and ':' for Python. */
  lemma SignatureClean(t: string, ext: string)
    requires IsTrimmed(t)
    ensures var sig := NormalizeSignature(t, ext);
      && IsTrimmed(sig) && forall c :: c in sig ==> c in t || c == ':'
  {
    var p := IndexOf(t, '(');
    var cut := CutSignature(t);
    if p < |t| {
      var q := FindFrom(t, ')', p);
      if q < |t| {
        TrimChars(t[..q + 1]);
      } else {
        var b := IndexOf(t, '{');
        if b < |t| {
          TrimChars(t[..b]);
        }
      }
    } else if t != [] && Last(t) == '{' {
      TrimChars(t[..|t| - 1]);
    }
    assert forall c :: c in cut ==> c in t;
  }

  /** Joined with newlines, an opened body is the signature, the brace, the
      kept lines, the marker and the closing brace. */
  lemma OpenBodyJoin(sig: string, kept: seq<string>)
    requires kept != []
    ensures Join(BodyLines(sig, kept, ""), "\n") == sig + (" {\n" + Join(kept, "\n") + "\n  /* ... */\n}")
  {
    var inner := Join(kept, "\n");
    var tail := ["  /* ... */", "}"];
    var closing := "\n  /* ... */\n}";
    JoinAppend(kept, tail, "\n");
    assert Join(tail, "\n") == "  /* ... */" + "\n" + "}";
    assert "\n" + ("  /* ... */" + "\n" + "}") == closing;
    assert Join(kept + tail, "\n") == inner + closing;
    assert BodyLines(sig, kept, "") == [sig + " {"] + (kept + tail);
    JoinAppend([sig + " {"], kept + tail, "\n");
    assert (sig + " {") + "\n" == sig + " {\n";
  }

  /** Joined with newlines, the body lines are the signature and the body of
      the snippet. */
  lemma BodyJoin(sig: string, kept: seq<string>, ext: string)
    requires kept != [] ==> kept[0] != []
    ensures var inner := Join(kept, "\n");
      Snippet("", sig, inner, ext) == Join(BodyLines(sig, kept, ext), "\n")
  {
    var inner := Join(kept, "\n");
    if kept != [] {
      JoinStartsWith(kept, "\n");
      assert inner != [];
      OpenBodyJoin(sig, kept);
      assert BodyLines(sig, kept, ext) == BodyLines(sig, kept, "");
      assert Snippet("", sig, inner, ext) == "" + sig + (" {\n" + inner + "\n  /* ... */\n}");
      assert "" + sig == sig;
    } else if ext == "py" {
      assert inner == [];
      assert Snippet("", sig, inner, ext) == "" + sig + "  # ...";
      assert "" + sig == sig;
    } else {
      assert inner == [];
      assert Snippet("", sig, inner, ext) == "" + sig + " { /* ... */ }";
      assert "" + sig == sig;
    }
  }

  /** A snippet with comments above it is those comments, a newline and the
      snippet without them. */
  lemma SnippetHead(pre: string, sig: string, inner: string, ext: string)
    requires pre != [] && Last(pre) != '\n'
    ensures Snippet(pre, sig, inner, ext) == pre + "\n" + Snippet("", sig, inner, ext)
  {
    var body :=
      if inner != [] then " {\n" + inner + "\n  /* ... */\n}"
      else if ext == "py" then "  # ..."
      else " { /* ... */ }";
    assert Snippet(pre, sig, inner, ext) == (pre + "\n") + sig + body;
    assert Snippet("", sig, inner, ext) == "" + sig + body;
    assert "" + sig == sig;
  }

  /** Joined with newlines, the chunk lines are the snippet: the preceding
      comments joined and ended by a newline, the signature, the body. */
  lemma SnippetJoin(pre: seq<string>, sig: string, kept: seq<string>, ext: string)
    requires forall k :: 0 <= k < |pre| ==> pre[k] != [] && '\n' !in pre[k]
    requires kept != [] ==> kept[0] != []
    ensures Snippet(Join(pre, "\n"), sig, Join(kept, "\n"), ext) == Join(ChunkLines(pre, sig, kept, ext), "\n")
  {
    var body := BodyLines(sig, kept, ext);
    var inner := Join(kept, "\n");
    BodyJoin(sig, kept, ext);
    if pre != [] {
      var head := Join(pre, "\n");
      JoinLast(pre, "\n");
      assert Last(Last(pre)) in Last(pre);
      JoinAppend(pre, body, "\n");
      SnippetHead(head, sig, inner, ext);
    } else {
      assert Join(pre, "\n") == "";
      assert ChunkLines(pre, sig, kept, ext) == body;
    }
  }

  /** Trimming the joined chunk lines changes nothing when they start with a
      comment line or a signature. */
  lemma ChunkLinesTrimmed(pre: seq<string>, sig: string, kept: seq<string>, ext: string)
    requires forall k :: 0 <= k < |pre| ==> pre[k] != [] && IsTrimmed(pre[k])
    requires IsTrimmed(sig) && (pre != [] || sig != [])
    ensures Trim(Join(ChunkLines(pre, sig, kept, ext), "\n")) == Join(ChunkLines(pre, sig, kept, ext), "\n")
  {
    var cl := ChunkLines(pre, sig, kept, ext);
    var j := Join(cl, "\n");
    JoinStartsWith(cl, "\n");
    JoinLast(cl, "\n");
    if pre == [] {
      assert cl[0][0] == sig[0];
    }
    assert j[0] == cl[0][0];
    TrimKeepsNonSpaceEnds(j);
  }

  /** The chunk lines carry no newline when the comment lines, the signature
      and the kept lines carry none. */
  lemma ChunkLinesClean(pre: seq<string>, sig: string, kept: seq<string>, ext: string)
    requires forall k :: 0 <= k < |pre| ==> '\n' !in pre[k]
    requires forall k :: 0 <= k < |kept| ==> '\n' !in kept[k]
    requires '\n' !in sig
    ensures forall k :: 0 <= k < |ChunkLines(pre, sig, kept, ext)| ==> '\n' !in ChunkLines(pre, sig, kept, ext)[k]
  {
    var body := BodyLines(sig, kept, ext);
    assert forall k :: 0 <= k < |body| ==> '\n' !in body[k];
  }

  /** A snippet built from clean comment lines, a clean signature and clean
      kept lines is, once trimmed, the join of its chunk lines; unless it
      starts with the signature's empty cut, it is that join and splits back
      into those lines. */
  lemma SnippetLines(pre: seq<string>, sig: string, kept: seq<string>, ext: string)
    requires forall k :: 0 <= k < |pre| ==> pre[k] != [] && IsTrimmed(pre[k]) && '\n' !in pre[k]
    requires forall k :: 0 <= k < |kept| ==> kept[k] != [] && '\n' !in kept[k]
    requires IsTrimmed(sig) && '\n' !in sig
    ensures var c := Trim(Snippet(Join(pre, "\n"), sig, Join(kept, "\n"), ext));
      && c == Trim(Join(ChunkLines(pre, sig, kept, ext), "\n"))
      && (pre != [] || sig != [] ==>
            && c == Join(ChunkLines(pre, sig, kept, ext), "\n")
            && Split(c, '\n') == ChunkLines(pre, sig, kept, ext))
  {
    SnippetJoin(pre, sig, kept, ext);
    if pre != [] || sig != [] {
      ChunkLinesTrimmed(pre, sig, kept, ext);
      ChunkLinesClean(pre, sig, kept, ext);
      SplitJoin(ChunkLines(pre, sig, kept, ext), '\n');
    }
  }

  /** The chunk line by line: unless both the comments above and the
      signature are empty, the chunk is exactly the preceding comment lines,
      the signature line with its body, and, when inner comments are kept,
      those lines, the marker line and the closing brace, one per line. */
  lemma ChunkAtLines(s: string, ext: string, lines: seq<string>, i: nat)
    requires i < |lines|
    requires forall k :: 0 <= k < |lines| ==> '\n' !in lines[k]
    ensures var c := ChunkAt(s, ext, lines, i);
      var pre := PrecedingLines(lines, i);
      var sig := NormalizeSignature(Trim(lines[i]), ext);
      var kept := KeptComments(InnerComments(s, ext, Offset(lines, i)), 6);
      && c == Trim(Join(ChunkLines(pre, sig, kept, ext), "\n"))
      && (pre != [] || sig != [] ==>
            && c == Join(ChunkLines(pre, sig, kept, ext), "\n")
            && Split(c, '\n') == ChunkLines(pre, sig, kept, ext))
  {
    var pre := PrecedingLines(lines, i);
    var t := Trim(lines[i]);
    var sig := NormalizeSignature(t, ext);
    var kept := KeptComments(InnerComments(s, ext, Offset(lines, i)), 6);
    PrecedingLinesClean(lines, i);
    KeptCommentsSpec(InnerComments(s, ext, Offset(lines, i)), 6);
    TrimChars(lines[i]);
    SignatureClean(t, ext);
    SnippetLines(pre, sig, kept, ext);
  }

  /** No line renders to an empty chunk. */
  lemma RenderedNonEmpty(s: string, ext: string, lines: seq<string>)
    ensures forall k :: 0 <= k < |lines| ==> Rendered(s, ext, lines)[k] != []
  {
    forall k | 0 <= k < |lines|
      ensures Rendered(s, ext, lines)[k] != []
    {
      RenderedAt(s, ext, lines, k);
      ChunkAtSpec(s, ext, lines, k);
    }
  }

  /** The kept chunks never repeat, and they are exactly the chunks of the
      signature lines among the first n (no chunk being empty). */
  lemma {:induction false} FoundSpec(sig: seq<bool>, cs: seq<string>, n: nat)
    requires n <= |sig| && n <= |cs| && forall k :: 0 <= k < |cs| ==> cs[k] != []
    ensures Distinct(Found(sig, cs, n))
    ensures forall c :: c in Found(sig, cs, n) <==> exists i :: 0 <= i < n && sig[i] && cs[i] == c
  {
    if n > 0 {
      FoundSpec(sig, cs, n - 1);
    }
  }

  /** Without a signature line nothing is kept. */
  lemma {:induction false} NothingFound(sig: seq<bool>, cs: seq<string>, n: nat)
    requires n <= |sig| && n <= |cs|
    requires forall i :: 0 <= i < |sig| ==> !sig[i]
    ensures Found(sig, cs, n) == []
  {
    if n > 0 {
      NothingFound(sig, cs, n - 1);
    }
  }

  /** With a signature line, something is kept. */
  lemma SomethingFound(sig: seq<bool>, cs: seq<string>, i: nat)
    requires |cs| == |sig| && forall k :: 0 <= k < |cs| ==> cs[k] != []
    requires i < |sig| && sig[i]
    ensures Found(sig, cs, |sig|) != []
  {
    FoundSpec(sig, cs, |sig|);
    assert cs[i] in Found(sig, cs, |sig|);
  }

  /** No kept chunk is empty. */
  lemma {:induction false} FoundNonEmpty(sig: seq<bool>, cs: seq<string>, n: nat)
    requires n <= |sig| && n <= |cs|
    ensures forall k :: 0 <= k < |Found(sig, cs, n)| ==> Found(sig, cs, n)[k] != []
  {
    if n > 0 {
      FoundNonEmpty(sig, cs, n - 1);
    }
  }

  /** No entry of the chunk list is empty: a signature chunk never is, and
      the fallback chunk starts with a comment opener. */
  lemma ChunksOfNonEmpty(lines: seq<string>, ext: string, cs: seq<string>)
    requires |cs| == |lines|
    ensures forall k :: 0 <= k < |ChunksOf(lines, ext, cs)| ==> ChunksOf(lines, ext, cs)[k] != []
  {
    FoundNonEmpty(Signatures(lines, ext), cs, |lines|);
    FallbackChunksSpec(lines);
  }

  /** The chunk list never repeats a chunk. When some line is a signature
      it holds exactly the chunks of the signature lines; only when no line
      is a signature does it fall back to the leading comments. */
  lemma ChunksOfSpec(lines: seq<string>, ext: string, cs: seq<string>)
    requires |cs| == |lines| && forall k :: 0 <= k < |cs| ==> cs[k] != []
    ensures Distinct(ChunksOf(lines, ext, cs))
    ensures (exists i :: 0 <= i < |lines| && IsSignature(Trim(lines[i]), ext)) ==>
      forall c :: c in ChunksOf(lines, ext, cs) <==>
        exists i :: 0 <= i < |lines| && IsSignature(Trim(lines[i]), ext) && cs[i] == c
    ensures (forall i :: 0 <= i < |lines| ==> !IsSignature(Trim(lines[i]), ext)) ==>
      ChunksOf(lines, ext, cs) == FallbackChunks(lines)
  {
    FoundSpec(Signatures(lines, ext), cs, |lines|);
    if exists i :: 0 <= i < |lines| && IsSignature(Trim(lines[i]), ext) {
      ChunksOfMembers(lines, ext, cs);
    } else {
      ChunksOfFallback(lines, ext, cs);
    }
  }

  lemma ChunksOfMembers(lines: seq<string>, ext: string, cs: seq<string>)
    requires |cs| == |lines| && forall k :: 0 <= k < |cs| ==> cs[k] != []
    requires exists i :: 0 <= i < |lines| && IsSignature(Trim(lines[i]), ext)
    ensures forall c :: c in ChunksOf(lines, ext, cs) <==>
      exists i :: 0 <= i < |lines| && IsSignature(Trim(lines[i]), ext) && cs[i] == c
  {
    var sig := Signatures(lines, ext);
    SignaturesSpec(lines, ext);
    FoundSpec(sig, cs, |lines|);
    var i :| 0 <= i < |lines| && IsSignature(Trim(lines[i]), ext);
    SomethingFound(sig, cs, i);
  }

  lemma ChunksOfFallback(lines: seq<string>, ext: string, cs: seq<string>)
    requires |cs| == |lines|
    requires forall i :: 0 <= i < |lines| ==> !IsSignature(Trim(lines[i]), ext)
    ensures ChunksOf(lines, ext, cs) == FallbackChunks(lines)
  {
    SignaturesSpec(lines, ext);
    NothingFound(Signatures(lines, ext), cs, |lines|);
  }

  /** extractChunks never repeats a chunk. When some line of s is a
      signature its result holds exactly the chunks of the signature lines
      (Rendered(s, ext, lines)[i] being ChunkAt(s, ext, lines, i), the chunk
      of line i); only when no line is a signature does it fall back to the
      leading comments. */
  lemma ChunksSpec(s: string, ext: string)
    ensures Distinct(Chunks(s, ext))
    ensures var lines := Split(s, '\n');
      (exists i :: 0 <= i < |lines| && IsSignature(Trim(lines[i]), ext)) ==>
        forall c :: c in Chunks(s, ext) <==>
          exists i :: 0 <= i < |lines| && IsSignature(Trim(lines[i]), ext) && Rendered(s, ext, lines)[i] == c
    ensures var lines := Split(s, '\n');
      (forall i :: 0 <= i < |lines| ==> !IsSignature(Trim(lines[i]), ext)) ==>
        Chunks(s, ext) == FallbackChunks(lines)
  {
    var lines := Split(s, '\n');
    RenderedNonEmpty(s, ext, lines);
    ChunksOfSpec(lines, ext, Rendered(s, ext, lines));
  }

  /** extractChunks never returns an empty chunk. */
  lemma ChunksNonEmpty(s: string, ext: string)
    ensures forall k :: 0 <= k < |Chunks(s, ext)| ==> Chunks(s, ext)[k] != []
  {
    var lines := Split(s, '\n');
    ChunksOfNonEmpty(lines, ext, Rendered(s, ext, lines));
  }

  /** t opens a comment the fallback keeps. */
  predicate CommentStart(t: string) {
    StartsLineComment(t) || StartsBlockComment(t)
  }

  /** A block comment's text starts with its first line, trimmed. */
  lemma BlockTextStart(lines: seq<string>, i: nat)
    requires i < |lines|
    ensures StartsWith(BlockText(lines, i), Trim(lines[i]))
  {
    var e := BlockClose(lines, i + 1);
    var last := if e < |lines| then e + 1 else |lines|;
    JoinStartsWith([Trim(lines[i])] + TrimAll(lines[i + 1..last]), "\n");
  }

  /** The first entry of the fallback from a comment line i. */
  lemma TopHead(lines: seq<string>, i: nat)
    requires i < |lines| && i < 200 && CommentStart(Trim(lines[i]))
    ensures TopComments(lines, i) != [] && StartsWith(TopComments(lines, i)[0], Trim(lines[i]))
  {
    if !StartsLineComment(Trim(lines[i])) {
      BlockTextStart(lines, i);
    }
  }

  /** The fallback from a comment line i, its first entry taken off. */
  lemma TopTail(lines: seq<string>, i: nat)
    requires i < |lines| && i < 200 && CommentStart(Trim(lines[i]))
    ensures var next := if StartsLineComment(Trim(lines[i])) then i + 1 else AfterBlock(lines, i);
      i < next <= |lines| && TopComments(lines, i)[1..] == TopComments(lines, next)
  {
  }

  /** A text starting with a comment opener starts with that opener. */
  lemma CommentStartPrefix(x: string, t: string)
    requires StartsWith(x, t) && CommentStart(t)
    ensures CommentStart(x)
  {
    assert x[0] == t[0] && x[1] == t[1];
  }

  /** Every entry of the fallback opens a comment: a // line or a block
      comment, never code. */
  lemma {:induction false} TopCommentsAreComments(lines: seq<string>, i: nat)
    requires i <= |lines|
    ensures forall k :: 0 <= k < |TopComments(lines, i)| ==> CommentStart(TopComments(lines, i)[k])
    decreases |lines| - i
  {
    if i < |lines| && i < 200 {
      var t := Trim(lines[i]);
      if t == [] {
        TopCommentsAreComments(lines, i + 1);
      } else if CommentStart(t) {
        var top := TopComments(lines, i);
        TopHead(lines, i);
        TopTail(lines, i);
        var next := if StartsLineComment(t) then i + 1 else AfterBlock(lines, i);
        TopCommentsAreComments(lines, next);
        CommentStartPrefix(top[0], t);
        assert forall k :: 1 <= k < |top| ==> top[k] == TopComments(lines, next)[k - 1];
      }
    }
  }

  /** Line m is, from line i on, the first line that is not blank, and it
      opens a comment, among the first 200 lines. */
  predicate FirstCommentFrom(lines: seq<string>, i: nat, m: nat) {
    && i <= m < |lines| && m < 200 && CommentStart(Trim(lines[m]))
    && forall j :: i <= j < m ==> Trim(lines[j]) == []
  }

  /** A blank line i does not change where the first comment is. */
  lemma BlankShift(lines: seq<string>, i: nat)
    requires i < |lines| && Trim(lines[i]) == []
    ensures forall m :: FirstCommentFrom(lines, i, m) <==> FirstCommentFrom(lines, i + 1, m)
  {
  }

  /** A line i that is neither blank nor a comment leaves no first comment. */
  lemma CodeStops(lines: seq<string>, i: nat)
    requires i < |lines| && Trim(lines[i]) != [] && !CommentStart(Trim(lines[i]))
    ensures forall m :: !FirstCommentFrom(lines, i, m)
  {
  }

  /** The fallback finds something exactly when, among the first 200 lines,
      the first line that is not blank opens a comment. */
  lemma {:induction false} TopCommentsNonEmpty(lines: seq<string>, i: nat)
    requires i <= |lines|
    ensures TopComments(lines, i) != [] <==> exists m :: FirstCommentFrom(lines, i, m)
    decreases |lines| - i
  {
    if i < |lines| && i < 200 {
      var t := Trim(lines[i]);
      if t == [] {
        TopCommentsNonEmpty(lines, i + 1);
        BlankShift(lines, i);
        if TopComments(lines, i + 1) != [] {
          var m :| FirstCommentFrom(lines, i + 1, m);
          assert FirstCommentFrom(lines, i, m);
        } else {
          forall m ensures !FirstCommentFrom(lines, i, m) {
            assert !FirstCommentFrom(lines, i + 1, m);
          }
        }
      } else if CommentStart(t) {
        assert FirstCommentFrom(lines, i, i);
      } else {
        CodeStops(lines, i);
      }
    }
  }

  /** The fallback gives at most one chunk. It gives one exactly when, among
      the first 200 lines, the first line that is not blank opens a comment,
      and that chunk then starts with a comment opener. */
  lemma FallbackChunksSpec(lines: seq<string>)
    ensures |FallbackChunks(lines)| <= 1
    ensures FallbackChunks(lines) != [] <==> exists m :: FirstCommentFrom(lines, 0, m)
    ensures FallbackChunks(lines) != [] ==> CommentStart(FallbackChunks(lines)[0])
  {
    var top := TopComments(lines, 0);
    TopCommentsNonEmpty(lines, 0);
    TopCommentsAreComments(lines, 0);
    if top != [] {
      JoinStartsWith(top, "\n");
      CommentStartPrefix(Join(top, "\n"), top[0]);
    }
  }

  /** As written, the search for the end of a block comment starts on the
      line after its opening, and an unclosed block leaves the scan on the
      next line: a one-line block comment followed by a // line gives that
      line twice, once inside the block's text and once on its own. */
  lemma OneLineBlockQuirk()
    ensures TopComments(["/* a */", "// b"], 0) == ["/* a */\n// b", "// b"]
  {
    var lines := ["/* a */", "// b"];
    TrimKeepsNonSpaceEnds(lines[0]);
    TrimKeepsNonSpaceEnds(lines[1]);
    assert !Contains(lines[1], "*/") by {
      if Contains(lines[1], "*/") {
        ContainsFirst(lines[1], "*/");
      }
    }
    assert BlockClose(lines, 1) == 2;
    assert lines[1..2] == [lines[1]];
    var pieces := [Trim(lines[0])] + TrimAll(lines[1..2]);
    assert pieces == ["/* a */", "// b"];
    assert Join(pieces, "\n") == "/* a */" + "\n" + Join(pieces[1..], "\n");
    assert BlockText(lines, 0) == "/* a */\n// b";
    assert TopComments(lines, 1) == ["// b"];
  }
}
