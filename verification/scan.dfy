/**
  The quote-aware scanners of src/Compressor.cpp: find_outside_quotes,
  find_matching_brace_safe and collect_comments_in_range.

  Each scanner walks a buffer byte by byte, remembering whether it is
  inside a '...', "..." or `...` literal (a backslash inside a literal
  skips the next byte) and, for the brace matcher and the comment
  collector, skipping // and /* */ comments met outside literals. The
  reference for "where is the scan" is the tag sequence `Lex` gives every
  byte: Code, Quoted or Commented.
*/
module Scan {
  import opened Text
  import opened Utils

  /** The literal the scan is inside. The source keeps three flags
      (in_single, in_double, in_backtick); at most one of them is ever set. */
  datatype Quote = Plain | InSingle | InDouble | InBacktick

  /** What a scan makes of one byte. */
  datatype Tag = Code | Quoted | Commented

  predicate IsQuoteChar(c: char) {
    c == '\'' || c == '"' || c == '`'
  }

  /** The literal a quote character opens. */
  function Opened(c: char): Quote
    requires IsQuoteChar(c)
  {
    if c == '\'' then InSingle else if c == '"' then InDouble else InBacktick
  }

  /** The character that closes a literal. */
  function Closer(q: Quote): char
    requires q != Plain
  {
    match q
    case InSingle => '\''
    case InDouble => '"'
    case InBacktick => '`'
  }

  function Repeat(t: Tag, n: nat): (r: seq<Tag>)
    ensures |r| == n
    ensures forall k :: 0 <= k < n ==> r[k] == t
  {
    if n == 0 then [] else [t] + Repeat(t, n - 1)
  }

  /** The first '\n' at or after a, |s| when there is none. */
  function NewlineFrom(s: string, a: nat): (e: nat)
    requires a <= |s|
    ensures a <= e <= |s|
    ensures e < |s| ==> s[e] == '\n'
    decreases |s| - a
  {
    if a == |s| || s[a] == '\n' then a else NewlineFrom(s, a + 1)
  }

  /** No newline lies between a and NewlineFrom(s, a); the first one found
      from a is NewlineFrom(s, a). */
  lemma {:induction false} NewlineFromFirst(s: string, a: nat, e: nat)
    requires a <= e <= |s|
    requires forall k :: a <= k < e ==> s[k] != '\n'
    requires e < |s| ==> s[e] == '\n'
    ensures NewlineFrom(s, a) == e
    decreases |s| - a
  {
    if a < e {
      NewlineFromFirst(s, a + 1, e);
    }
  }

  /** No newline lies between a and NewlineFrom(s, a). */
  lemma {:induction false} NewlineFromSkips(s: string, a: nat)
    requires a <= |s|
    ensures forall k :: a <= k < NewlineFrom(s, a) ==> s[k] != '\n'
    decreases |s| - a
  {
    if a < |s| && s[a] != '\n' {
      NewlineFromSkips(s, a + 1);
    }
  }

  /** The first k at or after a with "*" "/" at k, |s| when there is none. */
  function CloseFrom(s: string, a: nat): (e: nat)
    requires a <= |s|
    ensures a <= e <= |s|
    ensures e < |s| ==> e + 1 < |s| && s[e] == '*' && s[e + 1] == '/'
    decreases |s| - a
  {
    if a + 1 >= |s| then |s|
    else if s[a] == '*' && s[a + 1] == '/' then a
    else CloseFrom(s, a + 1)
  }

  /** The first closer found from a is CloseFrom(s, a). */
  lemma {:induction false} CloseFromFirst(s: string, a: nat, e: nat)
    requires a <= e <= |s|
    requires forall k :: a <= k < e ==> !(k + 1 < |s| && s[k] == '*' && s[k + 1] == '/')
    requires e < |s| ==> e + 1 < |s| && s[e] == '*' && s[e + 1] == '/'
    requires e == |s| ==> a + 1 >= |s| || !(s[|s| - 2] == '*' && s[|s| - 1] == '/')
    ensures CloseFrom(s, a) == e
    decreases |s| - a
  {
    if a < e && a + 1 < |s| {
      CloseFromFirst(s, a + 1, e);
    }
  }

  function Min(a: int, b: int): int {
    if a <= b then a else b
  }

  /** One step of a scan: the kind of the bytes it consumes, where the next
      step starts, and the literal state after it. */
  datatype Move = Move(tag: Tag, next: nat, after: Quote)

  /** The step a scan in state q takes at byte i. With `comments`, a // comment
      consumes up to and including its newline and a block comment up to and
      including its closing star-slash; without, comment markers are ordinary
      bytes. Inside a literal a backslash consumes the byte after it too. */
  function Step(s: string, i: nat, q: Quote, comments: bool): (m: Move)
    requires i < |s|
    ensures m.next > i
  {
    if q == Plain && comments && s[i] == '/' && i + 1 < |s| && s[i + 1] == '/' then
      Move(Commented, NewlineFrom(s, i + 2) + 1, Plain)
    else if q == Plain && comments && s[i] == '/' && i + 1 < |s| && s[i + 1] == '*' then
      Move(Commented, CloseFrom(s, i + 2) + 2, Plain)
    else if q == Plain && IsQuoteChar(s[i]) then Move(Quoted, i + 1, Opened(s[i]))
    else if q == Plain then Move(Code, i + 1, Plain)
    else if s[i] == '\\' then Move(Quoted, i + 2, q)
    else if s[i] == Closer(q) then Move(Quoted, i + 1, Plain)
    else Move(Quoted, i + 1, q)
  }

  /** The kind of every byte of s[i..], for a scan that starts at i in state q. */
  function Lex(s: string, i: nat, q: Quote, comments: bool): (tags: seq<Tag>)
    ensures |tags| == if i <= |s| then |s| - i else 0
    decreases |s| - i
  {
    if i >= |s| then []
    else
      var m := Step(s, i, q, comments);
      Repeat(m.tag, Min(m.next, |s|) - i) + Lex(s, m.next, m.after, comments)
  }

  /** A scan from i is the step at i, repeated over the bytes it covers,
      followed by the scan from where the step ends. */
  lemma LexUnfold(s: string, i: nat, q: Quote, comments: bool)
    requires i < |s|
    ensures var m := Step(s, i, q, comments);
      Lex(s, i, q, comments) == Repeat(m.tag, Min(m.next, |s|) - i) + Lex(s, m.next, m.after, comments)
  {
  }

  /** Where a suffix of tags is a head followed by a rest: the entries of the
      head, and the rest as a later suffix. */
  lemma SuffixParts(tags: seq<Tag>, a: nat, head: seq<Tag>, rest: seq<Tag>)
    requires a <= |tags| && tags[a..] == head + rest
    ensures forall n :: a <= n < a + |head| ==> tags[n] == head[n - a]
    ensures tags[a + |head|..] == rest
  {
    forall n | a <= n < a + |head| ensures tags[n] == head[n - a] {
      assert tags[n] == tags[a..][n - a];
    }
    assert tags[a + |head|..] == tags[a..][|head|..];
  }

  /** The first byte of a scan from i has the kind of the step at i, and the
      scan goes on where that step ends. */
  lemma LexAt(s: string, from: nat, i: nat, q: Quote, comments: bool, tags: seq<Tag>)
    requires from <= i < |s| && |tags| == |s| - from
    requires Lex(s, i, q, comments) == tags[i - from..]
    ensures tags[i - from] == Step(s, i, q, comments).tag
    ensures var m := Step(s, i, q, comments); m.next <= |s| ==> Lex(s, m.next, m.after, comments) == tags[m.next - from..]
  {
    LexSuffix(s, from, i, q, comments, tags);
  }

  /** A suffix of a scan is the scan that starts where its step starts: with
      tags the scan from `from`, the step at i covers tags[i - from..] up to
      the step's end, and the scan goes on from there. */
  lemma LexSuffix(s: string, from: nat, i: nat, q: Quote, comments: bool, tags: seq<Tag>)
    requires from <= i < |s| && |tags| == |s| - from
    requires Lex(s, i, q, comments) == tags[i - from..]
    ensures forall n :: i - from <= n < Min(Step(s, i, q, comments).next, |s|) - from ==> tags[n] == Step(s, i, q, comments).tag
    ensures var m := Step(s, i, q, comments); m.next <= |s| ==> Lex(s, m.next, m.after, comments) == tags[m.next - from..]
  {
    var m := Step(s, i, q, comments);
    var head := Repeat(m.tag, Min(m.next, |s|) - i);
    LexUnfold(s, i, q, comments);
    SuffixParts(tags, i - from, head, Lex(s, m.next, m.after, comments));
  }

  // ---------------------------------------------------------------------
  // find_matching_brace_safe
  // ---------------------------------------------------------------------

  /** +1 for a code '{', -1 for a code '}', 0 for every other byte. */
  function BraceDelta(c: char, t: Tag): int {
    if t != Code then 0 else if c == '{' then 1 else if c == '}' then -1 else 0
  }

  /** The kinds the brace matcher gives to s[openPos..]. */
  function BraceTags(s: string, openPos: nat): (tags: seq<Tag>)
    requires openPos <= |s|
    ensures |tags| == |s| - openPos
  {
    Lex(s, openPos, Plain, true)
  }

  /** Net count of code braces among the first n bytes of s[from..], tags
      giving their kinds. */
  function Net(s: string, from: nat, tags: seq<Tag>, n: nat): int
    requires from + n <= |s| && n <= |tags|
  {
    if n == 0 then 0
    else Net(s, from, tags, n - 1) + BraceDelta(s[from + n - 1], tags[n - 1])
  }

  /** The brace depth once s[openPos..j] (inclusive) has been read. */
  function Depth(s: string, openPos: nat, j: nat): int
    requires openPos <= j < |s|
  {
    Net(s, openPos, BraceTags(s, openPos), j - openPos + 1)
  }

  /** j is where the depth first returns to zero. */
  predicate ClosesAt(s: string, openPos: nat, j: nat) {
    && openPos <= j < |s|
    && Depth(s, openPos, j) == 0
    && forall k :: openPos <= k < j ==> Depth(s, openPos, k) > 0
  }

  /** The depth never returns to zero before the end of s. */
  predicate NeverCloses(s: string, openPos: nat) {
    openPos <= |s| && forall k :: openPos <= k < |s| ==> Depth(s, openPos, k) > 0
  }

  /** The first position from j on where the depth is zero. */
  function FirstClose(s: string, openPos: nat, j: nat): Option<nat>
    requires openPos <= j <= |s|
    decreases |s| - j
  {
    if j == |s| then None
    else if Depth(s, openPos, j) == 0 then Some(j)
    else FirstClose(s, openPos, j + 1)
  }

  /** The position of the brace that closes the '{' at openPos, if any. */
  function MatchingBrace(s: string, openPos: nat): Option<nat> {
    if openPos < |s| && s[openPos] == '{' then FirstClose(s, openPos, openPos) else None
  }

  /** Bytes that are not code leave the depth where it was. */
  lemma {:induction false} QuietRun(s: string, from: nat, tags: seq<Tag>, a: nat, b: nat)
    requires 0 < a <= b <= |tags| && from + b <= |s|
    requires forall n :: a <= n < b ==> tags[n] != Code
    requires Net(s, from, tags, a) > 0
    ensures Net(s, from, tags, b) == Net(s, from, tags, a)
    ensures forall n :: a < n <= b ==> Net(s, from, tags, n) > 0
    decreases b - a
  {
    if a < b {
      QuietRun(s, from, tags, a, b - 1);
    }
  }

  /** What the brace matcher knows before it reads byte i in state q with
      depth d, tags being the kinds of s[openPos..]. */
  predicate Scanned(s: string, openPos: nat, tags: seq<Tag>, i: nat, q: Quote, d: int)
    requires openPos < |s| && |tags| == |s| - openPos
  {
    && openPos <= i <= |s| + 1
    && (i <= |s| ==> Lex(s, i, q, true) == tags[i - openPos..])
    && (i == openPos ==> q == Plain)
    && d == Net(s, openPos, tags, Min(i, |s|) - openPos)
    && (i > openPos ==> d > 0)
    && (forall n :: 0 < n <= Min(i, |s|) - openPos ==> Net(s, openPos, tags, n) > 0)
  }

  /** A step of the brace matcher over a code byte that does not return
      keeps what it knows. */
  lemma AdvanceCode(s: string, openPos: nat, tags: seq<Tag>, i0: nat, d0: int, d: int)
    requires openPos < |s| && s[openPos] == '{' && |tags| == |s| - openPos && i0 < |s|
    requires Scanned(s, openPos, tags, i0, Plain, d0)
    requires Step(s, i0, Plain, true) == Move(Code, i0 + 1, Plain)
    requires d == d0 + BraceDelta(s[i0], Code) && d != 0
    ensures Scanned(s, openPos, tags, i0 + 1, Plain, d)
  {
    LexAt(s, openPos, i0, Plain, true, tags);
    var n := i0 - openPos;
    assert Min(i0, |s|) == i0 && Min(i0 + 1, |s|) == i0 + 1;
    assert Net(s, openPos, tags, n + 1) == Net(s, openPos, tags, n) + BraceDelta(s[i0], Code);
    assert d > 0 by {
      if i0 == openPos {
        assert d0 == 0;
      }
    }
  }


  /** A step of the brace matcher over a comment or a literal keeps what it
      knows. */
  lemma AdvanceQuiet(s: string, openPos: nat, tags: seq<Tag>, i0: nat, q0: Quote, d0: int, m: Move, i: nat)
    requires openPos < |s| && |tags| == |s| - openPos && openPos < i0 < |s|
    requires Scanned(s, openPos, tags, i0, q0, d0)
    requires Step(s, i0, q0, true) == m && m.tag != Code
    requires i <= |s| + 1 && (i == m.next || (|s| <= i && m.next >= |s|))
    ensures Scanned(s, openPos, tags, i, m.after, d0)
  {
    var a, b := i0 - openPos, Min(m.next, |s|) - openPos;
    LexSuffix(s, openPos, i0, q0, true, tags);
    assert Min(i0, |s|) == i0;
    QuietRun(s, openPos, tags, a, b);
    assert Min(i, |s|) - openPos == b;
    if i <= |s| && i != m.next {
      assert tags[i - openPos..] == [];
    }
  }

  /** A step of the brace matcher at openPos reads the opening '{' as code. */
  lemma NotQuietAtOpen(s: string, openPos: nat, tags: seq<Tag>, i0: nat, q0: Quote, d0: int)
    requires openPos < |s| && s[openPos] == '{' && |tags| == |s| - openPos && i0 < |s|
    requires Scanned(s, openPos, tags, i0, q0, d0)
    requires Step(s, i0, q0, true).tag != Code
    ensures openPos < i0
  {
  }


  /** The inner loop that runs to the end of a // comment: the first '\n' at
      or after i among the first `end` bytes, `end` when there is none. */
  method SkipLine(s: string, i: nat, end: nat) returns (j: nat)
    requires i <= end <= |s|
    ensures j == NewlineFrom(s[..end], i)
  {
    j := i;
    while j < end && s[j] != '\n'
      invariant i <= j <= end
      invariant forall k :: i <= k < j ==> s[k] != '\n'
    {
      j := j + 1;
    }
    NewlineFromFirst(s[..end], i, j);
  }

  /** The inner loop that runs to the end of a block comment: the first j at
      or after i with a star-slash at j among the first `end` bytes; when
      there is none, the last of those bytes (or i, if that lies beyond). */
  method SkipBlock(s: string, i: nat, end: nat) returns (j: nat)
    requires i <= end <= |s|
    ensures j + 1 < end ==> j == CloseFrom(s[..end], i)
    ensures j + 1 >= end ==> CloseFrom(s[..end], i) == end
    ensures j + 1 >= end ==> j == (if i + 1 < end then end - 1 else i)
  {
    ghost var t := s[..end];
    j := i;
    while j + 1 < end && !(s[j] == '*' && s[j + 1] == '/')
      invariant i <= j <= end
      invariant i + 1 < end ==> j + 1 <= end
      invariant i + 1 >= end ==> j == i
      invariant forall k :: i <= k < j ==> !(k + 1 < |t| && t[k] == '*' && t[k + 1] == '/')
    {
      j := j + 1;
    }
    if j + 1 < end {
      CloseFromFirst(t, i, j);
    } else {
      CloseFromFirst(t, i, end);
    }
  }

  /** Before the first byte, nothing is known but the start. */
  lemma Start(s: string, openPos: nat)
    requires openPos < |s|
    ensures Scanned(s, openPos, BraceTags(s, openPos), openPos, Plain, 0)
  {
    assert BraceTags(s, openPos)[0..] == BraceTags(s, openPos);
  }

  /** A scan that reaches the end without the depth returning to zero. */
  lemma Finish(s: string, openPos: nat, i: nat, q: Quote, d: int)
    requires openPos < |s| <= i
    requires Scanned(s, openPos, BraceTags(s, openPos), i, q, d)
    ensures NeverCloses(s, openPos)
  {
  }

  /** A code byte: neither a quote nor the start of a comment, read outside
      literals. */
  predicate CodeByte(s: string, i: nat)
    requires i < |s|
  {
    !IsQuoteChar(s[i]) && !(s[i] == '/' && i + 1 < |s| && (s[i + 1] == '/' || s[i + 1] == '*'))
  }

  /** The brace matcher skipping a // comment up to and including its newline. */
  lemma BraceLine(s: string, openPos: nat, tags: seq<Tag>, i0: nat, d0: int, i: nat, q: Quote, d: int)
    requires openPos < |s| && s[openPos] == '{' && |tags| == |s| - openPos
    requires i0 + 1 < |s| && s[i0] == '/' && s[i0 + 1] == '/'
    requires Scanned(s, openPos, tags, i0, Plain, d0)
    requires i == NewlineFrom(s, i0 + 2) + 1 && q == Plain && d == d0
    ensures Scanned(s, openPos, tags, i, q, d)
  {
    var m := Move(Commented, i, Plain);
    assert Step(s, i0, Plain, true) == m;
    NotQuietAtOpen(s, openPos, tags, i0, Plain, d0);
    AdvanceQuiet(s, openPos, tags, i0, Plain, d0, m, i);
  }

  /** The brace matcher skipping a block comment: j is where its inner loop
      stopped, i where the scan resumes. */
  lemma BraceBlock(s: string, openPos: nat, tags: seq<Tag>, i0: nat, d0: int, j: nat, i: nat, q: Quote, d: int)
    requires openPos < |s| && s[openPos] == '{' && |tags| == |s| - openPos
    requires i0 + 1 < |s| && s[i0] == '/' && s[i0 + 1] == '*'
    requires Scanned(s, openPos, tags, i0, Plain, d0)
    requires j + 1 < |s| ==> j == CloseFrom(s, i0 + 2)
    requires j + 1 >= |s| ==> CloseFrom(s, i0 + 2) == |s| && j == (if i0 + 3 < |s| then |s| - 1 else i0 + 2)
    requires i == (if j + 1 < |s| then j + 2 else j + 1) && q == Plain && d == d0
    ensures Scanned(s, openPos, tags, i, q, d)
  {
    var m := Move(Commented, CloseFrom(s, i0 + 2) + 2, Plain);
    assert Step(s, i0, Plain, true) == m;
    NotQuietAtOpen(s, openPos, tags, i0, Plain, d0);
    AdvanceQuiet(s, openPos, tags, i0, Plain, d0, m, i);
  }

  /** The brace matcher opening a literal. */
  lemma BraceOpen(s: string, openPos: nat, tags: seq<Tag>, i0: nat, d0: int, i: nat, q: Quote, d: int)
    requires openPos < |s| && s[openPos] == '{' && |tags| == |s| - openPos && i0 < |s|
    requires IsQuoteChar(s[i0]) && Scanned(s, openPos, tags, i0, Plain, d0)
    requires i == i0 + 1 && q == Opened(s[i0]) && d == d0
    ensures Scanned(s, openPos, tags, i, q, d)
  {
    var m := Move(Quoted, i, q);
    assert Step(s, i0, Plain, true) == m;
    NotQuietAtOpen(s, openPos, tags, i0, Plain, d0);
    AdvanceQuiet(s, openPos, tags, i0, Plain, d0, m, i);
  }

  /** The brace matcher inside a literal: an escape, the closer or one byte. */
  lemma BraceInLiteral(s: string, openPos: nat, tags: seq<Tag>, i0: nat, q0: Quote, d0: int, i: nat, q: Quote)
    requires openPos < |s| && s[openPos] == '{' && |tags| == |s| - openPos && i0 < |s|
    requires q0 != Plain && Scanned(s, openPos, tags, i0, q0, d0)
    requires s[i0] == '\\' ==> i == i0 + 2 && q == q0
    requires s[i0] != '\\' && s[i0] == Closer(q0) ==> i == i0 + 1 && q == Plain
    requires s[i0] != '\\' && s[i0] != Closer(q0) ==> i == i0 + 1 && q == q0
    ensures Scanned(s, openPos, tags, i, q, d0)
  {
    var m := Move(Quoted, i, q);
    assert Step(s, i0, q0, true) == m;
    NotQuietAtOpen(s, openPos, tags, i0, q0, d0);
    AdvanceQuiet(s, openPos, tags, i0, q0, d0, m, i);
  }

  /** The brace matcher reading a code byte whose depth stays positive. */
  lemma BraceCode(s: string, openPos: nat, tags: seq<Tag>, i0: nat, d0: int, i: nat, q: Quote, d: int)
    requires openPos < |s| && s[openPos] == '{' && |tags| == |s| - openPos && i0 < |s|
    requires CodeByte(s, i0) && Scanned(s, openPos, tags, i0, Plain, d0)
    requires d == d0 + BraceDelta(s[i0], Code) && d != 0 && i == i0 + 1 && q == Plain
    ensures Scanned(s, openPos, tags, i, q, d)
  {
    assert Step(s, i0, Plain, true) == Move(Code, i0 + 1, Plain);
    AdvanceCode(s, openPos, tags, i0, d0, d);
  }

  /** A code '}' that brings the depth to zero is the matching brace. */
  lemma Closing(s: string, openPos: nat, i: nat, d0: int)
    requires openPos < |s| && i < |s|
    requires CodeByte(s, i) && Scanned(s, openPos, BraceTags(s, openPos), i, Plain, d0)
    requires d0 + BraceDelta(s[i], Code) == 0
    ensures ClosesAt(s, openPos, i)
  {
    var tags := BraceTags(s, openPos);
    assert Step(s, i, Plain, true) == Move(Code, i + 1, Plain);
    LexAt(s, openPos, i, Plain, true, tags);
  }

  /** find_matching_brace_safe: from the '{' at openPos, tracks the nesting
      depth of the braces that lie outside literals and comments and returns
      where it first returns to zero; None (npos) when openPos does not hold
      a '{' or the depth never returns to zero. The source tests the three
      literal kinds one after another (opening quote, then inside-literal
      handling, for ', " and ` in turn); as at most one literal is open at a
      time, the two quote branches below take the same steps. */
  method FindMatchingBrace(s: string, openPos: nat) returns (r: Option<nat>)
    ensures openPos >= |s| || s[openPos] != '{' ==> r == None
    ensures r.Some? ==> ClosesAt(s, openPos, r.value)
    ensures openPos < |s| && s[openPos] == '{' && r == None ==> NeverCloses(s, openPos)
  {
    if openPos >= |s| || s[openPos] != '{' {
      return None;
    }
    var depth := 0;
    var q := Plain;
    var i := openPos;
    ghost var tags := BraceTags(s, openPos);
    Start(s, openPos);
    assert s[..|s|] == s;
    while i < |s|
      invariant Scanned(s, openPos, tags, i, q, depth)
      decreases |s| + 1 - i
    {
      var c := s[i];
      ghost var i0, q0, d0 := i, q, depth;
      if q == Plain && c == '/' && i + 1 < |s| && s[i + 1] == '/' {
        i := SkipLine(s, i + 2, |s|);
        i := i + 1;
        BraceLine(s, openPos, tags, i0, d0, i, q, depth);
      } else if q == Plain && c == '/' && i + 1 < |s| && s[i + 1] == '*' {
        var j := SkipBlock(s, i + 2, |s|);
        i := j;
        if i + 1 < |s| {
          i := i + 1;
        }
        i := i + 1;
        BraceBlock(s, openPos, tags, i0, d0, j, i, q, depth);
      } else if q == Plain && IsQuoteChar(c) {
        q := Opened(c);
        i := i + 1;
        BraceOpen(s, openPos, tags, i0, d0, i, q, depth);
      } else if q != Plain {
        if c == '\\' {
          i := i + 2;
        } else {
          if c == Closer(q) {
            q := Plain;
          }
          i := i + 1;
        }
        BraceInLiteral(s, openPos, tags, i0, q0, depth, i, q);
      } else {
        if c == '{' {
          depth := depth + 1;
        } else if c == '}' {
          depth := depth - 1;
          if depth == 0 {
            Closing(s, openPos, i, d0);
            return Some(i);
          }
        }
        i := i + 1;
        BraceCode(s, openPos, tags, i0, d0, i, q, depth);
      }
    }
    Finish(s, openPos, i, q, depth);
    return None;
  }

  /** The byte at openPos is a code byte when it holds '{'. */
  lemma OpeningIsCode(s: string, openPos: nat)
    requires openPos < |s| && s[openPos] == '{'
    ensures Depth(s, openPos, openPos) == 1
  {
    var tags := BraceTags(s, openPos);
    assert tags[0..] == tags;
    LexAt(s, openPos, openPos, Plain, true, tags);
    assert tags[0] == Code;
    assert Net(s, openPos, tags, 1) == Net(s, openPos, tags, 0) + BraceDelta(s[openPos], tags[0]);
  }

  /** The matching brace lies strictly after the opening one and is a '}'
      that is code: neither inside a literal nor inside a comment. */
  lemma ClosingIsCodeBrace(s: string, openPos: nat, j: nat)
    requires openPos < |s| && s[openPos] == '{'
    requires ClosesAt(s, openPos, j)
    ensures openPos < j && s[j] == '}'
    ensures BraceTags(s, openPos)[j - openPos] == Code
  {
    OpeningIsCode(s, openPos);
    assert Depth(s, openPos, j - 1) > 0;
  }

  /** FirstClose finds the first zero of the depth at or after j. */
  lemma {:induction false} FirstCloseFinds(s: string, openPos: nat, j: nat)
    requires openPos <= j <= |s| && openPos < |s| && s[openPos] == '{'
    requires forall k :: openPos <= k < j ==> Depth(s, openPos, k) > 0
    ensures FirstClose(s, openPos, j).Some? ==> ClosesAt(s, openPos, FirstClose(s, openPos, j).value)
    ensures FirstClose(s, openPos, j).None? ==> NeverCloses(s, openPos)
    decreases |s| - j
  {
    if j < |s| && Depth(s, openPos, j) != 0 {
      OpeningOrAfter(s, openPos, j);
      FirstCloseFinds(s, openPos, j + 1);
    }
  }

  /** Before the first zero, the depth is positive: it starts at 1 and moves
      by at most one per byte. */
  lemma OpeningOrAfter(s: string, openPos: nat, j: nat)
    requires openPos <= j < |s|
    requires forall k :: openPos <= k < j ==> Depth(s, openPos, k) > 0
    requires s[openPos] == '{'
    requires Depth(s, openPos, j) != 0
    ensures Depth(s, openPos, j) > 0
  {
    if j == openPos {
      OpeningIsCode(s, openPos);
    } else {
      assert Depth(s, openPos, j - 1) > 0;
    }
  }

  /** The method and the function agree: whatever FindMatchingBrace returns
      is MatchingBrace. */
  lemma MatchingBraceDetermined(s: string, openPos: nat, r: Option<nat>)
    requires openPos >= |s| || s[openPos] != '{' ==> r == None
    requires r.Some? ==> ClosesAt(s, openPos, r.value)
    requires openPos < |s| && s[openPos] == '{' && r == None ==> NeverCloses(s, openPos)
    ensures r == MatchingBrace(s, openPos)
  {
    if openPos < |s| && s[openPos] == '{' {
      FirstCloseFinds(s, openPos, openPos);
    }
  }

  // ---------------------------------------------------------------------
  // find_outside_quotes
  // ---------------------------------------------------------------------

  /** The kinds find_outside_quotes gives to the bytes of line: it tracks
      literals but not comments. */
  function QuoteTags(line: string): seq<Tag> {
    Lex(line, 0, Plain, false)
  }

  /** pat occurs at k, and tags (the kinds of the bytes of line) say the
      byte at k is code. */
  predicate MatchAt(line: string, pat: string, tags: seq<Tag>, k: nat)
    requires |tags| == |line|
  {
    && k < |line|
    && k + |pat| <= |line|
    && tags[k] == Code
    && line[k..k + |pat|] == pat
  }

  /** pat occurs at k, and the scan is outside every literal there. */
  predicate OutsideQuotesAt(line: string, pat: string, k: nat) {
    MatchAt(line, pat, QuoteTags(line), k)
  }

  /** What find_outside_quotes knows before it reads byte i in state q,
      tags being the kinds of the bytes of line. */
  predicate Searched(line: string, pat: string, tags: seq<Tag>, i: nat, q: Quote)
    requires |tags| == |line|
  {
    && i <= |line| + 1
    && (i <= |line| ==> Lex(line, i, q, false) == tags[i..])
    && forall k :: 0 <= k < Min(i, |line|) ==> !MatchAt(line, pat, tags, k)
  }

  /** A step over a literal byte finds nothing. */
  lemma SearchQuiet(line: string, pat: string, tags: seq<Tag>, i0: nat, q0: Quote)
    requires |tags| == |line| && i0 < |line| && Searched(line, pat, tags, i0, q0)
    requires Step(line, i0, q0, false).tag != Code
    ensures var m := Step(line, i0, q0, false); m.next <= |line| + 1 ==> Searched(line, pat, tags, m.next, m.after)
  {
    var m := Step(line, i0, q0, false);
    LexSuffix(line, 0, i0, q0, false, tags);
    forall k | i0 <= k < Min(m.next, |line|) ensures !MatchAt(line, pat, tags, k) {
      assert tags[k] != Code;
    }
  }

  /** find_outside_quotes opening a literal finds nothing. */
  lemma SearchOpen(line: string, pat: string, tags: seq<Tag>, i0: nat)
    requires |tags| == |line| && i0 < |line| && Searched(line, pat, tags, i0, Plain)
    requires IsQuoteChar(line[i0])
    ensures Searched(line, pat, tags, i0 + 1, Opened(line[i0]))
  {
    assert Step(line, i0, Plain, false) == Move(Quoted, i0 + 1, Opened(line[i0]));
    SearchQuiet(line, pat, tags, i0, Plain);
  }

  /** find_outside_quotes inside a literal steps over an escape, the closer
      or one byte, and finds nothing. */
  lemma SearchInLiteral(line: string, pat: string, tags: seq<Tag>, i0: nat, q0: Quote, i: nat, q: Quote)
    requires |tags| == |line| && i0 < |line| && q0 != Plain && Searched(line, pat, tags, i0, q0)
    requires line[i0] == '\\' ==> i == i0 + 2 && q == q0
    requires line[i0] != '\\' && line[i0] == Closer(q0) ==> i == i0 + 1 && q == Plain
    requires line[i0] != '\\' && line[i0] != Closer(q0) ==> i == i0 + 1 && q == q0
    ensures i <= |line| + 1 ==> Searched(line, pat, tags, i, q)
  {
    assert Step(line, i0, q0, false) == Move(Quoted, i, q);
    SearchQuiet(line, pat, tags, i0, q0);
  }

  /** A code byte where pat does not occur finds nothing. */
  lemma SearchCode(line: string, pat: string, tags: seq<Tag>, i0: nat)
    requires |tags| == |line| && i0 < |line| && Searched(line, pat, tags, i0, Plain)
    requires !IsQuoteChar(line[i0])
    ensures tags[i0] == Code
    ensures !MatchAt(line, pat, tags, i0) ==> Searched(line, pat, tags, i0 + 1, Plain)
  {
    assert Step(line, i0, Plain, false) == Move(Code, i0 + 1, Plain);
    LexAt(line, 0, i0, Plain, false, tags);
    assert Min(i0 + 1, |line|) == i0 + 1;
    assert Min(i0, |line|) == i0;
  }

  /** Once pat no longer fits, there is no match anywhere. */
  lemma SearchDone(line: string, pat: string, i: nat, q: Quote)
    requires Searched(line, pat, QuoteTags(line), i, q) && |line| < i + |pat|
    ensures forall k :: 0 <= k <= |line| ==> !OutsideQuotesAt(line, pat, k)
  {
  }

  /** find_outside_quotes: the first position where pat occurs outside
      '...', "..." and `...` literals (a backslash in a literal skipping the
      byte after it); None (npos) when pat is empty or there is none. */
  method FindOutsideQuotes(line: string, pat: string) returns (r: Option<nat>)
    ensures pat == [] ==> r == None
    ensures r.Some? ==> OutsideQuotesAt(line, pat, r.value)
    ensures r.Some? ==> forall k :: 0 <= k < r.value ==> !OutsideQuotesAt(line, pat, k)
    ensures pat != [] && r == None ==> forall k :: 0 <= k <= |line| ==> !OutsideQuotesAt(line, pat, k)
  {
    if pat == [] {
      return None;
    }
    ghost var tags := QuoteTags(line);
    var q := Plain;
    var i := 0;
    assert tags[0..] == tags;
    while i + |pat| <= |line|
      invariant Searched(line, pat, tags, i, q)
      decreases |line| + 1 - i
    {
      var c := line[i];
      ghost var i0, q0 := i, q;
      if q == Plain && IsQuoteChar(c) {
        SearchOpen(line, pat, tags, i0);
        q := Opened(c);
        i := i + 1;
      } else if q != Plain {
        if c == '\\' {
          i := i + 2;
        } else {
          if c == Closer(q) {
            q := Plain;
          }
          i := i + 1;
        }
        SearchInLiteral(line, pat, tags, i0, q0, i, q);
      } else {
        SearchCode(line, pat, tags, i0);
        if line[i..i + |pat|] == pat {
          return Some(i);
        }
        i := i + 1;
      }
    }
    SearchDone(line, pat, i, q);
    return None;
  }



  /** In a line without quote characters every byte is code. */
  lemma {:induction false} NoQuotesAllCode(line: string, i: nat)
    requires i <= |line|
    requires forall k :: 0 <= k < |line| ==> !IsQuoteChar(line[k])
    ensures forall n :: 0 <= n < |line| - i ==> Lex(line, i, Plain, false)[n] == Code
    decreases |line| - i
  {
    if i < |line| {
      NoQuotesAllCode(line, i + 1);
      assert Lex(line, i, Plain, false) == [Code] + Lex(line, i + 1, Plain, false);
    }
  }

  /** Without quote characters, find_outside_quotes is a plain find. */
  lemma NoQuotesPlainFind(line: string, pat: string, k: nat)
    requires forall m :: 0 <= m < |line| ==> !IsQuoteChar(line[m])
    ensures OutsideQuotesAt(line, pat, k) <==> k < |line| && k + |pat| <= |line| && line[k..k + |pat|] == pat
  {
    NoQuotesAllCode(line, 0);
  }

  // ---------------------------------------------------------------------
  // collect_comments_in_range
  // ---------------------------------------------------------------------

  /** Where the collector resumes after the block comment opening at i: just
      past the closing star-slash, or, when there is none, at the last byte
      (never before i + 2). */
  function BlockEnd(t: string, i: nat): (j: nat)
    requires i + 1 < |t|
    ensures i + 2 <= j <= |t|
  {
    var e := CloseFrom(t, i + 2);
    if e < |t| then e + 2 else if i + 2 < |t| - 1 then |t| - 1 else i + 2
  }

  /** One step of the comment collector: the bytes of the comment it
      collects, if any (untrimmed), where the next step starts, and the
      literal state after it. */
  datatype Collected = Collected(found: seq<string>, next: nat, after: Quote)

  /** The step the collector takes at byte i in state q. A // comment runs up
      to (not including) its newline, which the next step reads. */
  function CollectStep(t: string, i: nat, q: Quote): (c: Collected)
    requires i < |t|
    ensures c.next > i
  {
    if q != Plain then
      if t[i] == '\\' then Collected([], i + 2, q)
      else if t[i] == Closer(q) then Collected([], i + 1, Plain)
      else Collected([], i + 1, q)
    else if t[i] == '/' && i + 1 < |t| && t[i + 1] == '/' then
      var j := NewlineFrom(t, i + 2);
      Collected([t[i..j]], j, Plain)
    else if t[i] == '/' && i + 1 < |t| && t[i + 1] == '*' then
      var j := BlockEnd(t, i);
      Collected([t[i..j]], j, Plain)
    else if IsQuoteChar(t[i]) then Collected([], i + 1, Opened(t[i]))
    else Collected([], i + 1, Plain)
  }

  /** The comments (untrimmed) the collector finds in t[i..], scanning in state q. */
  function CommentsFrom(t: string, i: nat, q: Quote): seq<string>
    decreases |t| - i
  {
    if i >= |t| then []
    else
      var c := CollectStep(t, i, q);
      c.found + CommentsFrom(t, c.next, c.after)
  }

  /** What collect_comments_in_range returns for s[start..end]: the comments,
      trimmed and joined by newlines, "" when there are none. */
  function CommentsInRange(s: string, start: nat, end: nat): string
    requires end <= |s|
  {
    Join(TrimAll(CommentsFrom(s[..end], start, Plain)), "\n")
  }

  /** What the collector knows before it reads byte i in state q, `found`
      being the comments met so far. */
  predicate Collecting(t: string, start: nat, found: seq<string>, i: nat, q: Quote) {
    found + CommentsFrom(t, i, q) == CommentsFrom(t, start, Plain)
  }

  /** A collector step keeps what it knows. */
  lemma CollectAdvance(t: string, start: nat, found0: seq<string>, i0: nat, q0: Quote, found: seq<string>, i: nat, q: Quote)
    requires i0 < |t| && Collecting(t, start, found0, i0, q0)
    requires CollectStep(t, i0, q0) == Collected(found, i, q)
    ensures Collecting(t, start, found0 + found, i, q)
  {
    assert CommentsFrom(t, i0, q0) == found + CommentsFrom(t, i, q);
    AppendAssoc(found0, found, CommentsFrom(t, i, q));
  }

  /** A step that finds nothing leaves the comments found from it unchanged. */
  lemma QuietComments(t: string, i0: nat, q0: Quote, i: nat, q: Quote)
    requires i0 < |t| && CollectStep(t, i0, q0) == Collected([], i, q)
    ensures CommentsFrom(t, i0, q0) == CommentsFrom(t, i, q)
  {
    var rest := CommentsFrom(t, i, q);
    assert CommentsFrom(t, i0, q0) == [] + rest;
    assert [] + rest == rest;
  }

  /** Inside a literal the collector steps over an escape, a closer or one
      byte, and keeps what it knows. */
  lemma QuotedAdvance(s: string, end: nat, start: nat, found: seq<string>, i0: nat, q0: Quote, i: nat, q: Quote)
    requires i0 < end <= |s| && q0 != Plain && Collecting(s[..end], start, found, i0, q0)
    requires s[i0] == '\\' ==> i == i0 + 2 && q == q0
    requires s[i0] != '\\' && s[i0] == Closer(q0) ==> i == i0 + 1 && q == Plain
    requires s[i0] != '\\' && s[i0] != Closer(q0) ==> i == i0 + 1 && q == q0
    ensures Collecting(s[..end], start, found, i, q)
  {
    QuietComments(s[..end], i0, q0, i, q);
  }

  /** Outside literals and comment openers the collector opens a literal or
      steps one byte, and keeps what it knows. */
  lemma CodeAdvance(s: string, end: nat, start: nat, found: seq<string>, i0: nat, q0: Quote, i: nat, q: Quote)
    requires i0 < end <= |s| && q0 == Plain && Collecting(s[..end], start, found, i0, q0)
    requires !(s[i0] == '/' && i0 + 1 < end && (s[i0 + 1] == '/' || s[i0 + 1] == '*'))
    requires i == i0 + 1 && q == (if IsQuoteChar(s[i0]) then Opened(s[i0]) else Plain)
    ensures Collecting(s[..end], start, found, i, q)
  {
    QuietComments(s[..end], i0, Plain, i, q);
  }

  /** A line comment contributes its bytes up to the newline, where the scan
      resumes. */
  lemma LineAdvance(s: string, end: nat, start: nat, found0: seq<string>, i0: nat, q0: Quote, found: seq<string>, i: nat, q: Quote)
    requires i0 + 1 < end <= |s| && s[i0] == '/' && s[i0 + 1] == '/'
    requires q0 == Plain && Collecting(s[..end], start, found0, i0, q0)
    requires i == NewlineFrom(s[..end], i0 + 2) && found == found0 + [s[i0..i]] && q == Plain
    ensures Collecting(s[..end], start, found, i, q)
  {
    assert s[..end][i0..i] == s[i0..i];
    CollectAdvance(s[..end], start, found0, i0, Plain, [s[i0..i]], i, Plain);
  }

  /** A block comment contributes its bytes and the scan resumes after the
      closer; j is where the inner loop stopped. */
  lemma BlockAdvance(s: string, end: nat, start: nat, found0: seq<string>, i0: nat, q0: Quote, j: nat, found: seq<string>, i: nat, q: Quote)
    requires i0 + 1 < end <= |s| && s[i0] == '/' && s[i0 + 1] == '*'
    requires q0 == Plain && Collecting(s[..end], start, found0, i0, q0)
    requires j + 1 < end ==> j == CloseFrom(s[..end], i0 + 2)
    requires j + 1 >= end ==> CloseFrom(s[..end], i0 + 2) == end && j == (if i0 + 3 < end then end - 1 else i0 + 2)
    requires i == (if j + 1 < end then j + 2 else j) && found == found0 + [s[i0..Min(i, end)]] && q == Plain
    ensures Collecting(s[..end], start, found, i, q)
  {
    assert i == BlockEnd(s[..end], i0);
    assert s[..end][i0..i] == s[i0..Min(i, end)];
    CollectAdvance(s[..end], start, found0, i0, Plain, [s[i0..Min(i, end)]], i, Plain);
  }

  /** collect_comments_in_range: scans s[start..end] from outside any literal
      and collects every // and block comment it meets outside literals,
      trimmed, joined by newlines. */
  method CollectCommentsInRange(s: string, start: nat, end: nat) returns (r: string)
    requires end <= |s|
    ensures r == CommentsInRange(s, start, end)
  {
    var comments: seq<string> := [];
    ghost var found: seq<string> := [];
    var q := Plain;
    var i := start;
    while i < end
      invariant Collecting(s[..end], start, found, i, q)
      invariant comments == TrimAll(found)
      decreases end - i
    {
      var c := s[i];
      ghost var i0, q0, found0 := i, q, found;
      if q != Plain {
        if c == '\\' {
          i := i + 2;
        } else if c == Closer(q) {
          q := Plain;
          i := i + 1;
        } else {
          i := i + 1;
        }
        QuotedAdvance(s, end, start, found, i0, q0, i, q);
      } else if c == '/' && i + 1 < end && s[i + 1] == '/' {
        var j := SkipLine(s, i + 2, end);
        TrimAllSnoc(found, s[i..j]);
        comments := comments + [Trim(s[i..j])];
        found := found + [s[i..j]];
        i := j;
        LineAdvance(s, end, start, found0, i0, q0, found, i, q);
      } else if c == '/' && i + 1 < end && s[i + 1] == '*' {
        var j := SkipBlock(s, i + 2, end);
        ghost var j0 := j;
        if j + 1 < end {
          j := j + 2;
        }
        TrimAllSnoc(found, s[i..Min(j, end)]);
        comments := comments + [Trim(s[i..Min(j, end)])];
        found := found + [s[i..Min(j, end)]];
        i := j;
        BlockAdvance(s, end, start, found0, i0, q0, j0, found, i, q);
      } else if IsQuoteChar(c) {
        q := Opened(c);
        i := i + 1;
        CodeAdvance(s, end, start, found, i0, q0, i, q);
      } else {
        i := i + 1;
        CodeAdvance(s, end, start, found, i0, q0, i, q);
      }
    }
    assert found == CommentsFrom(s[..end], start, Plain);
    if comments == [] {
      return "";
    }
    r := Join(comments, "\n");
  }


  /** The bytes of a collected comment: they start with "//" or with the
      block opener, and a // comment never spans a newline. */
  predicate CommentBytes(e: string) {
    |e| >= 2 && (e[..2] == "//" || e[..2] == "/*") && (e[..2] == "//" ==> '\n' !in e)
  }

  /** A returned comment is trimmed and starts with "//" or with the block
      opener; a // comment never spans a newline. */
  predicate WellFormedComment(e: string) {
    IsTrimmed(e) && |e| >= 2 && (e[..2] == "//" || e[..2] == "/*") && (e[..2] == "//" ==> '\n' !in e)
  }

  lemma StepComments(t: string, i: nat, q: Quote)
    requires i < |t|
    ensures forall e :: e in CollectStep(t, i, q).found ==> CommentBytes(e)
  {
    var c := CollectStep(t, i, q);
    if q == Plain && t[i] == '/' && i + 1 < |t| && t[i + 1] == '/' {
      LineCommentBytes(t, i);
      assert c.found == [t[i..NewlineFrom(t, i + 2)]];
    } else if q == Plain && t[i] == '/' && i + 1 < |t| && t[i + 1] == '*' {
      BlockCommentBytes(t, i);
      assert c.found == [t[i..BlockEnd(t, i)]];
    } else {
      assert c.found == [];
    }
  }

  /** The bytes of a // comment: its opener, and no newline. */
  lemma LineCommentBytes(t: string, i: nat)
    requires i + 1 < |t| && t[i] == '/' && t[i + 1] == '/'
    ensures CommentBytes(t[i..NewlineFrom(t, i + 2)])
  {
    var e := t[i..NewlineFrom(t, i + 2)];
    NewlineFromSkips(t, i + 2);
    assert e[..2] == "//";
    assert forall k :: 0 <= k < |e| ==> e[k] == t[i + k];
  }

  /** The bytes of a block comment start with its opener. */
  lemma BlockCommentBytes(t: string, i: nat)
    requires i + 1 < |t| && t[i] == '/' && t[i + 1] == '*'
    ensures CommentBytes(t[i..BlockEnd(t, i)])
  {
    var e := t[i..BlockEnd(t, i)];
    assert e[..2] == "/*";
  }

  /** Every comment the collector finds starts with a comment opener. */
  lemma {:induction false} CommentsFromBytes(t: string, i: nat, q: Quote)
    ensures forall k :: 0 <= k < |CommentsFrom(t, i, q)| ==> CommentBytes(CommentsFrom(t, i, q)[k])
    decreases |t| - i
  {
    if i < |t| {
      var c := CollectStep(t, i, q);
      StepComments(t, i, q);
      CommentsFromBytes(t, c.next, c.after);
      assert CommentsFrom(t, i, q) == c.found + CommentsFrom(t, c.next, c.after);
    }
  }

  /** Trimming the bytes of a comment gives a well-formed entry. */
  lemma TrimComment(e: string)
    requires CommentBytes(e)
    ensures WellFormedComment(Trim(e))
  {
    TrimKeepsPrefix(e);
    TrimChars(e);
  }

  /** Every entry collect_comments_in_range joins is trimmed and starts with
      "//" or with the block opener. */
  lemma CommentsWellFormed(t: string, i: nat, q: Quote)
    ensures forall k :: 0 <= k < |CommentsFrom(t, i, q)| ==> WellFormedComment(TrimAll(CommentsFrom(t, i, q))[k])
  {
    var xs := CommentsFrom(t, i, q);
    CommentsFromBytes(t, i, q);
    forall k | 0 <= k < |xs| ensures WellFormedComment(TrimAll(xs)[k]) {
      TrimComment(xs[k]);
    }
  }

  /** Two buffers of the same length that agree from start on. */
  predicate AgreeFrom(t1: string, t2: string, start: nat) {
    |t1| == |t2| && forall k :: start <= k < |t1| ==> t1[k] == t2[k]
  }

  /** NewlineFrom only looks at the bytes from a on. */
  lemma {:induction false} NewlineFromAgree(t1: string, t2: string, start: nat, a: nat)
    requires AgreeFrom(t1, t2, start) && start <= a <= |t1|
    ensures NewlineFrom(t1, a) == NewlineFrom(t2, a)
    decreases |t1| - a
  {
    if a < |t1| && t1[a] != '\n' {
      NewlineFromAgree(t1, t2, start, a + 1);
    }
  }

  /** CloseFrom only looks at the bytes from a on. */
  lemma {:induction false} CloseFromAgree(t1: string, t2: string, start: nat, a: nat)
    requires AgreeFrom(t1, t2, start) && start <= a <= |t1|
    ensures CloseFrom(t1, a) == CloseFrom(t2, a)
    decreases |t1| - a
  {
    if a + 1 < |t1| && !(t1[a] == '*' && t1[a + 1] == '/') {
      CloseFromAgree(t1, t2, start, a + 1);
    }
  }

  /** A // comment only looks at the bytes from its opener on. */
  lemma LineAgree(t1: string, t2: string, start: nat, i: nat)
    requires AgreeFrom(t1, t2, start) && start <= i && i + 1 < |t1|
    requires t1[i] == '/' && t1[i + 1] == '/'
    ensures CollectStep(t1, i, Plain) == CollectStep(t2, i, Plain)
  {
    NewlineFromAgree(t1, t2, start, i + 2);
    var j := NewlineFrom(t1, i + 2);
    assert t1[i..j] == t2[i..j];
  }

  /** A block comment only looks at the bytes from its opener on. */
  lemma BlockAgree(t1: string, t2: string, start: nat, i: nat)
    requires AgreeFrom(t1, t2, start) && start <= i && i + 1 < |t1|
    requires t1[i] == '/' && t1[i + 1] == '*'
    ensures CollectStep(t1, i, Plain) == CollectStep(t2, i, Plain)
  {
    CloseFromAgree(t1, t2, start, i + 2);
    var j := BlockEnd(t1, i);
    assert BlockEnd(t2, i) == j;
    assert t1[i..j] == t2[i..j];
  }

  /** A collector step only looks at the bytes from start on. */
  lemma StepAgree(t1: string, t2: string, start: nat, i: nat, q: Quote)
    requires AgreeFrom(t1, t2, start) && start <= i < |t1|
    ensures CollectStep(t1, i, q) == CollectStep(t2, i, q)
  {
    assert t1[i] == t2[i];
    assert i + 1 < |t1| ==> t1[i + 1] == t2[i + 1];
    if q == Plain && t1[i] == '/' && i + 1 < |t1| && t1[i + 1] == '/' {
      LineAgree(t1, t2, start, i);
    } else if q == Plain && t1[i] == '/' && i + 1 < |t1| && t1[i + 1] == '*' {
      BlockAgree(t1, t2, start, i);
    }
  }

  /** The comments found from i depend only on the bytes from start on. */
  lemma {:induction false} CommentsFromAgree(t1: string, t2: string, start: nat, i: nat, q: Quote)
    requires AgreeFrom(t1, t2, start) && start <= i
    ensures CommentsFrom(t1, i, q) == CommentsFrom(t2, i, q)
    decreases |t1| - i
  {
    if i < |t1| {
      var c := CollectStep(t1, i, q);
      StepAgree(t1, t2, start, i, q);
      CommentsFromAgree(t1, t2, start, c.next, c.after);
      assert CommentsFrom(t1, i, q) == c.found + CommentsFrom(t1, c.next, c.after);
      assert CommentsFrom(t2, i, q) == c.found + CommentsFrom(t2, c.next, c.after);
    }
  }

  /** collect_comments_in_range reads only s[start..end]: two buffers that
      agree there give the same result. */
  lemma CommentsReadOnlyRange(s1: string, s2: string, start: nat, end: nat)
    requires start <= end <= |s1| && end <= |s2|
    requires s1[start..end] == s2[start..end]
    ensures CommentsInRange(s1, start, end) == CommentsInRange(s2, start, end)
  {
    forall k | start <= k < end ensures s1[..end][k] == s2[..end][k] {
      assert s1[k] == s1[start..end][k - start];
    }
    CommentsFromAgree(s1[..end], s2[..end], start, start, Plain);
  }

  /** t[i..e] is the inside of a literal closed by Closer(q): bytes other
      than a backslash and the closing quote, and backslashes each taking the
      byte after them along, whatever that byte is. */
  predicate LiteralBody(t: string, i: nat, e: nat, q: Quote)
    requires q != Plain
    decreases e - i
  {
    if e <= i then i == e
    else if |t| < e then false
    else if t[i] == '\\' then i + 2 <= e && LiteralBody(t, i + 2, e, q)
    else t[i] != Closer(q) && LiteralBody(t, i + 1, e, q)
  }

  /** Nothing inside a literal is collected: a literal whose inside runs
      from i to its closing quote at e, escapes included, is skipped whole. */
  lemma {:induction false} LiteralSkipped(t: string, i: nat, q: Quote, e: nat)
    requires q != Plain && i <= e < |t| && t[e] == Closer(q)
    requires LiteralBody(t, i, e, q)
    ensures CommentsFrom(t, i, q) == CommentsFrom(t, e + 1, Plain)
    decreases e - i
  {
    if i == e {
      QuotedClose(t, i, q);
    } else if t[i] == '\\' {
      QuotedEscape(t, i, q);
      LiteralSkipped(t, i + 2, q, e);
    } else {
      QuotedInside(t, i, q);
      LiteralSkipped(t, i + 1, q, e);
    }
  }

  /** Inside a literal, a backslash skips itself and the byte after it. */
  lemma QuotedEscape(t: string, i: nat, q: Quote)
    requires q != Plain && i < |t| && t[i] == '\\'
    ensures CommentsFrom(t, i, q) == CommentsFrom(t, i + 2, q)
  {
    QuietComments(t, i, q, i + 2, q);
  }

  /** An escaped quote does not end a literal: in `"a\"//b"` the // is
      inside the string and nothing is collected. */
  lemma EscapedQuoteNotCollected()
    ensures CommentsInRange("\"a\\\"//b\"", 0, 8) == ""
  {
    var t := "\"a\\\"//b\"";
    assert t[..8] == t;
    assert LiteralBody(t, 7, 7, InDouble);
    assert LiteralBody(t, 6, 7, InDouble);
    assert LiteralBody(t, 5, 7, InDouble);
    assert LiteralBody(t, 4, 7, InDouble);
    assert LiteralBody(t, 2, 7, InDouble);
    assert LiteralBody(t, 1, 7, InDouble);
    QuietComments(t, 0, Plain, 1, InDouble);
    LiteralSkipped(t, 1, InDouble, 7);
    assert CommentsFrom(t, 8, Plain) == [];
  }

  /** Inside a literal, a byte that is neither a backslash nor the closing
      quote is skipped. */
  lemma QuotedInside(t: string, i: nat, q: Quote)
    requires q != Plain && i < |t| && t[i] != '\\' && t[i] != Closer(q)
    ensures CommentsFrom(t, i, q) == CommentsFrom(t, i + 1, q)
  {
    QuietComments(t, i, q, i + 1, q);
  }

  /** The closing quote ends the literal. */
  lemma QuotedClose(t: string, i: nat, q: Quote)
    requires q != Plain && i < |t| && t[i] == Closer(q)
    ensures CommentsFrom(t, i, q) == CommentsFrom(t, i + 1, Plain)
  {
    QuietComments(t, i, q, i + 1, Plain);
  }

}
