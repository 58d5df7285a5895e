/**
  Compressor::stripComments, the empty-line filter and the output assembly
  of Compressor::process, and Compressor::extension (src/Compressor.cpp).

  stripComments drops // and /* */ comments without looking at string
  literals; process strips comments and blank lines on request and, when
  compressing, replaces the file by its chunks joined with a separator, or
  keeps the file when it has no chunks.
*/
module Compressor {
  import opened Text
  import opened Utils
  import opened Scan
  import opened Chunks

  // ---------------------------------------------------------------------
  // stripComments
  // ---------------------------------------------------------------------

  /** Where stripComments is: in code, in a // comment or in a block
      comment. The source keeps two flags, inLine and inBlock; they are
      never set together. */
  datatype Mode = InCode | InLineComment | InBlockComment

  /** What stripComments writes for s[i..] when it reaches i in mode m. */
  function StripFrom(s: string, i: nat, m: Mode): string
    decreases |s| - i
  {
    if i >= |s| then ""
    else if m == InCode && i + 1 < |s| && s[i] == '/' && s[i + 1] == '/' then StripFrom(s, i + 2, InLineComment)
    else if m == InCode && i + 1 < |s| && s[i] == '/' && s[i + 1] == '*' then StripFrom(s, i + 2, InBlockComment)
    else if m == InLineComment && s[i] == '\n' then "\n" + StripFrom(s, i + 1, InCode)
    else if m == InBlockComment && i + 1 < |s| && s[i] == '*' && s[i + 1] == '/' then StripFrom(s, i + 2, InCode)
    else if m == InCode then [s[i]] + StripFrom(s, i + 1, InCode)
    else StripFrom(s, i + 1, m)
  }

  /** The string stripComments returns. */
  function Stripped(s: string): string {
    StripFrom(s, 0, InCode)
  }

  /** stripComments: copies s byte by byte, leaving out every comment and
      keeping the newline that ends a // comment. */
  method StripComments(s: string) returns (out: string)
    ensures out == Stripped(s)
    ensures |out| <= |s|
  {
    out := "";
    var m := InCode;
    var i := 0;
    while i < |s|
      invariant i <= |s|
      invariant out + StripFrom(s, i, m) == Stripped(s)
      decreases |s| - i
    {
      if m == InCode && i + 1 < |s| && s[i] == '/' && s[i + 1] == '/' {
        m := InLineComment;
        i := i + 2;
      } else if m == InCode && i + 1 < |s| && s[i] == '/' && s[i + 1] == '*' {
        m := InBlockComment;
        i := i + 2;
      } else if m == InLineComment && s[i] == '\n' {
        m := InCode;
        AppendAssoc(out, "\n", StripFrom(s, i + 1, InCode));
        out := out + "\n";
        i := i + 1;
      } else if m == InBlockComment && i + 1 < |s| && s[i] == '*' && s[i + 1] == '/' {
        m := InCode;
        i := i + 2;
      } else if m == InCode {
        AppendAssoc(out, [s[i]], StripFrom(s, i + 1, InCode));
        out := out + [s[i]];
        i := i + 1;
      } else {
        i := i + 1;
      }
    }
    StripShorter(s, 0, InCode);
  }

  /** stripComments never writes more than it reads. */
  lemma {:induction false} StripShorter(s: string, i: nat, m: Mode)
    requires i <= |s|
    ensures |StripFrom(s, i, m)| <= |s| - i
    decreases |s| - i
  {
    if i < |s| {
      if m == InCode && i + 1 < |s| && s[i] == '/' && (s[i + 1] == '/' || s[i + 1] == '*') {
        StripShorter(s, i + 2, if s[i + 1] == '/' then InLineComment else InBlockComment);
      } else if m == InBlockComment && i + 1 < |s| && s[i] == '*' && s[i + 1] == '/' {
        StripShorter(s, i + 2, InCode);
      } else if m == InLineComment && s[i] == '\n' {
        StripShorter(s, i + 1, InCode);
      } else {
        StripShorter(s, i + 1, m);
      }
    }
  }

  /** Code without a '/' is copied as it is. */
  lemma {:induction false} StripCode(s: string, i: nat, j: nat)
    requires i <= j <= |s| && '/' !in s[i..j]
    ensures StripFrom(s, i, InCode) == s[i..j] + StripFrom(s, j, InCode)
    decreases j - i
  {
    if i < j {
      assert s[i] == s[i..j][0];
      assert s[i + 1..j] == s[i..j][1..];
      StripCode(s, i + 1, j);
      assert s[i..j] == [s[i]] + s[i + 1..j];
    }
  }

  /** A text without '/' holds no comment: stripComments returns it unchanged. */
  lemma NoSlashUnchanged(s: string)
    requires '/' !in s
    ensures Stripped(s) == s
  {
    assert s[0..|s|] == s;
    StripCode(s, 0, |s|);
  }

  /** Inside a // comment, every byte up to the newline is dropped. */
  lemma {:induction false} LineSkip(s: string, i: nat, j: nat)
    requires i <= j <= |s|
    requires forall k :: i <= k < j ==> s[k] != '\n'
    ensures StripFrom(s, i, InLineComment) == StripFrom(s, j, InLineComment)
    decreases j - i
  {
    if i < j {
      LineSkip(s, i + 1, j);
    }
  }

  /** A // comment is dropped, and the newline that ends it is kept. */
  lemma LineCommentKeepsNewline(s: string, i: nat)
    requires i + 1 < |s| && s[i] == '/' && s[i + 1] == '/'
    requires NewlineFrom(s, i + 2) < |s|
    ensures StripFrom(s, i, InCode) == "\n" + StripFrom(s, NewlineFrom(s, i + 2) + 1, InCode)
  {
    NewlineFromSkips(s, i + 2);
    LineSkip(s, i + 2, NewlineFrom(s, i + 2));
  }

  /** A // comment without a newline after it runs to the end of the text. */
  lemma LineCommentToEnd(s: string, i: nat)
    requires i + 1 < |s| && s[i] == '/' && s[i + 1] == '/'
    requires NewlineFrom(s, i + 2) == |s|
    ensures StripFrom(s, i, InCode) == ""
  {
    NewlineFromSkips(s, i + 2);
    LineSkip(s, i + 2, |s|);
  }

  /** No closer starts between a and CloseFrom(s, a). */
  lemma {:induction false} CloseFromSkips(s: string, a: nat)
    requires a <= |s|
    ensures forall k :: a <= k < CloseFrom(s, a) ==> !(k + 1 < |s| && s[k] == '*' && s[k + 1] == '/')
    decreases |s| - a
  {
    if a + 1 < |s| && !(s[a] == '*' && s[a + 1] == '/') {
      CloseFromSkips(s, a + 1);
    }
  }

  /** Inside a block comment, every byte before its closer is dropped. */
  lemma {:induction false} BlockSkip(s: string, i: nat, j: nat)
    requires i <= j <= |s|
    requires forall k :: i <= k < j ==> !(k + 1 < |s| && s[k] == '*' && s[k + 1] == '/')
    ensures StripFrom(s, i, InBlockComment) == StripFrom(s, j, InBlockComment)
    decreases j - i
  {
    if i < j {
      BlockSkip(s, i + 1, j);
    }
  }

  /** A closed block comment is dropped, closer included. */
  lemma BlockCommentDropped(s: string, i: nat)
    requires i + 1 < |s| && s[i] == '/' && s[i + 1] == '*'
    requires CloseFrom(s, i + 2) < |s|
    ensures StripFrom(s, i, InCode) == StripFrom(s, CloseFrom(s, i + 2) + 2, InCode)
  {
    CloseFromSkips(s, i + 2);
    BlockSkip(s, i + 2, CloseFrom(s, i + 2));
  }

  /** An unclosed block comment runs to the end of the text. */
  lemma BlockCommentToEnd(s: string, i: nat)
    requires i + 1 < |s| && s[i] == '/' && s[i + 1] == '*'
    requires CloseFrom(s, i + 2) == |s|
    ensures StripFrom(s, i, InCode) == ""
  {
    CloseFromSkips(s, i + 2);
    BlockSkip(s, i + 2, |s|);
  }

  /** Quotes are not tracked: a "//" is a comment even inside a string
      literal, so `x = "http://host"` loses everything from the "//". */
  lemma QuotesNotTracked(code: string, rest: string)
    requires '/' !in code && '\n' !in rest
    ensures Stripped(code + "//" + rest) == code
  {
    var s := code + "//" + rest;
    var p := |code|;
    assert s[0..p] == code;
    StripCode(s, 0, p);
    assert s[p] == '/' && s[p + 1] == '/';
    assert forall k :: p + 2 <= k < |s| ==> s[k] == rest[k - p - 2];
    assert forall k :: p + 2 <= k < |s| ==> s[k] != '\n';
    LineSkip(s, p + 2, |s|);
  }

  // ---------------------------------------------------------------------
  // The empty-line filter of process
  // ---------------------------------------------------------------------

  /** Each line written back with its newline (`oss << line << '\n'`). */
  function Terminated(lines: seq<string>): string {
    if lines == [] then "" else lines[0] + "\n" + Terminated(lines[1..])
  }

  /** The lines that hold a byte std::isspace rejects, in order. */
  function NonBlank(lines: seq<string>): (r: seq<string>)
    ensures |r| <= |lines|
  {
    if lines == [] then []
    else NonBlank(lines[..|lines| - 1]) + (if AllSpace(Last(lines)) then [] else [Last(lines)])
  }

  /** What the removeEmptyLines step of process leaves of data. */
  function WithoutEmptyLines(data: string): string {
    Terminated(NonBlank(GetlinePieces(data, '\n')))
  }

  /** The all_ws test of process: every byte of the line is a space. */
  method IsBlankLine(line: string) returns (allWs: bool)
    ensures allWs == AllSpace(line)
  {
    allWs := true;
    var k := 0;
    while k < |line|
      invariant k <= |line|
      invariant allWs == AllSpace(line[..k])
      invariant !allWs ==> k > 0
      decreases |line| - k, allWs
    {
      if !IsSpace(line[k]) {
        allWs := false;
        assert !AllSpace(line);
        return;
      }
      k := k + 1;
    }
    assert line[..k] == line;
  }

  /** The removeEmptyLines step of process: reads data line by line and
      writes back, each with a newline, the lines that are not blank. */
  method RemoveEmptyLines(data: string) returns (r: string)
    ensures r == WithoutEmptyLines(data)
  {
    var lines := GetlinePieces(data, '\n');
    r := "";
    var i := 0;
    while i < |lines|
      invariant i <= |lines|
      invariant r == Terminated(NonBlank(lines[..i]))
      decreases |lines| - i
    {
      var line := lines[i];
      var allWs := IsBlankLine(line);
      assert lines[..i + 1][..i] == lines[..i];
      assert NonBlank(lines[..i + 1]) == NonBlank(lines[..i]) + (if allWs then [] else [line]);
      if !allWs {
        TerminatedSnoc(NonBlank(lines[..i]), line);
        r := r + line + "\n";
      } else {
        assert NonBlank(lines[..i + 1]) == NonBlank(lines[..i]);
      }
      i := i + 1;
    }
    assert lines[..i] == lines;
  }

  /** Writing one more line appends it and its newline. */
  lemma {:induction false} TerminatedSnoc(lines: seq<string>, line: string)
    ensures Terminated(lines + [line]) == Terminated(lines) + line + "\n"
  {
    if lines != [] {
      assert (lines + [line])[1..] == lines[1..] + [line];
      TerminatedSnoc(lines[1..], line);
    }
  }

  /** A newline-free line followed by a newline is the first piece of the split. */
  lemma SplitLineFirst(l: string, t: string)
    requires '\n' !in l
    ensures Split(l + "\n" + t, '\n') == [l] + Split(t, '\n')
  {
    var s := l + "\n" + t;
    assert forall m :: 0 <= m < |l| ==> s[m] == l[m];
    assert s[|l|] == '\n';
    IndexOfAt(s, '\n', |l|);
    assert s[..|l|] == l && s[|l| + 1..] == t;
  }

  /** Reading back newline-free lines written with their newlines gives
      the lines again. */
  lemma {:induction false} TerminatedSplit(lines: seq<string>)
    requires forall k :: 0 <= k < |lines| ==> '\n' !in lines[k]
    ensures Split(Terminated(lines), '\n') == lines + [""]
  {
    if lines != [] {
      var rest := lines[1..];
      calc {
        Split(Terminated(lines), '\n');
        { SplitLineFirst(lines[0], Terminated(rest)); }
        [lines[0]] + Split(Terminated(rest), '\n');
        { TerminatedSplit(rest); }
        [lines[0]] + (rest + [""]);
        { assert [lines[0]] + rest == lines; }
        lines + [""];
      }
    } else {
      IndexOfAt("", '\n', 0);
    }
  }

  /** The filter keeps exactly the lines that are not blank. */
  lemma {:induction false} NonBlankSpec(lines: seq<string>)
    ensures forall k :: 0 <= k < |NonBlank(lines)| ==> !AllSpace(NonBlank(lines)[k])
    ensures forall x :: x in NonBlank(lines) <==> x in lines && !AllSpace(x)
  {
    if lines != [] {
      var init := lines[..|lines| - 1];
      NonBlankSpec(init);
      assert lines == init + [Last(lines)];
    }
  }

  /** Filtering lines that are all not blank keeps them all. */
  lemma {:induction false} NonBlankOfNonBlank(lines: seq<string>)
    requires forall k :: 0 <= k < |lines| ==> !AllSpace(lines[k])
    ensures NonBlank(lines) == lines
  {
    if lines != [] {
      NonBlankOfNonBlank(lines[..|lines| - 1]);
      assert lines == lines[..|lines| - 1] + [Last(lines)];
    }
  }

  /** Every line the filter keeps is a newline-free line of data. */
  lemma {:induction false} NonBlankFromPieces(lines: seq<string>)
    requires forall k :: 0 <= k < |lines| ==> '\n' !in lines[k]
    ensures forall k :: 0 <= k < |NonBlank(lines)| ==> '\n' !in NonBlank(lines)[k]
  {
    NonBlankSpec(lines);
    forall k | 0 <= k < |NonBlank(lines)| ensures '\n' !in NonBlank(lines)[k] {
      var x := NonBlank(lines)[k];
      assert x in lines;
    }
  }

  /** The filter's output, read back line by line, is the non-blank lines of
      the input, in order; it is empty or ends with a newline; it holds no
      blank line. */
  lemma WithoutEmptyLinesSpec(data: string)
    ensures var r := WithoutEmptyLines(data);
      && GetlinePieces(r, '\n') == NonBlank(GetlinePieces(data, '\n'))
      && (r == "" || Last(r) == '\n')
      && forall k :: 0 <= k < |GetlinePieces(r, '\n')| ==> !AllSpace(GetlinePieces(r, '\n')[k])
  {
    var lines := NonBlank(GetlinePieces(data, '\n'));
    GetlinePiecesSpec(data, '\n');
    NonBlankFromPieces(GetlinePieces(data, '\n'));
    TerminatedSplit(lines);
    var p := lines + [""];
    assert p[..|p| - 1] == lines;
    NonBlankSpec(GetlinePieces(data, '\n'));
    TerminatedEnds(lines);
  }

  /** Lines written with their newlines end with a newline, unless there are none. */
  lemma {:induction false} TerminatedEnds(lines: seq<string>)
    ensures Terminated(lines) == "" || Last(Terminated(lines)) == '\n'
  {
    if lines != [] {
      TerminatedEnds(lines[1..]);
    }
  }

  /** Removing the empty lines twice is removing them once. */
  lemma WithoutEmptyLinesIdempotent(data: string)
    ensures WithoutEmptyLines(WithoutEmptyLines(data)) == WithoutEmptyLines(data)
  {
    var r := WithoutEmptyLines(data);
    WithoutEmptyLinesSpec(data);
    NonBlankOfNonBlank(GetlinePieces(r, '\n'));
  }

  // ---------------------------------------------------------------------
  // extension
  // ---------------------------------------------------------------------

  /** path.find_last_of('.'): the last position holding c, None for npos. */
  function LastIndexOf(s: string, c: char): (k: Option<nat>)
    ensures k.Some? ==> k.value < |s| && s[k.value] == c
    decreases |s|
  {
    if s == [] then None
    else if Last(s) == c then Some(|s| - 1)
    else LastIndexOf(s[..|s| - 1], c)
  }

  /** LastIndexOf finds the last occurrence, and none exactly when c does not occur. */
  lemma {:induction false} LastIndexOfLast(s: string, c: char)
    ensures LastIndexOf(s, c).None? <==> c !in s
    ensures LastIndexOf(s, c).Some? ==> c !in s[LastIndexOf(s, c).value + 1..]
    decreases |s|
  {
    if s != [] && Last(s) != c {
      var init := s[..|s| - 1];
      LastIndexOfLast(init, c);
      assert s == init + [Last(s)];
      if LastIndexOf(init, c).Some? {
        var k := LastIndexOf(init, c).value;
        assert s[k + 1..] == init[k + 1..] + [Last(s)];
      }
    }
  }

  /** extension: the text after the last '.' of the path, lower-cased; ""
      when the path has no '.'. */
  function Extension(path: string): (ext: string) {
    match LastIndexOf(path, '.')
    case None => ""
    case Some(pos) => LowerString(path[pos + 1..])
  }

  /** The extension of a path is the lower-cased text after its last '.':
      it holds no '.' and no upper-case letter, and a path without '.' has
      none. */
  lemma ExtensionSpec(path: string)
    ensures '.' !in path ==> Extension(path) == ""
    ensures '.' !in Extension(path)
    ensures forall k :: 0 <= k < |Extension(path)| ==> !('A' <= Extension(path)[k] <= 'Z')
    ensures '.' in path ==>
      exists pos :: (0 <= pos < |path| && path[pos] == '.' && '.' !in path[pos + 1..] &&
                     Extension(path) == LowerString(path[pos + 1..]))
  {
    LastIndexOfLast(path, '.');
    match LastIndexOf(path, '.')
    case None =>
    case Some(pos) =>
      LoweredSuffix(path[pos + 1..]);
  }

  /** Lower-casing leaves no upper-case letter and brings in no '.'. */
  lemma LoweredSuffix(e: string)
    ensures forall k :: 0 <= k < |LowerString(e)| ==> !('A' <= LowerString(e)[k] <= 'Z')
    ensures '.' !in e ==> '.' !in LowerString(e)
  {
    var r := LowerString(e);
    if '.' !in e {
      forall k | 0 <= k < |r| ensures r[k] != '.' {
        assert e[k] in e;
      }
    }
  }

  /** A name ending in "." and a dot-free suffix has that suffix, lower-cased,
      as its extension, whatever comes before. */
  lemma ExtensionOfSuffix(name: string, suffix: string)
    requires '.' !in suffix
    ensures Extension(name + "." + suffix) == LowerString(suffix)
  {
    var path := name + "." + suffix;
    var pos := |name|;
    LastIndexOfLast(path, '.');
    assert path[pos] == '.';
    assert path[pos + 1..] == suffix;
    assert path[pos] in path;
  }

  // ---------------------------------------------------------------------
  // process
  // ---------------------------------------------------------------------

  /** The line process puts between two chunks: "\n", the three UTF-8 bytes
      of U+22EE (vertical ellipsis), "----", "\n". */
  const Separator: string := "\n\U{E2}\U{8B}\U{AE}----\n"

  /** A newline is added to a non-empty text that does not end with one. */
  function WithNewline(s: string): (r: string)
    ensures s != [] ==> r != [] && Last(r) == '\n'
    ensures s == [] ==> r == []
    ensures StartsWith(r, s) && |r| <= |s| + 1
  {
    if s != [] && Last(s) != '\n' then s + "\n" else s
  }

  /** The text process works on: the content with the comments stripped and
      the empty lines removed, each on request. */
  function Prepared(content: string, removeComments: bool, removeEmptyLines: bool): string {
    var data := if removeComments then Stripped(content) else content;
    if removeEmptyLines then WithoutEmptyLines(data) else data
  }

  /** What process returns when compressing: the chunks joined by the
      separator line, or the text itself when it has no chunk; a newline
      added at the end. */
  function Packed(data: string, ext: string): string {
    var chunks := Chunks.Chunks(data, ext);
    if chunks == [] then WithNewline(data) else WithNewline(Join(chunks, Separator))
  }

  /** The join loop of process: the chunks with the separator between two of them. */
  method JoinChunks(chunks: seq<string>) returns (out: string)
    ensures out == Join(chunks, Separator)
  {
    out := "";
    var i := 0;
    while i < |chunks|
      invariant i <= |chunks|
      invariant out == Join(chunks[..i], Separator)
      decreases |chunks| - i
    {
      assert chunks[..i + 1] == chunks[..i] + [chunks[i]];
      if i > 0 {
        JoinSnoc(chunks[..i], chunks[i], Separator);
        out := out + Separator;
      }
      out := out + chunks[i];
      i := i + 1;
    }
    assert chunks[..i] == chunks;
  }

  /** process: strips comments and empty lines on request; without
      compression returns that text; with compression returns its chunks
      joined by the separator line, or the text when there is no chunk,
      ending with a newline. */
  method Process(content: string, path: string, compress: bool, removeComments: bool, removeEmptyLines: bool)
    returns (result: string)
    ensures !compress ==> result == Prepared(content, removeComments, removeEmptyLines)
    ensures compress ==> result == Packed(Prepared(content, removeComments, removeEmptyLines), Extension(path))
  {
    var data := content;
    if removeComments {
      data := StripComments(data);
    }
    if removeEmptyLines {
      data := RemoveEmptyLines(data);
    }
    if !compress {
      return data;
    }
    var chunks := ExtractChunks(data, Extension(path));
    if chunks == [] {
      if data != [] && Last(data) != '\n' {
        data := data + "\n";
      }
      return data;
    }
    result := JoinChunks(chunks);
    if result != [] && Last(result) != '\n' {
      result := result + "\n";
    }
  }

  /** Without any option, process hands the content back unchanged. */
  lemma PreparedPlain(content: string)
    ensures Prepared(content, false, false) == content
  {
  }

  /** A compressed result ends with a newline, and it is empty only when the
      text is. */
  lemma PackedEndsWithNewline(data: string, ext: string)
    ensures var r := Packed(data, ext); (r != [] ==> Last(r) == '\n') && (data != [] ==> r != [])
  {
    var chunks := Chunks.Chunks(data, ext);
    if chunks != [] {
      ChunksNonEmpty(data, ext);
      JoinStartsWith(chunks, Separator);
    }
  }

  /** Every chunk appears, whole, in the compressed result, and the result
      starts with the first one. */
  lemma PackedHoldsChunks(data: string, ext: string)
    requires Chunks.Chunks(data, ext) != []
    ensures StartsWith(Packed(data, ext), Chunks.Chunks(data, ext)[0])
    ensures forall k :: 0 <= k < |Chunks.Chunks(data, ext)| ==> Contains(Packed(data, ext), Chunks.Chunks(data, ext)[k])
  {
    var chunks := Chunks.Chunks(data, ext);
    assert Packed(data, ext) == WithNewline(Join(chunks, Separator));
    JoinedHolds(chunks, Separator);
  }

  /** A join, with a newline perhaps added, starts with its first piece and
      holds every piece. */
  lemma JoinedHolds(xs: seq<string>, sep: string)
    requires xs != []
    ensures StartsWith(WithNewline(Join(xs, sep)), xs[0])
    ensures forall k :: 0 <= k < |xs| ==> Contains(WithNewline(Join(xs, sep)), xs[k])
  {
    var j := Join(xs, sep);
    var r := WithNewline(j);
    var extra := if r == j then "" else "\n";
    assert r == j + extra;
    JoinStartsWith(xs, sep);
    assert r[..|xs[0]|] == j[..|xs[0]|];
    forall k | 0 <= k < |xs| ensures Contains(r, xs[k]) {
      var a, c := JoinAt(xs, sep, k);
      ContainsMiddle(a, xs[k], c + extra);
      assert r == a + xs[k] + (c + extra);
    }
  }

  /** Piece k of a join sits between a prefix and a suffix. */
  lemma {:induction false} JoinAt(xs: seq<string>, sep: string, k: nat) returns (a: string, c: string)
    requires k < |xs|
    ensures Join(xs, sep) == a + xs[k] + c
  {
    if |xs| == 1 {
      a, c := "", "";
    } else if k == 0 {
      a, c := "", sep + Join(xs[1..], sep);
    } else {
      var a', c' := JoinAt(xs[1..], sep, k - 1);
      a, c := xs[0] + sep + a', c';
    }
  }

  /** A text holds each of its pieces. */
  lemma {:induction false} ContainsMiddle(a: string, b: string, c: string)
    ensures Contains(a + b + c, b)
    decreases |a|
  {
    var s := a + b + c;
    if a == [] {
      assert s[..|b|] == b;
    } else {
      assert s[1..] == a[1..] + b + c;
      ContainsMiddle(a[1..], b, c);
    }
  }
}
