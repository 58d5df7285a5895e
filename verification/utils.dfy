/**
  The string helpers of src/utils.h: trim, split_comma, toLower and
  splitPatterns.
*/
module Utils {
  import opened Text

  /** The characters trim strips: " \t\n\r" (narrower than std::isspace). */
  predicate IsTrimSpace(c: char) {
    c == ' ' || c == '\t' || c == '\n' || c == '\r'
  }

  /** No strippable character at either end. */
  predicate IsTrimmed(r: string) {
    r == [] || (!IsTrimSpace(r[0]) && !IsTrimSpace(Last(r)))
  }

  /** r occurs in s at offset a, and everything of s around it is strippable. */
  predicate TrimmedAt(s: string, r: string, a: int) {
    && 0 <= a <= |s| - |r|
    && s[a..a + |r|] == r
    && (forall k :: 0 <= k < a ==> IsTrimSpace(s[k]))
    && (forall k :: a + |r| <= k < |s| ==> IsTrimSpace(s[k]))
  }

  /** s.find_first_not_of(" \t\n\r"), with |s| standing for npos. */
  function FirstNotTrimSpace(s: string): (a: nat)
    ensures a <= |s|
    ensures a < |s| ==> !IsTrimSpace(s[a])
  {
    if s == [] || !IsTrimSpace(s[0]) then 0 else 1 + FirstNotTrimSpace(s[1..])
  }

  /** Everything before FirstNotTrimSpace(s) is strippable. */
  lemma {:induction false} LeadingRun(s: string)
    ensures forall k :: 0 <= k < FirstNotTrimSpace(s) ==> IsTrimSpace(s[k])
  {
    if s != [] && IsTrimSpace(s[0]) {
      LeadingRun(s[1..]);
    }
  }

  /** One past s.find_last_not_of(" \t\n\r"), with 0 standing for npos. */
  function EndNotTrimSpace(s: string): (b: nat)
    ensures b <= |s|
    ensures b > 0 ==> !IsTrimSpace(s[b - 1])
  {
    if s == [] || !IsTrimSpace(Last(s)) then |s| else EndNotTrimSpace(s[..|s| - 1])
  }

  /** Everything from EndNotTrimSpace(s) on is strippable. */
  lemma {:induction false} TrailingRun(s: string)
    ensures forall k :: EndNotTrimSpace(s) <= k < |s| ==> IsTrimSpace(s[k])
  {
    if s != [] && IsTrimSpace(Last(s)) {
      TrailingRun(s[..|s| - 1]);
    }
  }

  /** trim: the part of s between its leading and trailing " \t\n\r" runs. */
  function Trim(s: string): (r: string)
    ensures IsTrimmed(r)
  {
    var a := FirstNotTrimSpace(s);
    if a == |s| then ""
    else
      var b := EndNotTrimSpace(s);
      TrailingRun(s);
      assert a < b;
      s[a..b]
  }

  /** trim(s) is the substring of s left once its leading and trailing
      strippable runs are cut, and it is empty exactly when s is all
      strippable characters. */
  lemma TrimSpec(s: string)
    ensures Trim(s) == [] <==> forall k :: 0 <= k < |s| ==> IsTrimSpace(s[k])
    ensures exists a :: TrimmedAt(s, Trim(s), a)
  {
    var a := FirstNotTrimSpace(s);
    LeadingRun(s);
    TrailingRun(s);
    if a == |s| {
      assert TrimmedAt(s, "", 0);
    } else {
      var b := EndNotTrimSpace(s);
      assert TrimmedAt(s, s[a..b], a);
    }
  }

  /** A trimmed string is its own trim. */
  lemma TrimOfTrimmed(r: string)
    requires IsTrimmed(r)
    ensures Trim(r) == r
  {
    if r != [] {
      assert FirstNotTrimSpace(r) == 0;
      assert EndNotTrimSpace(r) == |r|;
    }
  }

  /** trim(trim(s)) == trim(s). */
  lemma TrimIdempotent(s: string)
    ensures Trim(Trim(s)) == Trim(s)
  {
    TrimOfTrimmed(Trim(s));
  }

  /** Every character of trim(s) comes from s. */
  lemma TrimChars(s: string)
    ensures forall c :: c in Trim(s) ==> c in s
  {
    TrimSpec(s);
    var a :| TrimmedAt(s, Trim(s), a);
    forall c | c in Trim(s) ensures c in s {
      var k :| 0 <= k < |Trim(s)| && Trim(s)[k] == c;
      assert s[a + k] == c;
    }
  }

  /** A string whose first and last characters are not strippable trims to itself;
      in particular trimming never touches an inner character. */
  lemma TrimKeepsNonSpaceEnds(s: string)
    requires s != [] && !IsTrimSpace(s[0]) && !IsTrimSpace(Last(s))
    ensures Trim(s) == s
  {
    TrimOfTrimmed(s);
  }

  /** A string that starts with a character trim does not strip keeps its first
      two characters when trimmed, provided the second is not strippable either. */
  lemma TrimKeepsPrefix(s: string)
    requires |s| >= 2 && !IsTrimSpace(s[0]) && !IsTrimSpace(s[1])
    ensures |Trim(s)| >= 2 && Trim(s)[..2] == s[..2]
  {
    assert FirstNotTrimSpace(s) == 0;
    var b := EndNotTrimSpace(s);
    TrailingRun(s);
    assert b >= 2;
  }

  /** Every entry trimmed. */
  function TrimAll(xs: seq<string>): seq<string> {
    seq(|xs|, k requires 0 <= k < |xs| => Trim(xs[k]))
  }

  lemma TrimAllSnoc(xs: seq<string>, x: string)
    ensures TrimAll(xs + [x]) == TrimAll(xs) + [Trim(x)]
  {
    assert forall k :: 0 <= k < |xs| ==> (xs + [x])[k] == xs[k];
  }

  /** The trimmed pieces that are not empty, in order: the tokens kept by the
      `token = trim(token); if (!token.empty()) out.push_back(token);` loops. */
  function TrimmedNonEmpty(pieces: seq<string>): (r: seq<string>)
    ensures |r| <= |pieces|
  {
    if pieces == [] then []
    else
      var t := Trim(Last(pieces));
      TrimmedNonEmpty(pieces[..|pieces| - 1]) + (if t == [] then [] else [t])
  }

  /** One more piece adds its trim, unless that is empty. */
  lemma TrimmedNonEmptySnoc(pieces: seq<string>, i: nat)
    requires i < |pieces|
    ensures TrimmedNonEmpty(pieces[..i + 1]) ==
      TrimmedNonEmpty(pieces[..i]) + (if Trim(pieces[i]) == [] then [] else [Trim(pieces[i])])
  {
    assert pieces[..i + 1][..i] == pieces[..i];
  }

  /** Every token of TrimmedNonEmpty is non-empty and trimmed. */
  lemma {:induction false} TrimmedNonEmptyWellFormed(pieces: seq<string>)
    ensures forall k :: 0 <= k < |TrimmedNonEmpty(pieces)| ==>
      TrimmedNonEmpty(pieces)[k] != [] && IsTrimmed(TrimmedNonEmpty(pieces)[k])
  {
    if pieces != [] {
      TrimmedNonEmptyWellFormed(pieces[..|pieces| - 1]);
    }
  }

  /** No token of TrimmedNonEmpty holds a character none of the pieces holds. */
  lemma {:induction false} TrimmedNonEmptyFromPieces(pieces: seq<string>, c: char)
    requires forall k :: 0 <= k < |pieces| ==> c !in pieces[k]
    ensures forall k :: 0 <= k < |TrimmedNonEmpty(pieces)| ==> c !in TrimmedNonEmpty(pieces)[k]
  {
    if pieces != [] {
      TrimmedNonEmptyFromPieces(pieces[..|pieces| - 1], c);
      TrimChars(Last(pieces));
    }
  }

  /** The getline loop never sees the empty last piece of Split, and an empty
      piece yields no token anyway. */
  lemma GetlineTokensAreSplitTokens(s: string, sep: char)
    ensures TrimmedNonEmpty(GetlinePieces(s, sep)) == TrimmedNonEmpty(Split(s, sep))
  {
    var p := GetlinePieces(s, sep);
    if p != Split(s, sep) {
      assert (p + [""])[..|p|] == p;
    }
  }

  /** The tokens split_comma appends for s. */
  function CommaTokens(s: string): seq<string> {
    TrimmedNonEmpty(GetlinePieces(s, ','))
  }

  /** split_comma's tokens are non-empty, trimmed and free of commas. */
  lemma CommaTokensWellFormed(s: string)
    ensures forall k :: 0 <= k < |CommaTokens(s)| ==>
      CommaTokens(s)[k] != [] && IsTrimmed(CommaTokens(s)[k]) && ',' !in CommaTokens(s)[k]
  {
    GetlinePiecesSpec(s, ',');
    TrimmedNonEmptyWellFormed(GetlinePieces(s, ','));
    TrimmedNonEmptyFromPieces(GetlinePieces(s, ','), ',');
  }

  /** split_comma: appends to `out` the non-empty trimmed comma-separated
      tokens of s, in order; the entries already in `out` are left as they are. */
  method SplitComma(s: string, out: seq<string>) returns (result: seq<string>)
    ensures result == out + CommaTokens(s)
    ensures |result| >= |out| && result[..|out|] == out
  {
    var pieces := GetlinePieces(s, ',');
    result := out;
    var i := 0;
    while i < |pieces|
      invariant 0 <= i <= |pieces|
      invariant result == out + TrimmedNonEmpty(pieces[..i])
    {
      var token := Trim(pieces[i]);
      TrimmedNonEmptySnoc(pieces, i);
      if token != [] {
        AppendAssoc(out, TrimmedNonEmpty(pieces[..i]), [token]);
        result := result + [token];
      } else {
        assert TrimmedNonEmpty(pieces[..i + 1]) == TrimmedNonEmpty(pieces[..i]) + [];
      }
      i := i + 1;
    }
    assert pieces[..|pieces|] == pieces;
  }

  /** std::tolower on one byte: only 'A'..'Z' change. */
  function LowerChar(c: char): char {
    if 'A' <= c <= 'Z' then (c as int + 32) as char else c
  }

  /** The string toLower returns. */
  function LowerString(s: string): (r: string)
    ensures |r| == |s|
  {
    seq(|s|, k requires 0 <= k < |s| => LowerChar(s[k]))
  }

  /** toLower: transforms its copy of s byte by byte. */
  method ToLower(s: string) returns (r: string)
    ensures r == LowerString(s)
    ensures |r| == |s|
    ensures forall k :: 0 <= k < |s| && !('A' <= s[k] <= 'Z') ==> r[k] == s[k]
    ensures forall k :: 0 <= k < |s| && 'A' <= s[k] <= 'Z' ==> r[k] == (s[k] as int + 32) as char
  {
    r := s;
    var i := 0;
    while i < |r|
      invariant |r| == |s| && 0 <= i <= |s|
      invariant forall k :: 0 <= k < i ==> r[k] == LowerChar(s[k])
      invariant forall k :: i <= k < |s| ==> r[k] == s[k]
    {
      r := r[i := LowerChar(r[i])];
      i := i + 1;
    }
  }

  /** Lowering twice is lowering once. */
  lemma LowerStringIdempotent(s: string)
    ensures LowerString(LowerString(s)) == LowerString(s)
  {
  }

  /** The patterns splitPatterns returns: every non-empty piece between commas,
      trimmed (so a piece of blanks gives an empty pattern). */
  function Patterns(pieces: seq<string>): (r: seq<string>)
    ensures |r| <= |pieces|
  {
    if pieces == [] then []
    else Patterns(pieces[..|pieces| - 1]) + (if Last(pieces) == [] then [] else [Trim(Last(pieces))])
  }

  /** splitPatterns: cuts `in` at every comma, keeps each non-empty piece trimmed. */
  method SplitPatterns(input: string) returns (out: seq<string>)
    ensures out == Patterns(Split(input, ','))
    ensures |out| <= Count(input, ',') + 1
    ensures forall k :: 0 <= k < |out| ==> ',' !in out[k] && IsTrimmed(out[k])
  {
    out := [];
    var cur := "";
    ghost var done: seq<string> := [];
    var i := 0;
    while i < |input|
      invariant 0 <= i <= |input|
      invariant Split(input[..i], ',') == done + [cur]
      invariant out == Patterns(done)
    {
      var c := input[i];
      assert input[..i + 1] == input[..i] + [c];
      if c == ',' {
        SplitSnocSep(input[..i], ',');
        if cur != [] {
          out := out + [Trim(cur)];
        }
        assert (done + [cur])[..|done|] == done;
        done := done + [cur];
        cur := "";
      } else {
        SplitSnocOther(input[..i], c, ',');
        assert (done + [cur])[..|done|] == done;
        cur := cur + [c];
      }
      i := i + 1;
    }
    assert input[..|input|] == input;
    assert (done + [cur])[..|done|] == done;
    if cur != [] {
      out := out + [Trim(cur)];
    }
    assert out == Patterns(done + [cur]);
    SplitPieces(input, ',');
    PatternsWellFormed(Split(input, ','));
  }

  /** Every pattern is trimmed and comma-free when the pieces are comma-free. */
  lemma {:induction false} PatternsWellFormed(pieces: seq<string>)
    requires forall k :: 0 <= k < |pieces| ==> ',' !in pieces[k]
    ensures forall k :: 0 <= k < |Patterns(pieces)| ==>
      ',' !in Patterns(pieces)[k] && IsTrimmed(Patterns(pieces)[k])
  {
    if pieces != [] {
      PatternsWellFormed(pieces[..|pieces| - 1]);
      TrimChars(Last(pieces));
    }
  }

  /** Where the two splitters differ: a piece of blanks is kept by
      splitPatterns as an empty pattern, and dropped by split_comma. */
  lemma BlankPieceKept(p: string)
    requires p != [] && forall k :: 0 <= k < |p| ==> IsTrimSpace(p[k])
    ensures Patterns(Split(p, ',')) == [""]
    ensures CommaTokens(p) == []
  {
    IndexOfAt(p, ',', |p|);
    assert Split(p, ',') == [p];
    assert Trim(p) == [] by {
      TrimSpec(p);
    }
    assert Patterns([p]) == Patterns([]) + [Trim(p)];
    assert GetlinePieces(p, ',') == [p];
    assert TrimmedNonEmpty([p]) == TrimmedNonEmpty([]) + [];
  }
}
