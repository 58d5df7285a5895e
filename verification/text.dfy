/**
  The std::string, <cctype> and std::istringstream / std::ostringstream
  primitives the packager's text routines are built on. A `char` stands
  for one byte of the buffer; the character classes are those of the "C"
  locale.
*/
module Text {

  /** A position or a value that may be missing; None stands for std::string::npos. */
  datatype Option<T> = None | Some(value: T)

  /** std::isspace: space, tab, newline, vertical tab, form feed, carriage return. */
  predicate IsSpace(c: char) {
    c == ' ' || c == '\t' || c == '\n' || c == '\U{B}' || c == '\U{C}' || c == '\r'
  }

  /** std::isalpha. */
  predicate IsAlpha(c: char) {
    ('a' <= c <= 'z') || ('A' <= c <= 'Z')
  }

  predicate AllSpace(s: string) {
    forall k :: 0 <= k < |s| ==> IsSpace(s[k])
  }

  /** The `starts_with` helper of Compressor.cpp (s.compare(0, |prefix|, prefix) == 0). */
  predicate StartsWith(s: string, prefix: string) {
    |prefix| <= |s| && s[..|prefix|] == prefix
  }

  predicate EndsWith(s: string, suffix: string) {
    |suffix| <= |s| && s[|s| - |suffix|..] == suffix
  }

  /** s.find(pat) != npos. */
  predicate Contains(s: string, pat: string)
    decreases |s|
  {
    StartsWith(s, pat) || (s != [] && Contains(s[1..], pat))
  }

  /** A string holding pat holds its first character. */
  lemma {:induction false} ContainsFirst(s: string, pat: string)
    requires pat != [] && Contains(s, pat)
    ensures pat[0] in s
    decreases |s|
  {
    if !StartsWith(s, pat) {
      ContainsFirst(s[1..], pat);
    } else {
      assert s[0] == pat[0];
    }
  }

  /** s.back() */
  function Last<T>(s: seq<T>): T
    requires s != []
  {
    s[|s| - 1]
  }

  /** s.find(c), with |s| standing for npos. */
  function IndexOf(s: string, c: char): (k: nat)
    ensures k <= |s|
    ensures k < |s| ==> s[k] == c
  {
    if s == [] then 0
    else if s[0] == c then 0
    else 1 + IndexOf(s[1..], c)
  }

  /** IndexOf finds the first occurrence, and |s| exactly when there is none. */
  lemma {:induction false} IndexOfFirst(s: string, c: char)
    ensures forall m :: 0 <= m < IndexOf(s, c) ==> s[m] != c
    ensures IndexOf(s, c) == |s| <==> c !in s
  {
    if s != [] && s[0] != c {
      IndexOfFirst(s[1..], c);
      assert s == [s[0]] + s[1..];
    }
  }

  /** s.find(c, i): the first position from i on holding c, with |s| standing for npos. */
  function FindFrom(s: string, c: char, i: nat): (k: nat)
    ensures k <= |s|
    ensures k < |s| ==> i <= k && s[k] == c
    decreases |s| - i
  {
    if i >= |s| then |s|
    else if s[i] == c then i
    else FindFrom(s, c, i + 1)
  }

  /** FindFrom finds the first occurrence from i on, and |s| exactly when there is none. */
  lemma {:induction false} FindFromFirst(s: string, c: char, i: nat)
    requires i <= |s|
    ensures forall m :: i <= m < FindFrom(s, c, i) ==> s[m] != c
    ensures FindFrom(s, c, i) == |s| <==> c !in s[i..]
    decreases |s| - i
  {
    if i < |s| && s[i] != c {
      FindFromFirst(s, c, i + 1);
      assert s[i..] == [s[i]] + s[i + 1..];
    }
  }

  /** A position before which c does not occur, and that holds c or is |s|, is IndexOf. */
  lemma IndexOfAt(s: string, c: char, k: nat)
    requires k <= |s| && (k < |s| ==> s[k] == c)
    requires forall m :: 0 <= m < k ==> s[m] != c
    ensures IndexOf(s, c) == k
  {
    IndexOfFirst(s, c);
  }

  /** Number of occurrences of c in s. */
  function Count(s: string, c: char): nat {
    multiset(s)[c]
  }

  /** The pieces of s between consecutive occurrences of sep (always at least one piece). */
  function Split(s: string, sep: char): (pieces: seq<string>)
    ensures |pieces| >= 1
    decreases |s|
  {
    var k := IndexOf(s, sep);
    if k == |s| then [s] else [s[..k]] + Split(s[k + 1..], sep)
  }

  /** The ostringstream loop `if (i) oss << sep; oss << pieces[i];`. */
  function Join(pieces: seq<string>, sep: string): string {
    if |pieces| == 0 then ""
    else if |pieces| == 1 then pieces[0]
    else pieces[0] + sep + Join(pieces[1..], sep)
  }

  /** The strings `std::getline(in, piece, sep)` yields one after another from a
      stream over s: the pieces of Split, except that an empty last piece is
      never produced (getline fails at end of input when it extracted nothing). */
  function GetlinePieces(s: string, sep: char): (pieces: seq<string>)
  {
    var p := Split(s, sep);
    if p[|p| - 1] == "" then p[..|p| - 1] else p
  }

  /** getline yields the pieces of Split, or all of them but an empty last
      one; at most Count + 1 pieces, none holding the separator. */
  lemma GetlinePiecesSpec(s: string, sep: char)
    ensures GetlinePieces(s, sep) == Split(s, sep) || GetlinePieces(s, sep) + [""] == Split(s, sep)
    ensures |GetlinePieces(s, sep)| <= Count(s, sep) + 1
    ensures forall k :: 0 <= k < |GetlinePieces(s, sep)| ==> sep !in GetlinePieces(s, sep)[k]
  {
    SplitPieces(s, sep);
  }

  /** Concatenation of all the strings, in order. */
  function Concat(xs: seq<string>): string {
    if xs == [] then "" else xs[0] + Concat(xs[1..])
  }

  function Reverse<T>(xs: seq<T>): (r: seq<T>)
    ensures |r| == |xs|
    ensures forall k :: 0 <= k < |xs| ==> r[k] == xs[|xs| - 1 - k]
  {
    if xs == [] then [] else Reverse(xs[1..]) + [xs[0]]
  }

  /** [f(0), ..., f(n - 1)]. */
  function Tabulate<T>(f: nat -> T, n: nat): (r: seq<T>)
    ensures |r| == n
  {
    if n == 0 then [] else Tabulate(f, n - 1) + [f(n - 1)]
  }

  /** Entry k of a table is f(k). */
  lemma {:induction false} TabulateAt<T>(f: nat -> T, n: nat, k: nat)
    requires k < n
    ensures Tabulate(f, n)[k] == f(k)
  {
    if k < n - 1 {
      TabulateAt(f, n - 1, k);
    }
  }

  predicate Distinct<T(==)>(xs: seq<T>) {
    forall i, j :: 0 <= i < j < |xs| ==> xs[i] != xs[j]
  }

  /** A sequence with no member is empty. */
  lemma NoMembersEmpty<T>(xs: seq<T>)
    ensures (forall x :: x !in xs) ==> xs == []
  {
    if xs != [] {
      assert xs[0] in xs;
    }
  }

  lemma AppendAssoc<T>(a: seq<T>, b: seq<T>, c: seq<T>)
    ensures (a + b) + c == a + (b + c)
  {
  }

  /** Split yields Count + 1 pieces, none of which contains the separator. */
  lemma {:induction false} SplitPieces(s: string, sep: char)
    ensures |Split(s, sep)| == Count(s, sep) + 1
    ensures forall k :: 0 <= k < |Split(s, sep)| ==> sep !in Split(s, sep)[k]
    decreases |s|
  {
    var k := IndexOf(s, sep);
    IndexOfFirst(s, sep);
    if k == |s| {
      assert multiset(s)[sep] == 0;
    } else {
      SplitPieces(s[k + 1..], sep);
      assert s == s[..k] + [sep] + s[k + 1..];
      assert multiset(s) == multiset(s[..k]) + multiset{sep} + multiset(s[k + 1..]);
      assert sep !in s[..k];
      assert multiset(s[..k])[sep] == 0;
    }
  }

  /** Joining the pieces with the separator gives back the input. */
  lemma {:induction false} JoinSplit(s: string, sep: char)
    ensures Join(Split(s, sep), [sep]) == s
    decreases |s|
  {
    var k := IndexOf(s, sep);
    if k < |s| {
      JoinSplit(s[k + 1..], sep);
      var rest := Split(s[k + 1..], sep);
      assert Split(s, sep) == [s[..k]] + rest;
      assert (Split(s, sep))[1..] == rest;
      assert s == s[..k] + [sep] + s[k + 1..];
    }
  }

  /** Splitting a join of separator-free pieces gives back the pieces. */
  lemma {:induction false} SplitJoin(pieces: seq<string>, sep: char)
    requires |pieces| >= 1
    requires forall k :: 0 <= k < |pieces| ==> sep !in pieces[k]
    ensures Split(Join(pieces, [sep]), sep) == pieces
  {
    var s := Join(pieces, [sep]);
    if |pieces| == 1 {
      IndexOfAt(s, sep, |s|);
    } else {
      var rest := Join(pieces[1..], [sep]);
      assert s == pieces[0] + [sep] + rest;
      var k := |pieces[0]|;
      assert s[k] == sep;
      assert forall m :: 0 <= m < k ==> s[m] == pieces[0][m];
      IndexOfAt(s, sep, k);
      assert s[..k] == pieces[0];
      assert s[k + 1..] == rest;
      SplitJoin(pieces[1..], sep);
    }
  }

  lemma {:induction false} ReverseReverse<T>(xs: seq<T>)
    ensures Reverse(Reverse(xs)) == xs
  {
    var r := Reverse(Reverse(xs));
    assert |r| == |xs|;
    forall k | 0 <= k < |xs| ensures r[k] == xs[k] {
      assert r[k] == Reverse(xs)[|xs| - 1 - k];
    }
  }

  /** The first occurrence of c in s stays the first one when text is appended. */
  lemma IndexOfAppend(s: string, t: string, c: char)
    requires c in s
    ensures IndexOf(s + t, c) == IndexOf(s, c)
  {
    var k := IndexOf(s, c);
    IndexOfFirst(s, c);
    var u := s + t;
    assert forall m :: 0 <= m < k ==> u[m] == s[m];
    IndexOfAt(u, c, k);
  }

  /** Appending the separator to s starts a new, empty last piece. */
  lemma {:induction false} SplitSnocSep(s: string, sep: char)
    ensures Split(s + [sep], sep) == Split(s, sep) + [""]
    decreases |s|
  {
    var k := IndexOf(s, sep);
    IndexOfFirst(s, sep);
    var t := s + [sep];
    if k < |s| {
      IndexOfAppend(s, [sep], sep);
      assert t[..k] == s[..k];
      assert t[k + 1..] == s[k + 1..] + [sep];
      SplitSnocSep(s[k + 1..], sep);
      assert Split(s, sep) == [s[..k]] + Split(s[k + 1..], sep);
      assert Split(t, sep) == [s[..k]] + Split(s[k + 1..] + [sep], sep);
    } else {
      assert forall m :: 0 <= m < |s| ==> t[m] == s[m];
      IndexOfAt(t, sep, |s|);
      assert t[..|s|] == s;
      assert t[|s| + 1..] == [];
    }
  }

  /** Appending any other character to s extends the last piece of its split. */
  lemma {:induction false} SplitSnocOther(s: string, c: char, sep: char)
    requires c != sep
    ensures var p := Split(s, sep); Split(s + [c], sep) == p[..|p| - 1] + [Last(p) + [c]]
    decreases |s|
  {
    var k := IndexOf(s, sep);
    IndexOfFirst(s, sep);
    var t := s + [c];
    if k < |s| {
      IndexOfAppend(s, [c], sep);
      assert t[..k] == s[..k];
      assert t[k + 1..] == s[k + 1..] + [c];
      SplitSnocOther(s[k + 1..], c, sep);
      assert Split(s, sep) == [s[..k]] + Split(s[k + 1..], sep);
      assert Split(t, sep) == [s[..k]] + Split(s[k + 1..] + [c], sep);
    } else {
      assert forall m :: 0 <= m < |t| ==> t[m] != sep;
      IndexOfAt(t, sep, |t|);
    }
  }

  /** Joining one more piece adds the separator and the piece. */
  lemma {:induction false} JoinSnoc(xs: seq<string>, x: string, sep: string)
    requires xs != []
    ensures Join(xs + [x], sep) == Join(xs, sep) + sep + x
  {
    if |xs| == 1 {
      assert (xs + [x])[1..] == [x];
    } else {
      assert (xs + [x])[1..] == xs[1..] + [x];
      JoinSnoc(xs[1..], x, sep);
    }
  }

  /** Joining two non-empty lists puts one separator between their joins. */
  lemma {:induction false} JoinAppend(xs: seq<string>, ys: seq<string>, sep: string)
    requires xs != [] && ys != []
    ensures Join(xs + ys, sep) == Join(xs, sep) + sep + Join(ys, sep)
  {
    if |xs| == 1 {
      assert (xs + ys)[1..] == ys;
    } else {
      assert (xs + ys)[1..] == xs[1..] + ys;
      JoinAppend(xs[1..], ys, sep);
    }
  }

  /** A join whose last piece is not empty ends with that piece's last character. */
  lemma {:induction false} JoinLast(xs: seq<string>, sep: string)
    requires xs != [] && Last(xs) != []
    ensures Join(xs, sep) != [] && Last(Join(xs, sep)) == Last(Last(xs))
  {
    if |xs| > 1 {
      assert Last(xs[1..]) == Last(xs);
      JoinLast(xs[1..], sep);
    }
  }

  /** A join starts with its first piece. */
  lemma JoinStartsWith(xs: seq<string>, sep: string)
    requires xs != []
    ensures StartsWith(Join(xs, sep), xs[0])
  {
    if |xs| > 1 {
      assert Join(xs, sep)[..|xs[0]|] == xs[0];
    }
  }
}
