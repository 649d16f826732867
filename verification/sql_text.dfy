/** The string-level helpers of the JSON-query to SQL translator: identifier
    checks, SQL string literals and property-path joining
    (LiteCore/Query/QueryParser.cc, lines 44-110). */
module SqlText {
  import opened Wrappers
  import opened JsonValue

  // ---------------------------------------------------------------------------
  // Identifiers
  // ---------------------------------------------------------------------------

  /** C `isalpha` in the "C" locale. */
  predicate IsAlpha(c: char) {
    ('a' <= c <= 'z') || ('A' <= c <= 'Z')
  }

  /** C `isalnum` in the "C" locale. */
  predicate IsAlnum(c: char) {
    IsAlpha(c) || IsDigit(c)
  }

  predicate IsWordChar(c: char) {
    IsAlnum(c) || c == '_'
  }

  /** Scans `s` from index `from` and stops at the first character that is
      neither alphanumeric nor an underscore, as the source's loop does. */
  function AllWordChars(s: string, from: nat): (r: bool)
    requires from <= |s|
    ensures r <==> forall i :: from <= i < |s| ==> IsWordChar(s[i])
    decreases |s| - from
  {
    if from == |s| then true
    else if !IsWordChar(s[from]) then false
    else AllWordChars(s, from + 1)
  }

  /** `isAlphanumericOrUnderscore`: the empty string is rejected. */
  function IsAlphanumericOrUnderscore(s: string): (r: bool)
    ensures r <==> |s| > 0 && forall i :: 0 <= i < |s| ==> IsWordChar(s[i])
  {
    if |s| == 0 then false else AllWordChars(s, 0)
  }

  /** `isValidIdentifier`: a non-empty word that does not start with a digit. */
  function IsValidIdentifier(s: string): (r: bool)
    ensures r <==> |s| > 0 && !IsDigit(s[0]) && forall i :: 0 <= i < |s| ==> IsWordChar(s[i])
    ensures r ==> IsAlpha(s[0]) || s[0] == '_'
  {
    IsAlphanumericOrUnderscore(s) && !IsDigit(s[0])
  }

  // ---------------------------------------------------------------------------
  // SQL string literals
  // ---------------------------------------------------------------------------

  function CountChar(s: string, c: char): nat
    decreases |s|
  {
    if |s| == 0 then 0 else (if s[0] == c then 1 else 0) + CountChar(s[1..], c)
  }

  /** The body of an SQL string literal: every apostrophe doubled. */
  function DoubleQuotes(s: string): (r: string)
    ensures |r| == |s| + CountChar(s, '\'')
    ensures '\'' !in s ==> r == s
    decreases |s|
  {
    if |s| == 0 then []
    else (if s[0] == '\'' then "''" else [s[0]]) + DoubleQuotes(s[1..])
  }

  /** Reads the body of an SQL string literal back: a doubled apostrophe
      stands for one apostrophe, and a lone apostrophe is malformed. */
  function UndoubleQuotes(t: string): Option<string>
    decreases |t|
  {
    if |t| == 0 then Some([])
    else if t[0] == '\'' then
      if |t| >= 2 && t[1] == '\'' then
        match UndoubleQuotes(t[2..])
        case None => None
        case Some(rest) => Some("'" + rest)
      else None
    else
      match UndoubleQuotes(t[1..])
      case None => None
      case Some(rest) => Some([t[0]] + rest)
  }

  lemma {:induction false} UndoubleInvertsDouble(s: string)
    ensures UndoubleQuotes(DoubleQuotes(s)) == Some(s)
    decreases |s|
  {
    if |s| > 0 {
      var rest := DoubleQuotes(s[1..]);
      UndoubleInvertsDouble(s[1..]);
      if s[0] == '\'' {
        assert DoubleQuotes(s) == "''" + rest;
        assert DoubleQuotes(s)[2..] == rest;
      } else {
        assert DoubleQuotes(s) == [s[0]] + rest;
        assert DoubleQuotes(s)[1..] == rest;
      }
      assert s == [s[0]] + s[1..];
    }
  }

  /** Parses a complete SQL string literal (with its enclosing apostrophes). */
  function ReadSQLString(lit: string): Option<string> {
    if |lit| >= 2 && lit[0] == '\'' && lit[|lit| - 1] == '\'' then
      UndoubleQuotes(lit[1..|lit| - 1])
    else None
  }

  /** `writeSQLString`: when the input has no apostrophe it is copied as is,
      otherwise apostrophes are doubled; either way it is enclosed in
      apostrophes, and reading the literal back gives the input. */
  function SQLString(s: string): (r: string)
    ensures r == "'" + DoubleQuotes(s) + "'"
    ensures |r| == |s| + CountChar(s, '\'') + 2
    ensures ReadSQLString(r) == Some(s)
  {
    var body := if '\'' !in s then s else DoubleQuotes(s);
    var r := "'" + body + "'";
    assert r[1..|r| - 1] == DoubleQuotes(s);
    UndoubleInvertsDouble(s);
    r
  }

  /** Distinct strings give distinct literals. */
  lemma SQLStringInjective(a: string, b: string)
    requires SQLString(a) == SQLString(b)
    ensures a == b
  {
    assert ReadSQLString(SQLString(a)) == Some(a);
  }

  // ---------------------------------------------------------------------------
  // Property paths
  // ---------------------------------------------------------------------------

  /** `std::string::operator[]`: reading at the length gives the terminating
      NUL; the source only reads at most one past the end. */
  function At(s: string, i: nat): char {
    if i < |s| then s[i] else '\0'
  }

  /** Drops a leading "$." or "$" (the path root) from a property path. */
  function StripRoot(child: string): (r: string)
    ensures |r| <= |child| && r == child[|child| - |r|..]
    ensures |child| > 0 && child[0] == '$' ==> |r| < |child|
    ensures (|child| == 0 || child[0] != '$') ==> r == child
  {
    if At(child, 0) == '$' then
      if At(child, 1) == '.' then child[2..] else child[1..]
    else child
  }

  /** `appendPaths`: joins a parent path and a child path. The root marker
      is stripped from the child; an empty parent yields the child; an
      index child ("[...") is appended directly; otherwise a '.' joins them. */
  function AppendPaths(parent: string, child: string): (r: string)
    ensures parent == "" ==> r == StripRoot(child)
    ensures parent != "" ==>
      |r| == |parent| + |StripRoot(child)| + (if At(StripRoot(child), 0) == '[' then 0 else 1)
    ensures |r| >= |parent| && |r| >= |StripRoot(child)|
    ensures r[..|parent|] == parent
    ensures r[|r| - |StripRoot(child)|..] == StripRoot(child)
    ensures parent != "" && At(StripRoot(child), 0) != '[' ==> r[|parent|] == '.'
  {
    var c := StripRoot(child);
    if parent == "" then c
    else if At(c, 0) == '[' then parent + c
    else parent + "." + c
  }

  /** The separator `appendPaths` puts between a parent and a stripped child. */
  function Separator(parent: string, c: string): string {
    if parent == "" || At(c, 0) == '[' then "" else "."
  }

  lemma AppendPathsShape(parent: string, child: string)
    ensures AppendPaths(parent, child) == parent + Separator(parent, StripRoot(child)) + StripRoot(child)
  {
  }

  /** A path component that is neither rooted nor an index. */
  predicate PlainName(s: string) {
    |s| > 0 && s[0] != '$' && s[0] != '['
  }

  /** A path component that `appendPaths` accepts without rewriting it. */
  predicate Component(s: string) {
    |s| > 0 && s[0] != '$'
  }

  /** Nested path contexts compose: appending c under (a joined with b) is
      the same as appending (b joined with c) under a. */
  lemma AppendPathsAssociative(a: string, b: string, c: string)
    requires Component(b) && Component(c)
    ensures AppendPaths(AppendPaths(a, b), c) == AppendPaths(a, AppendPaths(b, c))
  {
    var ab := a + Separator(a, b) + b;
    var bc := b + Separator(b, c) + c;
    AppendPathsShape(a, b);
    AppendPathsShape(b, c);
    assert AppendPaths(a, b) == ab;
    assert AppendPaths(b, c) == bc;
    JoinedComponent(b, c);
    AppendPathsShape(ab, c);
    AppendPathsShape(a, bc);
    assert |ab| > 0;
    assert Separator(ab, c) == Separator(b, c);
    Regroup(a, Separator(a, b), b, Separator(b, c), c);
  }

  lemma Regroup(p: string, q: string, r: string, s: string, t: string)
    ensures (p + q + r) + s + t == p + q + (r + s + t)
  {
  }

  /** Joining onto a component keeps its first character, so the result is
      again a component that `appendPaths` leaves as is. */
  lemma JoinedComponent(b: string, c: string)
    requires Component(b)
    ensures var bc := b + Separator(b, c) + c; StripRoot(bc) == bc && At(bc, 0) == b[0]
  {
  }

  /** A child given with an explicit root ("$.name") lands where the bare
      name would. */
  lemma AppendRootedPath(parent: string, name: string)
    requires |name| == 0 || name[0] != '$'
    ensures AppendPaths(parent, "$." + name) == AppendPaths(parent, name)
    ensures AppendPaths(parent, "$" + name) == AppendPaths(parent, name) || (|name| > 0 && name[0] == '.')
  {
    assert StripRoot("$." + name) == name;
    if |name| == 0 || name[0] != '.' {
      assert StripRoot("$" + name) == name;
    }
  }
}
