/** `ArgumentTokenizer::tokenize` (tools/ArgumentTokenizer.cc, lines 22-76):
    splits a command line into arguments at unquoted spaces, honouring
    single and double quotes and backslash escapes, and dropping CR and LF.
    The input is a C string, so it holds no NUL; a null pointer is `None`. */
module ArgumentTokenizer {
  import opened Wrappers

  /** The loop's variables: the arguments pushed so far (`args` beyond what
      it held on entry), `nextArg`, `quoteChar` ('\0' when none),
      `inQuote` and `forceAppend`. */
  datatype Scanner = Scanner(args: seq<string>, next: string, quote: char, inQuote: bool, force: bool)

  const Start := Scanner([], [], '\0', false, false)

  predicate IsQuote(c: char) {
    c == '"' || c == '\''
  }

  predicate IsLineBreak(c: char) {
    c == '\r' || c == '\n'
  }

  /** One iteration of the loop on character c. */
  function Step(st: Scanner, c: char): Scanner {
    if IsLineBreak(c) then st
    else if !st.force then
      if c == '\\' then st.(force := true)
      else if IsQuote(c) then
        if st.quote != '\0' && c == st.quote then st.(inQuote := false, quote := '\0')
        else if st.quote == '\0' then st.(inQuote := true, quote := c)
        else st.(next := st.next + [c])
      else if c == ' ' && !st.inQuote then st.(args := st.args + [st.next], next := [])
      else st.(next := st.next + [c])
    else st.(force := false, next := st.next + [c])
  }

  /** The loop run over a whole string. */
  function Scan(st: Scanner, s: string): Scanner
    decreases |s|
  {
    if |s| == 0 then st else Step(Scan(st, s[..|s| - 1]), s[|s| - 1])
  }

  /** After the loop: an open quote or a dangling backslash fails, keeping
      the arguments already pushed; otherwise a non-empty last argument is
      pushed. */
  function Finish(st: Scanner): (r: (bool, seq<string>))
    ensures r.0 <==> !st.inQuote && !st.force
    ensures r.1 == st.args + (if r.0 && |st.next| > 0 then [st.next] else [])
  {
    if st.inQuote || st.force then (false, st.args)
    else (true, st.args + (if |st.next| > 0 then [st.next] else []))
  }

  /** The result `tokenize` gives: whether it succeeded, and what `args`
      holds afterwards. */
  function TokenizeResult(input: Option<string>, args: seq<string>): (r: (bool, seq<string>))
    ensures input.None? ==> r == (false, args)
    ensures |r.1| >= |args| && r.1[..|args|] == args
  {
    match input
    case None => (false, args)
    case Some(s) =>
      var f := Finish(Scan(Start, s));
      assert (args + f.1)[..|args|] == args;
      (f.0, args + f.1)
  }

  /** `tokenize` as the source writes it: one pass over the characters. */
  method Tokenize(input: Option<string>, args: seq<string>) returns (ok: bool, out: seq<string>)
    requires input.Some? ==> '\0' !in input.value
    ensures (ok, out) == TokenizeResult(input, args)
    ensures input.None? ==> !ok && out == args
    ensures out[..|args|] == args
  {
    if input.None? {
      return false, args;
    }
    var s := input.value;
    var quoteChar := '\0';
    var inQuote := false;
    var forceAppend := false;
    var nextArg: string := [];
    out := args;
    var i := 0;
    while i < |s|
      invariant 0 <= i <= |s|
      invariant |out| >= |args| && out[..|args|] == args
      invariant Scan(Start, s[..i]) == Scanner(out[|args|..], nextArg, quoteChar, inQuote, forceAppend)
    {
      var c := s[i];
      assert s[..i + 1][..i] == s[..i];
      i := i + 1;
      if c == '\r' || c == '\n' {
        continue;
      }
      if !forceAppend {
        if c == '\\' {
          forceAppend := true;
          continue;
        } else if c == '"' || c == '\'' {
          if quoteChar != '\0' && c == quoteChar {
            inQuote := false;
            quoteChar := '\0';
            continue;
          } else if quoteChar == '\0' {
            inQuote := true;
            quoteChar := c;
            continue;
          }
        } else if c == ' ' && !inQuote {
          assert (out + [nextArg])[|args|..] == out[|args|..] + [nextArg];
          out := out + [nextArg];
          nextArg := [];
          continue;
        }
      } else {
        forceAppend := false;
      }
      nextArg := nextArg + [c];
    }
    assert s[..|s|] == s;
    assert out == args + out[|args|..];
    if inQuote || forceAppend {
      return false, out;
    }
    if |nextArg| > 0 {
      assert (out + [nextArg])[|args|..] == out[|args|..] + [nextArg];
      out := out + [nextArg];
    }
    ok := true;
    assert out[|args|..] == Finish(Scan(Start, s)).1;
    assert out == args + out[|args|..];
  }

  // ---------------------------------------------------------------------------
  // Properties
  // ---------------------------------------------------------------------------

  lemma {:induction false} ScanAppend(st: Scanner, a: string, b: string)
    ensures Scan(st, a + b) == Scan(Scan(st, a), b)
    decreases |b|
  {
    if |b| == 0 {
      assert a + b == a;
    } else {
      assert (a + b)[..|a + b| - 1] == a + b[..|b| - 1];
      ScanAppend(st, a, b[..|b| - 1]);
    }
  }

  lemma ScanSnoc(st: Scanner, s: string, c: char)
    ensures Scan(st, s + [c]) == Step(Scan(st, s), c)
  {
    assert (s + [c])[..|s|] == s;
  }

  predicate NoLineBreak(t: string) {
    forall i :: 0 <= i < |t| ==> !IsLineBreak(t[i])
  }

  predicate Clean(st: Scanner) {
    NoLineBreak(st.next) && forall k :: 0 <= k < |st.args| ==> NoLineBreak(st.args[k])
  }

  /** No argument ever contains CR or LF: they are dropped wherever they
      occur, even right after a backslash. */
  lemma {:induction false} ScanDropsLineBreaks(st: Scanner, s: string)
    requires Clean(st)
    ensures Clean(Scan(st, s))
    decreases |s|
  {
    if |s| > 0 {
      ScanDropsLineBreaks(st, s[..|s| - 1]);
    }
  }

  /** A CR or LF changes nothing, so a pending escape applies to the next
      character. */
  lemma LineBreakSkipped(st: Scanner, c: char, d: char)
    requires IsLineBreak(c)
    ensures Scan(st, [c, d]) == Step(st, d)
  {
    ScanSnoc(st, [], c);
    ScanSnoc(st, [c], d);
    assert [] + [c] == [c] && [c] + [d] == [c, d];
  }

  /** The arguments `tokenize` produces never contain CR or LF. */
  lemma TokensHaveNoLineBreaks(input: Option<string>, args: seq<string>)
    requires forall k :: 0 <= k < |args| ==> NoLineBreak(args[k])
    ensures var r := TokenizeResult(input, args); forall k :: 0 <= k < |r.1| ==> NoLineBreak(r.1[k])
  {
    if input.Some? {
      ScanDropsLineBreaks(Start, input.value);
    }
  }

  /** "a  b": each unquoted space ends an argument, even an empty one. */
  lemma EmptyArgumentBetweenSpaces()
    ensures TokenizeResult(Some("a  b"), []) == (true, ["a", "", "b"])
  {
    ScanSnoc(Start, [], 'a');
    ScanSnoc(Start, "a", ' ');
    ScanSnoc(Start, "a ", ' ');
    ScanSnoc(Start, "a  ", 'b');
    assert [] + ['a'] == "a" && "a" + [' '] == "a " && "a " + [' '] == "a  " && "a  " + ['b'] == "a  b";
    assert Scan(Start, "a  b") == Scanner(["a", ""], "b", '\0', false, false);
    assert Finish(Scan(Start, "a  b")) == (true, ["a", ""] + ["b"]);
    assert [] + (["a", ""] + ["b"]) == ["a", "", "b"];
  }

  /** An unterminated quote fails, keeping the arguments before it. */
  lemma UnterminatedQuoteFails()
    ensures TokenizeResult(Some("x 'y"), []) == (false, ["x"])
  {
    ScanSnoc(Start, [], 'x');
    ScanSnoc(Start, "x", ' ');
    ScanSnoc(Start, "x ", '\'');
    ScanSnoc(Start, "x '", 'y');
    assert [] + ['x'] == "x" && "x" + [' '] == "x " && "x " + ['\''] == "x '" && "x '" + ['y'] == "x 'y";
    assert Scan(Start, "x 'y") == Scanner(["x"], "y", '\'', true, false);
  }

  /** After a backslash, the next character other than CR or LF is taken
      literally, whatever it is; the backslash itself is not kept. */
  lemma EscapedCharacterLiteral(st: Scanner, c: char)
    requires !st.force && !IsLineBreak(c)
    ensures Scan(st, ['\\', c]) == st.(next := st.next + [c])
  {
    ScanSnoc(st, [], '\\');
    ScanSnoc(st, ['\\'], c);
    assert [] + ['\\'] == ['\\'] && ['\\'] + [c] == ['\\', c];
  }

  /** Inside a quote, characters other than the closing quote, a backslash
      or a line break are kept as they are, spaces and the other quote
      character included. */
  lemma {:induction false} ScanInsideQuote(st: Scanner, t: string)
    requires st.inQuote && st.quote != '\0' && !st.force
    requires forall i :: 0 <= i < |t| ==> t[i] != st.quote && t[i] != '\\' && !IsLineBreak(t[i])
    ensures Scan(st, t) == st.(next := st.next + t)
    decreases |t|
  {
    if |t| > 0 {
      ScanInsideQuote(st, t[..|t| - 1]);
      AppendInitThenLast(st.next, t);
    }
  }

  /** A quoted argument is given back without its quotes. */
  lemma QuotedArgument(q: char, t: string)
    requires IsQuote(q) && |t| > 0
    requires forall i :: 0 <= i < |t| ==> t[i] != q && t[i] != '\\' && !IsLineBreak(t[i])
    ensures TokenizeResult(Some([q] + t + [q]), []) == (true, [t])
  {
    var quoting := Scanner([], [], q, true, false);
    var st := Scan(Start, [q] + t + [q]);
    assert st == Scanner([], t, '\0', false, false) by {
      ScanSnoc(Start, [], q);
      assert [] + [q] == [q];
      ScanInsideQuote(quoting, t);
      ScanAppend(Start, [q], t);
      ScanSnoc(Start, [q] + t, q);
    }
    assert [] + [t] == [t];
    assert Finish(st) == (true, [t]);
  }

  // ---------------------------------------------------------------------------
  // Quoting arguments so that tokenize gives them back
  // ---------------------------------------------------------------------------

  /** The characters `tokenize` treats specially outside an escape. */
  predicate Special(c: char) {
    c == '\\' || IsQuote(c) || c == ' '
  }

  /** How many characters of t are special. */
  function SpecialCount(t: string): nat
    decreases |t|
  {
    if |t| == 0 then 0 else SpecialCount(t[..|t| - 1]) + (if Special(t[|t| - 1]) then 1 else 0)
  }

  /** Escapes one argument: a backslash before every special character. */
  function Escape(t: string): (r: string)
    ensures |r| >= |t|
    ensures |r| == |t| + SpecialCount(t)
    decreases |t|
  {
    if |t| == 0 then []
    else Escape(t[..|t| - 1]) + (if Special(t[|t| - 1]) then ['\\', t[|t| - 1]] else [t[|t| - 1]])
  }

  /** Joins escaped arguments with single spaces. */
  function Join(ts: seq<string>): string
    decreases |ts|
  {
    if |ts| == 0 then []
    else if |ts| == 1 then Escape(ts[0])
    else Join(ts[..|ts| - 1]) + " " + Escape(ts[|ts| - 1])
  }

  /** Outside quotes and escapes, scanning an escaped argument appends the
      argument itself to the current one. */
  lemma {:induction false} ScanEscaped(st: Scanner, t: string)
    requires !st.force && !st.inQuote && st.quote == '\0' && NoLineBreak(t)
    ensures Scan(st, Escape(t)) == st.(next := st.next + t)
    decreases |t|
  {
    if |t| > 0 {
      var init := t[..|t| - 1];
      var c := t[|t| - 1];
      ScanEscaped(st, init);
      var mid := st.(next := st.next + init);
      var tail := if Special(c) then ['\\', c] else [c];
      ScanAppend(st, Escape(init), tail);
      ScanEscapedChar(mid, c);
      AppendInitThenLast(st.next, t);
    }
  }

  /** Outside quotes and escapes, one escaped character is appended to the
      current argument. */
  lemma ScanEscapedChar(st: Scanner, c: char)
    requires !st.force && !st.inQuote && st.quote == '\0' && !IsLineBreak(c)
    ensures Scan(st, if Special(c) then ['\\', c] else [c]) == st.(next := st.next + [c])
  {
    if Special(c) {
      EscapedCharacterLiteral(st, c);
    } else {
      ScanSnoc(st, [], c);
      assert [] + [c] == [c];
    }
  }

  /** Scanning the joined arguments ends with all but the last pushed and
      the last one pending. */
  lemma {:induction false} ScanJoined(ts: seq<string>)
    requires |ts| >= 1
    requires forall k :: 0 <= k < |ts| ==> NoLineBreak(ts[k])
    ensures Scan(Start, Join(ts)) == Scanner(ts[..|ts| - 1], ts[|ts| - 1], '\0', false, false)
    decreases |ts|
  {
    if |ts| == 1 {
      ScanEscaped(Start, ts[0]);
    } else {
      var init := ts[..|ts| - 1];
      assert init[..|init| - 1] == ts[..|ts| - 2];
      ScanJoined(init);
      ScanJoinedStep(init, ts[|ts| - 1]);
    }
  }

  /** One more argument after the joined ones: the space pushes the
      pending argument and the escaped one becomes pending. */
  lemma ScanJoinedStep(init: seq<string>, last: string)
    requires |init| >= 1 && NoLineBreak(last)
    requires Scan(Start, Join(init)) == Scanner(init[..|init| - 1], init[|init| - 1], '\0', false, false)
    ensures Scan(Start, Join(init) + " " + Escape(last)) == Scanner(init, last, '\0', false, false)
  {
    var mid := Scan(Start, Join(init));
    var pushed := Scanner(init, [], '\0', false, false);
    ScanAppend(Start, Join(init), " ");
    ScanSpace(mid);
    InitThenLast(init);
    assert Scan(Start, Join(init) + " ") == pushed;
    ScanAppend(Start, Join(init) + " ", Escape(last));
    ScanEscaped(pushed, last);
    assert [] + last == last;
  }

  /** An unquoted, unescaped space pushes the pending argument. */
  lemma ScanSpace(st: Scanner)
    requires !st.force && !st.inQuote
    ensures Scan(st, " ") == st.(args := st.args + [st.next], next := [])
  {
    assert " "[..0] == [];
  }

  /** Tokenizing the escaped, space-joined form of non-empty arguments
      without CR or LF gives the arguments back. */
  lemma TokenizeJoin(ts: seq<string>)
    requires forall k :: 0 <= k < |ts| ==> |ts[k]| > 0 && NoLineBreak(ts[k])
    ensures TokenizeResult(Some(Join(ts)), []) == (true, ts)
  {
    TokenizeScanned(Join(ts));
    assert Finish(Scan(Start, Join(ts))) == (true, ts) by {
      if |ts| > 0 {
        ScanJoined(ts);
        FinishPending(ts[..|ts| - 1], ts[|ts| - 1]);
        InitThenLast(ts);
      } else {
        assert Join(ts) == [];
      }
    }
  }

  lemma AppendInitThenLast(a: string, t: string)
    requires |t| > 0
    ensures a + t[..|t| - 1] + [t[|t| - 1]] == a + t
  {
    assert t[..|t| - 1] + [t[|t| - 1]] == t;
  }

  lemma InitThenLast(ts: seq<string>)
    requires |ts| > 0
    ensures ts[..|ts| - 1] + [ts[|ts| - 1]] == ts
  {
  }

  /** With no earlier arguments, `tokenize` gives what the scan finishes
      with. */
  lemma TokenizeScanned(s: string)
    ensures TokenizeResult(Some(s), []) == Finish(Scan(Start, s))
  {
    var f := Finish(Scan(Start, s));
    assert [] + f.1 == f.1;
  }

  /** A scan that ends outside quotes and escapes with a non-empty pending
      argument succeeds and pushes it. */
  lemma FinishPending(args: seq<string>, last: string)
    requires |last| > 0
    ensures Finish(Scanner(args, last, '\0', false, false)) == (true, args + [last])
  {
  }
}
