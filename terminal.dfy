/**
 * The line-based command loop of src/terminal.c: trimming a line read into
 * a NUL-terminated buffer, tokenising it on spaces and tabs into at most
 * TERM_MAX_ARGS arguments, looking the first one up in the command table,
 * and keeping the most recent non-zero handler result. The lines come in
 * as a sequence (what getline returned, one per call, until end of input)
 * and the handlers as a function from the call number, the table index
 * and the arguments to the value the handler returns.
 */
module Terminal {
  import opened Wrappers
  import opened Strings

  /** TERM_MAX_ARGS, src/terminal.h line 10. */
  const TermMaxArgs: nat := 16

  // ---------------------------------------------------------------------
  // C strings

  /** strlen: the position of the first NUL, or the whole buffer when there is none. */
  function CLen(a: seq<char>): (n: nat)
    ensures n <= |a|
    ensures forall j :: 0 <= j < n ==> !CharAt(a, j, '\0')
    ensures n < |a| ==> a[n] == '\0'
  {
    FindChar(a, '\0', 0)
  }

  /** The string a NUL-terminated buffer holds. */
  function CStr(a: seq<char>): string {
    a[..CLen(a)]
  }

  /** A buffer whose first NUL is at `n` holds its first `n` characters. */
  lemma CLenAt(a: seq<char>, n: nat)
    requires n < |a| && a[n] == '\0'
    requires forall j :: 0 <= j < n ==> a[j] != '\0'
    ensures CLen(a) == n
  {
    FindCharAt(a, '\0', 0, n);
  }

  predicate IsLineEnd(c: char) {
    c == '\n' || c == '\r'
  }

  /** A line without its maximal run of trailing '\n' and '\r'. */
  function TrimNewlines(s: string): string {
    TrimRight(s, {'\n', '\r'})
  }

  function Nuls(n: nat): (r: seq<char>)
    ensures |r| == n && forall j :: 0 <= j < n ==> r[j] == '\0'
  {
    seq(n, j => '\0')
  }

  /**
   * The buffer after trim_newline: NULs over the trailing '\n' and '\r' of
   * the string, everything else as it was.
   */
  function TrimmedBuffer(a: seq<char>): seq<char> {
    var n := CLen(a);
    var m := |TrimNewlines(a[..n])|;
    a[..m] + Nuls(n - m) + a[n..]
  }

  /**
   * trim_newline: walks back from strlen(s) over '\n' and '\r', writing a
   * NUL over each. The buffer must hold a terminated string.
   */
  method TrimNewline(s: array<char>)
    requires CLen(s[..]) < s.Length
    modifies s
    ensures s[..] == TrimmedBuffer(old(s[..]))
    ensures CStr(s[..]) == TrimNewlines(CStr(old(s[..])))
  {
    ghost var a := s[..];
    ghost var n := CLen(a);
    var i := CLen(s[..]);
    while i > 0 && (s[i - 1] == '\n' || s[i - 1] == '\r')
      invariant 0 <= i <= n
      invariant s.Length == |a|
      invariant forall j :: 0 <= j < s.Length ==> s[j] == if i <= j < n then '\0' else a[j]
      invariant forall j :: i <= j < n ==> a[j] in {'\n', '\r'}
    {
      i := i - 1;
      s[i] := '\0';
    }
    TrimStop(a, s[..], i);
    TrimmedBufferCStr(a);
  }

  /** Where trim_newline stops, the buffer is the trimmed buffer. */
  lemma TrimStop(a: seq<char>, b: seq<char>, i: nat)
    requires CLen(a) < |a| && i <= CLen(a)
    requires i == 0 || a[i - 1] !in {'\n', '\r'}
    requires forall j :: i <= j < CLen(a) ==> a[j] in {'\n', '\r'}
    requires |b| == |a| && forall j :: 0 <= j < |b| ==> b[j] == if i <= j < CLen(a) then '\0' else a[j]
    ensures b == TrimmedBuffer(a)
  {
    var n := CLen(a);
    TrimRightUnique(a[..n], {'\n', '\r'}, i);
    assert a[..n][..i] == a[..i];
    NulRun(a, b, i, n);
  }

  /** The trimmed buffer holds the trimmed string. */
  lemma TrimmedBufferCStr(a: seq<char>)
    requires CLen(a) < |a|
    ensures CStr(TrimmedBuffer(a)) == TrimNewlines(CStr(a))
  {
    var n := CLen(a);
    var t := TrimNewlines(a[..n]);
    var m := |t|;
    assert t == a[..m] by {
      assert t == a[..n][..m];
    }
    var b := TrimmedBuffer(a);
    assert b == a[..m] + Nuls(n - m) + a[n..];
    assert b[m] == '\0';
    forall j | 0 <= j < m
      ensures b[j] != '\0'
    {
      assert b[j] == a[j] && !CharAt(a, j, '\0');
    }
    CLenAt(b, m);
    assert b[..m] == a[..m];
  }

  /** A buffer equal to `a` except for NULs over [i, n). */
  lemma NulRun(a: seq<char>, b: seq<char>, i: nat, n: nat)
    requires i <= n <= |a| == |b|
    requires forall j :: 0 <= j < |b| ==> b[j] == if i <= j < n then '\0' else a[j]
    ensures b == a[..i] + Nuls(n - i) + a[n..]
  {
    var c := a[..i] + Nuls(n - i) + a[n..];
    assert forall j :: 0 <= j < |b| ==> b[j] == c[j];
  }

  /** After the trim the line ends in neither '\n' nor '\r'. */
  lemma TrimNewlinesEnd(s: string)
    ensures var r := TrimNewlines(s); r == [] || !IsLineEnd(r[|r| - 1])
  {
  }

  /** Trimming an already trimmed line changes nothing. */
  lemma TrimNewlinesIdempotent(s: string)
    ensures TrimNewlines(TrimNewlines(s)) == TrimNewlines(s)
  {
    TrimRightIdempotent(s, {'\n', '\r'});
  }

  // ---------------------------------------------------------------------
  // Command table

  /** One entry of the table; a NULL name is None. The handler is the entry's index. */
  datatype TermCmd = TermCmd(name: Option<string>, help: Option<string>)

  predicate Names(c: TermCmd, name: string) {
    c.name == Some(name)
  }

  /** The first of the first `ncmds` entries named `name`. */
  function CmdIndex(cmds: seq<TermCmd>, ncmds: int, name: string): (r: Option<nat>)
    requires ncmds <= |cmds|
    ensures r.Some? ==> r.value < ncmds && Names(cmds[r.value], name)
    ensures r.Some? ==> forall j :: 0 <= j < r.value ==> !Names(cmds[j], name)
    ensures r.None? ==> forall j :: 0 <= j < ncmds ==> !Names(cmds[j], name)
    decreases ncmds
  {
    if ncmds <= 0 then None
    else match CmdIndex(cmds, ncmds - 1, name)
      case Some(i) => Some(i)
      case None => if Names(cmds[ncmds - 1], name) then Some(ncmds - 1) else None
  }

  /**
   * terminal_find_cmd: the index of the first of the first `ncmds` entries
   * whose name is non-NULL and equal to `name`, or -1.
   */
  method FindCmd(cmds: seq<TermCmd>, ncmds: int, name: string) returns (idx: int)
    requires ncmds <= |cmds|
    ensures -1 <= idx && idx < if ncmds < 0 then 0 else ncmds
    ensures idx >= 0 ==> Names(cmds[idx], name) && forall j :: 0 <= j < idx ==> !Names(cmds[j], name)
    ensures idx == -1 <==> forall j :: 0 <= j < ncmds ==> !Names(cmds[j], name)
  {
    var i := 0;
    while i < ncmds
      invariant 0 <= i <= if ncmds < 0 then 0 else ncmds
      invariant forall j :: 0 <= j < i ==> !Names(cmds[j], name)
    {
      if cmds[i].name.Some? && cmds[i].name.value == name {
        return i;
      }
      i := i + 1;
    }
    return -1;
  }

  /** The method and the function agree. */
  lemma FindCmdIndex(cmds: seq<TermCmd>, ncmds: int, name: string, idx: int)
    requires ncmds <= |cmds|
    requires -1 <= idx && idx < if ncmds < 0 then 0 else ncmds
    requires idx >= 0 ==> Names(cmds[idx], name) && forall j :: 0 <= j < idx ==> !Names(cmds[j], name)
    requires idx == -1 <==> forall j :: 0 <= j < ncmds ==> !Names(cmds[j], name)
    ensures idx == match CmdIndex(cmds, ncmds, name) case None => -1 case Some(i) => i as int
  {
  }

  // ---------------------------------------------------------------------
  // Tokens

  /** strtok_r's delimiters " \t". */
  predicate IsDelim(c: char) {
    c == ' ' || c == '\t'
  }

  predicate IsWordChar(c: char) {
    !IsDelim(c)
  }

  /** A string of one or more characters that are not delimiters. */
  predicate IsWord(w: string) {
    w != [] && forall j :: 0 <= j < |w| ==> IsWordChar(w[j])
  }

  /** Every token strtok_r returns from `p` on: the maximal runs of non-delimiters. */
  function TokensFrom(s: string, p: nat): seq<string>
    requires p <= |s|
    decreases |s| - p
  {
    var i := SpanEnd(s, p, IsDelim);
    if i == |s| then []
    else
      var j := SpanEnd(s, i, IsWordChar);
      [s[i..j]] + TokensFrom(s, j)
  }

  /** Every token is a non-empty run of non-delimiters. */
  lemma {:induction false} TokensAreWords(s: string, p: nat)
    requires p <= |s|
    ensures forall k :: 0 <= k < |TokensFrom(s, p)| ==> IsWord(TokensFrom(s, p)[k])
    decreases |s| - p
  {
    var i := SpanEnd(s, p, IsDelim);
    if i < |s| {
      var j := SpanEnd(s, i, IsWordChar);
      SpanEndAll(s, i, IsWordChar);
      TokensFromNext(s, p, i, j);
      TokensAreWords(s, j);
      assert IsWord(s[i..j]);
    }
  }

  function Tokens(s: string): seq<string> {
    TokensFrom(s, 0)
  }

  function Take<T>(xs: seq<T>, n: nat): (r: seq<T>)
    ensures |r| <= n && |r| <= |xs| && r == xs[..|r|]
    ensures |xs| <= n ==> r == xs
  {
    if |xs| <= n then xs else xs[..n]
  }

  /**
   * One strtok_r call from position `p`: the token starts after the
   * delimiters there and ends at the next delimiter or the end; `i` is the
   * length of the line when only delimiters are left.
   */
  method NextToken(line: string, p: nat) returns (i: nat, j: nat)
    requires p <= |line|
    ensures i == SpanEnd(line, p, IsDelim)
    ensures i < |line| ==> j == SpanEnd(line, i, IsWordChar) && i < j
  {
    i := p;
    while i < |line| && IsDelim(line[i])
      invariant p <= i <= |line|
      invariant SpanEnd(line, i, IsDelim) == SpanEnd(line, p, IsDelim)
    {
      i := i + 1;
    }
    j := i;
    while j < |line| && !IsDelim(line[j])
      invariant i <= j <= |line|
      invariant SpanEnd(line, j, IsWordChar) == SpanEnd(line, i, IsWordChar)
    {
      j := j + 1;
    }
  }

  /**
   * The strtok_r loop of terminal_run: tokens in order until there are no
   * more or TERM_MAX_ARGS have been taken; the rest are dropped.
   */
  method Tokenize(line: string) returns (argv: seq<string>)
    ensures argv == Take(Tokens(line), TermMaxArgs)
  {
    argv := [];
    var p := 0;
    while |argv| < TermMaxArgs
      invariant p <= |line|
      invariant |argv| <= TermMaxArgs
      invariant argv + TokensFrom(line, p) == Tokens(line)
      decreases |line| - p
    {
      var i, j := NextToken(line, p);
      if i == |line| {
        break;
      }
      assert TokensFrom(line, p) == [line[i..j]] + TokensFrom(line, j);
      AppendAssoc(argv, [line[i..j]], TokensFrom(line, j));
      argv := argv + [line[i..j]];
      p := j;
    }
    if |argv| < TermMaxArgs {
      assert TokensFrom(line, p) == [];
      assert argv == Tokens(line);
    } else {
      assert Tokens(line)[..|argv|] == argv;
    }
  }

  /** Tokens read from inside the right part of `a + b` are tokens of `b`. */
  lemma {:induction false} TokensShift(a: string, b: string, k: nat, p: nat)
    requires k <= |b| && p == |a| + k
    ensures TokensFrom(a + b, p) == TokensFrom(b, k)
    decreases |b| - k
  {
    SpanEndShift(a, b, IsDelim, k, p);
    var i := SpanEnd(b, k, IsDelim);
    if i == |b| {
      TokensFromEnd(a + b, p);
      TokensFromEnd(b, k);
    } else {
      var j := SpanEnd(b, i, IsWordChar);
      TokensShiftNext(a, b, k, p, i, j);
      TokensShift(a, b, j, |a| + j);
    }
  }

  /** One token of `b`, read both from `b` and from inside `a + b`. */
  lemma TokensShiftNext(a: string, b: string, k: nat, p: nat, i: nat, j: nat)
    requires k <= |b| && p == |a| + k
    requires i == SpanEnd(b, k, IsDelim) && i < |b| && j == SpanEnd(b, i, IsWordChar)
    ensures TokensFrom(a + b, p) == [b[i..j]] + TokensFrom(a + b, |a| + j)
    ensures TokensFrom(b, k) == [b[i..j]] + TokensFrom(b, j)
  {
    var s := a + b;
    SpanEndShift(a, b, IsDelim, k, p);
    SpanEndShift(a, b, IsWordChar, i, |a| + i);
    SliceShift(a, b, i, j, |a| + i, |a| + j);
    TokensFromNext(s, p, |a| + i, |a| + j);
    TokensFromNext(b, k, i, j);
  }

  /** No token is left when only delimiters remain. */
  lemma TokensFromEnd(s: string, p: nat)
    requires p <= |s| && SpanEnd(s, p, IsDelim) == |s|
    ensures TokensFrom(s, p) == []
  {
  }

  /** The next token runs from the end of the delimiters to the next delimiter. */
  lemma TokensFromNext(s: string, p: nat, i: nat, j: nat)
    requires p <= |s| && i == SpanEnd(s, p, IsDelim) && i < |s|
    requires j == SpanEnd(s, i, IsWordChar)
    ensures TokensFrom(s, p) == [s[i..j]] + TokensFrom(s, j)
  {
  }

  /** A word followed by the end or a delimiter is read as one token. */
  lemma WordToken(w: string, rest: string)
    requires IsWord(w)
    requires rest != [] ==> IsDelim(rest[0])
    ensures TokensFrom(w + rest, 0) == [w] + TokensFrom(w + rest, |w|)
  {
    var s := w + rest;
    assert s[0] == w[0];
    SpanEndAt(s, 0, IsDelim, 0);
    SpanEndAt(s, 0, IsWordChar, |w|);
    assert s[..|w|] == w;
  }

  /** A word, a space and more text: the word, then the tokens of the text. */
  lemma JoinStep(w: string, rest: string)
    requires IsWord(w)
    ensures Tokens(w + (" " + rest)) == [w] + Tokens(rest)
  {
    var s := w + (" " + rest);
    WordToken(w, " " + rest);
    assert s[|w|] == ' ';
    assert SpanEnd(s, |w|, IsDelim) == SpanEnd(s, |w| + 1, IsDelim);
    assert TokensFrom(s, |w|) == TokensFrom(s, |w| + 1);
    assert s == (w + " ") + rest;
    TokensShift(w + " ", rest, 0, |w| + 1);
  }

  /** Words joined with single spaces tokenise back to the words. */
  lemma {:induction false} TokensJoin(ws: seq<string>)
    requires forall k :: 0 <= k < |ws| ==> IsWord(ws[k])
    ensures Tokens(Join(ws, " ")) == ws
    decreases |ws|
  {
    if |ws| == 1 {
      WordToken(ws[0], []);
      assert ws[0] + [] == ws[0];
      SpanEndAt(ws[0], |ws[0]|, IsDelim, |ws[0]|);
    } else if |ws| > 1 {
      assert Join(ws, " ") == ws[0] + (" " + Join(ws[1..], " "));
      JoinStep(ws[0], Join(ws[1..], " "));
      TokensJoin(ws[1..]);
      assert ws == [ws[0]] + ws[1..];
    }
  }

  // ---------------------------------------------------------------------
  // terminal_run

  /** What terminal_run does with one line. */
  datatype Action = Skip | Exit | Unknown(name: string) | Call(index: nat, argv: seq<string>)

  /** A line of nothing but isspace() characters. */
  predicate IsBlank(s: string) {
    SpanEnd(s, 0, IsCSpace) == |s|
  }

  /** The text terminal_run works on: the C string of the line, newline trimmed. */
  function LineText(line: string): string {
    TrimNewlines(CStr(line))
  }

  function StepOf(text: string, cmds: seq<TermCmd>, ncmds: int): (a: Action)
    requires ncmds <= |cmds|
    ensures a.Call? ==> 1 <= |a.argv| <= TermMaxArgs && a.index < ncmds
    ensures a.Call? ==> forall k :: 0 <= k < |a.argv| ==> IsWord(a.argv[k])
    ensures a.Call? ==> Names(cmds[a.index], a.argv[0]) && a.argv[0] != "exit" && a.argv[0] != "quit"
  {
    if IsBlank(text) then Skip
    else
      TokensAreWords(text, 0);
      var argv := Take(Tokens(text), TermMaxArgs);
      if argv == [] then Skip
      else if argv[0] == "exit" || argv[0] == "quit" then Exit
      else match CmdIndex(cmds, ncmds, argv[0])
        case None => Unknown(argv[0])
        case Some(i) => Call(i, argv)
  }

  /** The handler calls terminal_run makes from line `i` on, until `exit`, `quit` or the end of input. */
  function CallsFrom(lines: seq<string>, i: nat, cmds: seq<TermCmd>, ncmds: int): seq<(nat, seq<string>)>
    requires i <= |lines| && ncmds <= |cmds|
    decreases |lines| - i
  {
    if i == |lines| then []
    else match StepOf(LineText(lines[i]), cmds, ncmds)
      case Exit => []
      case Call(idx, argv) => [(idx, argv)] + CallsFrom(lines, i + 1, cmds, ncmds)
      case _ => CallsFrom(lines, i + 1, cmds, ncmds)
  }

  function Calls(lines: seq<string>, cmds: seq<TermCmd>, ncmds: int): seq<(nat, seq<string>)>
    requires ncmds <= |cmds|
  {
    CallsFrom(lines, 0, cmds, ncmds)
  }

  /** What the handlers return, call by call. */
  function Results(calls: seq<(nat, seq<string>)>, handler: (nat, nat, seq<string>) -> int): (rs: seq<int>)
    ensures |rs| == |calls|
  {
    seq(|calls|, k requires 0 <= k < |calls| => handler(k, calls[k].0, calls[k].1))
  }

  /** The most recent non-zero value, or 0 when there is none. */
  function LastNonZero(rs: seq<int>): int
    decreases |rs|
  {
    if rs == [] then 0
    else if rs[|rs| - 1] != 0 then rs[|rs| - 1]
    else LastNonZero(rs[..|rs| - 1])
  }

  /** LastNonZero is 0 exactly when every value is 0, and otherwise a value with only zeros after it. */
  lemma {:induction false} LastNonZeroIsLast(rs: seq<int>)
    ensures LastNonZero(rs) == 0 ==> forall k :: 0 <= k < |rs| ==> rs[k] == 0
    ensures LastNonZero(rs) != 0 ==>
      exists k :: 0 <= k < |rs| && rs[k] == LastNonZero(rs) && forall j :: k < j < |rs| ==> rs[j] == 0
    decreases |rs|
  {
    if rs != [] && rs[|rs| - 1] == 0 {
      var init := rs[..|rs| - 1];
      LastNonZeroIsLast(init);
      if LastNonZero(rs) != 0 {
        var k :| 0 <= k < |init| && init[k] == LastNonZero(init) && forall j :: k < j < |init| ==> init[j] == 0;
        assert rs[k] == LastNonZero(rs);
      }
    }
  }

  /** The line handling of terminal_run: a NUL-terminated copy, trimmed in place. */
  method ReadLine(line: string) returns (text: string)
    ensures text == LineText(line)
  {
    var buf := new char[|line| + 1](j requires 0 <= j <= |line| => if j < |line| then line[j] else '\0');
    assert buf[..] == line + ['\0'];
    assert CStr(buf[..]) == CStr(line) by {
      var n := CLen(line);
      forall j | 0 <= j < n
        ensures buf[..][j] != '\0'
      {
        assert !CharAt(line, j, '\0');
      }
      CLenAt(buf[..], n);
      assert buf[..][..n] == line[..n];
    }
    TrimNewline(buf);
    text := buf[..CLen(buf[..])];
  }

  /** The blank-line skip, the tokeniser, the `exit`/`quit` test and the table lookup. */
  method Classify(text: string, cmds: seq<TermCmd>, ncmds: int) returns (a: Action)
    requires ncmds <= |cmds|
    ensures a == StepOf(text, cmds, ncmds)
  {
    var p := 0;
    while p < |text| && IsCSpace(text[p])
      invariant p <= |text|
      invariant SpanEnd(text, p, IsCSpace) == SpanEnd(text, 0, IsCSpace)
    {
      p := p + 1;
    }
    if p == |text| {
      return Skip;
    }
    var argv := Tokenize(text);
    if |argv| == 0 {
      return Skip;
    }
    if argv[0] == "exit" || argv[0] == "quit" {
      return Exit;
    }
    var idx := FindCmd(cmds, ncmds, argv[0]);
    FindCmdIndex(cmds, ncmds, argv[0], idx);
    if idx >= 0 {
      return Call(idx, argv);
    }
    return Unknown(argv[0]);
  }

  /** One more handler result: the running value changes only when it is not zero. */
  lemma ResultsSnoc(done: seq<(nat, seq<string>)>, c: (nat, seq<string>), handler: (nat, nat, seq<string>) -> int)
    ensures var r := handler(|done|, c.0, c.1);
      LastNonZero(Results(done + [c], handler)) == if r != 0 then r else LastNonZero(Results(done, handler))
  {
    assert Results(done + [c], handler) == Results(done, handler) + [handler(|done|, c.0, c.1)];
    assert (Results(done, handler) + [handler(|done|, c.0, c.1)])[..|done|] == Results(done, handler);
  }

  /** The calls from line `i` on, by what line `i` does. */
  lemma CallsFromStep(lines: seq<string>, i: nat, cmds: seq<TermCmd>, ncmds: int)
    requires i < |lines| && ncmds <= |cmds|
    ensures CallsFrom(lines, i, cmds, ncmds) == match StepOf(LineText(lines[i]), cmds, ncmds)
      case Exit => []
      case Call(idx, argv) => [(idx, argv)] + CallsFrom(lines, i + 1, cmds, ncmds)
      case _ => CallsFrom(lines, i + 1, cmds, ncmds)
  {
  }

  /** What one line does to the calls made so far and to the running result. */
  lemma RunStep(lines: seq<string>, i: nat, cmds: seq<TermCmd>, ncmds: int,
                handler: (nat, nat, seq<string>) -> int, done: seq<(nat, seq<string>)>)
    requires i < |lines| && ncmds <= |cmds|
    requires done + CallsFrom(lines, i, cmds, ncmds) == Calls(lines, cmds, ncmds)
    ensures match StepOf(LineText(lines[i]), cmds, ncmds)
      case Exit => done == Calls(lines, cmds, ncmds)
      case Call(idx, argv) =>
        && (done + [(idx, argv)]) + CallsFrom(lines, i + 1, cmds, ncmds) == Calls(lines, cmds, ncmds)
        && var r := handler(|done|, idx, argv);
          LastNonZero(Results(done + [(idx, argv)], handler)) == if r != 0 then r else LastNonZero(Results(done, handler))
      case _ => done + CallsFrom(lines, i + 1, cmds, ncmds) == Calls(lines, cmds, ncmds)
  {
    CallsFromStep(lines, i, cmds, ncmds);
    match StepOf(LineText(lines[i]), cmds, ncmds)
    case Call(idx, argv) =>
      AppendAssoc(done, [(idx, argv)], CallsFrom(lines, i + 1, cmds, ncmds));
      ResultsSnoc(done, (idx, argv), handler);
    case _ =>
  }

  /** What holds after the first `i` lines: the calls made so far, and the running result. */
  ghost predicate RunState(lines: seq<string>, i: nat, cmds: seq<TermCmd>, ncmds: int,
                           handler: (nat, nat, seq<string>) -> int,
                           done: seq<(nat, seq<string>)>, calls: int, ret: int)
    requires ncmds <= |cmds|
  {
    && i <= |lines|
    && calls == |done|
    && done + CallsFrom(lines, i, cmds, ncmds) == Calls(lines, cmds, ncmds)
    && ret == LastNonZero(Results(done, handler))
  }

  /** One pass of terminal_run's loop: read line `i`, classify it, and call the handler it names. */
  method RunLine(lines: seq<string>, i: nat, cmds: seq<TermCmd>, ncmds: int,
                 handler: (nat, nat, seq<string>) -> int,
                 ghost done: seq<(nat, seq<string>)>, calls: int, ret: int)
    returns (stop: bool, ghost done': seq<(nat, seq<string>)>, calls': int, ret': int)
    requires ncmds <= |cmds| && i < |lines|
    requires RunState(lines, i, cmds, ncmds, handler, done, calls, ret)
    ensures stop ==> ret' == LastNonZero(Results(Calls(lines, cmds, ncmds), handler))
    ensures !stop ==> RunState(lines, i + 1, cmds, ncmds, handler, done', calls', ret')
  {
    var text := ReadLine(lines[i]);
    var action := Classify(text, cmds, ncmds);
    RunStep(lines, i, cmds, ncmds, handler, done);
    stop, done', calls', ret' := false, done, calls, ret;
    match action
    case Exit =>
      stop := true;
    case Call(idx, argv) =>
      var r := handler(calls, idx, argv);
      if r != 0 {
        ret' := r;
      }
      done' := done + [(idx, argv)];
      calls' := calls + 1;
    case _ =>
  }

  /**
   * terminal_run: reads lines until end of input or `exit`/`quit`, skips
   * blank lines, dispatches known commands, reports unknown ones, and
   * returns the most recent non-zero handler result.
   */
  method TerminalRun(lines: seq<string>, cmds: seq<TermCmd>, ncmds: int,
                     handler: (nat, nat, seq<string>) -> int) returns (ret: int)
    requires ncmds <= |cmds|
    ensures ret == LastNonZero(Results(Calls(lines, cmds, ncmds), handler))
  {
    ret := 0;
    ghost var done: seq<(nat, seq<string>)> := [];
    var calls := 0;
    var i := 0;
    while i < |lines|
      invariant RunState(lines, i, cmds, ncmds, handler, done, calls, ret)
    {
      var stop;
      stop, done, calls, ret := RunLine(lines, i, cmds, ncmds, handler, done, calls, ret);
      if stop {
        return;
      }
      i := i + 1;
    }
    assert done + CallsFrom(lines, i, cmds, ncmds) == done;
  }

  // ---------------------------------------------------------------------
  // Properties of terminal_run

  /** Lines after an `exit` or `quit` line are not read: they add no calls. */
  lemma {:induction false} CallsFromExit(lines: seq<string>, more: seq<string>, i: nat,
                                         cmds: seq<TermCmd>, ncmds: int)
    requires ncmds <= |cmds| && i < |lines|
    requires StepOf(LineText(lines[|lines| - 1]), cmds, ncmds).Exit?
    ensures CallsFrom(lines + more, i, cmds, ncmds) == CallsFrom(lines, i, cmds, ncmds)
    decreases |lines| - i
  {
    assert (lines + more)[i] == lines[i];
    CallsFromStep(lines + more, i, cmds, ncmds);
    CallsFromStep(lines, i, cmds, ncmds);
    if i + 1 < |lines| {
      CallsFromExit(lines, more, i + 1, cmds, ncmds);
    }
  }

  lemma ExitStops(lines: seq<string>, more: seq<string>, cmds: seq<TermCmd>, ncmds: int)
    requires ncmds <= |cmds| && lines != []
    requires StepOf(LineText(lines[|lines| - 1]), cmds, ncmds).Exit?
    ensures Calls(lines + more, cmds, ncmds) == Calls(lines, cmds, ncmds)
  {
    CallsFromExit(lines, more, 0, cmds, ncmds);
  }

  /** A line without NULs whose text does not end in '\n' or '\r' reads back as that text. */
  lemma LineTextPlain(t: string)
    requires '\0' !in t
    requires t == [] || !IsLineEnd(t[|t| - 1])
    ensures LineText(t + "\n") == t
  {
    var line := t + "\n";
    forall j | 0 <= j < |line|
      ensures line[j] != '\0'
    {
      if j < |t| {
        assert t[j] in t;
      }
    }
    FindCharNone(line, '\0', 0);
    assert CStr(line) == line;
    TrimRightUnique(line, {'\n', '\r'}, |t|);
    assert line[..|t|] == t;
  }

  /**
   * Words joined with single spaces are dispatched as those words: `exit`
   * and `quit` stop, a name in the table calls its entry with at most
   * TERM_MAX_ARGS of the words, any other name is reported unknown.
   */
  lemma StepOfWords(ws: seq<string>, cmds: seq<TermCmd>, ncmds: int)
    requires ncmds <= |cmds|
    requires ws != [] && forall k :: 0 <= k < |ws| ==> IsWord(ws[k])
    requires ws[0] != [] && !IsCSpace(ws[0][0])
    ensures StepOf(Join(ws, " "), cmds, ncmds) ==
      if ws[0] == "exit" || ws[0] == "quit" then Exit
      else match CmdIndex(cmds, ncmds, ws[0])
        case None => Unknown(ws[0])
        case Some(i) => Call(i, Take(ws, TermMaxArgs))
  {
    var s := Join(ws, " ");
    if |ws| > 1 {
      assert s == ws[0] + (" " + Join(ws[1..], " "));
    }
    assert s[0] == ws[0][0];
    SpanEndAt(s, 0, IsCSpace, 0);
    TokensJoin(ws);
    assert Take(ws, TermMaxArgs)[0] == ws[0];
  }
}
