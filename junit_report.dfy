/**
 * scripts/tests/os_controlsystem_to_junit.py: parse_output reads the
 * checker's stdout back into one pass/fail entry per check, and make_junit
 * counts the test cases and failures of the report it writes.
 *
 * Python's dict is an insertion-ordered list of (key, entry) pairs in which
 * assigning to a present key replaces its entry where it stands.
 */
module JUnitReport {
  import opened Wrappers
  import opened Strings
  import Checks

  /** One result: whether the check passed and the (stripped) line it came from. */
  datatype Entry = Entry(ok: bool, output: string)

  type Results = seq<(string, Entry)>

  // ---------------------------------------------------------------------
  // str.splitlines and str.strip

  /** The characters str.splitlines ends a line at ("\r\n" counts as one break). */
  predicate IsLineBreak(c: char) {
    c == '\n' || c == '\r' || c == '\U{B}' || c == '\U{C}' || c == '\U{1C}' || c == '\U{1D}'
    || c == '\U{1E}' || c == '\U{85}' || c == '\U{2028}' || c == '\U{2029}'
  }

  predicate NotLineBreak(c: char) {
    !IsLineBreak(c)
  }

  /** str.splitlines(): the lines without their breaks, and no trailing empty line. */
  function SplitLines(s: string): (r: seq<string>)
    ensures forall i, j :: 0 <= i < |r| && 0 <= j < |r[i]| ==> !IsLineBreak(r[i][j])
    decreases |s|
  {
    if s == [] then []
    else
      var i := SpanEnd(s, 0, NotLineBreak);
      assert forall j :: 0 <= j < i ==> !IsLineBreak(s[..i][j]) by {
        forall j | 0 <= j < i ensures !IsLineBreak(s[..i][j]) {
          assert Sat(s, j, NotLineBreak);
        }
      }
      if i == |s| then [s]
      else
        var next := if s[i] == '\r' && i + 1 < |s| && s[i + 1] == '\n' then i + 2 else i + 1;
        [s[..i]] + SplitLines(s[next..])
  }

  /** Python's str.isspace() characters, which str.strip() removes from both ends. */
  const PySpace: set<char> := {
    ' ', '\t', '\n', '\U{B}', '\U{C}', '\r', '\U{1C}', '\U{1D}', '\U{1E}', '\U{1F}',
    '\U{85}', '\U{A0}', '\U{1680}', '\U{2000}', '\U{2001}', '\U{2002}', '\U{2003}',
    '\U{2004}', '\U{2005}', '\U{2006}', '\U{2007}', '\U{2008}', '\U{2009}', '\U{200A}',
    '\U{2028}', '\U{2029}', '\U{202F}', '\U{205F}', '\U{3000}'}

  function TrimLeft(s: string, cs: set<char>): (r: string)
    ensures |r| <= |s| && r == s[|s| - |r|..]
    ensures r == [] || r[0] !in cs
    decreases |s|
  {
    if s != [] && s[0] in cs then TrimLeft(s[1..], cs) else s
  }

  /** str.strip() */
  function Strip(s: string): string {
    TrimRight(TrimLeft(s, PySpace), PySpace)
  }

  /** Stripping keeps a piece that starts and ends with non-space characters. */
  lemma StripKeepsPrefix(p: string, q: string)
    requires p != [] && p[0] !in PySpace && p[|p| - 1] !in PySpace
    ensures |p| <= |Strip(p + q)| && Strip(p + q)[..|p|] == p
  {
    var s := p + q;
    assert TrimLeft(s, PySpace) == s;
    var r := TrimRight(s, PySpace);
    assert s[|p| - 1] == p[|p| - 1];
    assert r[..|p|] == s[..|p|];
  }

  function StartsWith(s: string, p: string): bool {
    |p| <= |s| && s[..|p|] == p
  }

  // ---------------------------------------------------------------------
  // Classifying one line

  /**
   * The entry a stripped, non-empty line yields, or None for a line the
   * converter ignores. A "[sysctl:" line without "]" falls through the
   * remaining tests, none of which can match it.
   */
  function Classify(line: string): Option<(string, Entry)> {
    if StartsWith(line, "[sysctl:") && ']' in line then
      var end := FindChar(line, ']', 0);
      var key := line[|"[sysctl:"|..end];
      var ok := Contains(line, "OK") && !(Contains(line, "MISMATCH") || Contains(line, "MISSING"));
      Some(("sysctl:" + key, Entry(ok, line)))
    else if StartsWith(line, "[sysctl]") then
      Some(("sysctl", Entry(Contains(line, "OK") && !Contains(line, "MISSING"), line)))
    else if StartsWith(line, "[service:exec]") then
      Some(("service:exec", Entry(Contains(line, "OK") && !Contains(line, "MISMATCH"), line)))
    else if StartsWith(line, "[service]") then
      Some(("service:status", Entry(Contains(line, "active") && !Contains(line, "not active"), line)))
    else if StartsWith(line, "[firewall]") then
      var ok := Contains(line, "active and port allowed")
        && !(Contains(line, "NOT allowed") || Contains(line, "not active"));
      Some(("firewall", Entry(ok, line)))
    else None
  }

  /** What one raw line contributes: stripped, skipped when blank, then classified. */
  function LineEntry(raw: string): Option<(string, Entry)> {
    var line := Strip(raw);
    if line == [] then None else Classify(line)
  }

  /** A "[sysctl:" line with no "]" gives no entry. */
  lemma BracketlessSysctlIgnored(line: string)
    requires StartsWith(line, "[sysctl:") && ']' !in line
    ensures Classify(line) == None
  {
    assert line[..8] == "[sysctl:";
    assert line[..8][7] == ':';
    assert !StartsWith(line, "[sysctl]") && !StartsWith(line, "[service:exec]");
    assert line[..8][1] == 's';
    assert !StartsWith(line, "[service]") && !StartsWith(line, "[firewall]");
  }

  // ---------------------------------------------------------------------
  // The results dictionary

  /** `results[key] = entry`: replace in place when present, append otherwise. */
  function Put(d: Results, key: string, e: Entry): (r: Results)
    ensures r != []
    decreases |d|
  {
    if d == [] then [(key, e)]
    else if d[0].0 == key then [(key, e)] + d[1..]
    else [d[0]] + Put(d[1..], key, e)
  }

  function Lookup(d: Results, key: string): Option<Entry>
    decreases |d|
  {
    if d == [] then None
    else if d[0].0 == key then Some(d[0].1)
    else Lookup(d[1..], key)
  }

  predicate UniqueKeys(d: Results) {
    forall i, j :: 0 <= i < j < |d| ==> d[i].0 != d[j].0
  }

  /** Assignment overwrites one key and leaves the others, keeping keys unique and the order of insertion. */
  lemma {:induction false} PutSpec(d: Results, key: string, e: Entry, other: string)
    requires UniqueKeys(d)
    ensures UniqueKeys(Put(d, key, e))
    ensures Lookup(Put(d, key, e), key) == Some(e)
    ensures other != key ==> Lookup(Put(d, key, e), other) == Lookup(d, other)
    ensures Lookup(d, key).Some? ==> |Put(d, key, e)| == |d|
    ensures Lookup(d, key).None? ==> Put(d, key, e) == d + [(key, e)]
    decreases |d|
  {
    if d != [] && d[0].0 != key {
      assert UniqueKeys(d[1..]) by {
        forall i, j | 0 <= i < j < |d[1..]| ensures d[1..][i].0 != d[1..][j].0 {
          assert d[1..][i] == d[i + 1] && d[1..][j] == d[j + 1];
        }
      }
      PutSpec(d[1..], key, e, other);
      PutSpec(d[1..], key, e, d[0].0);
      assert forall i :: 0 <= i < |d[1..]| ==> d[1..][i].0 != d[0].0 by {
        forall i | 0 <= i < |d[1..]| ensures d[1..][i].0 != d[0].0 {
          assert d[1..][i] == d[i + 1];
        }
      }
      var r := Put(d, key, e);
      assert r == [d[0]] + Put(d[1..], key, e);
      LookupKeys(d[1..], d[0].0);
      LookupKeys(Put(d[1..], key, e), d[0].0);
      forall i, j | 0 <= i < j < |r| ensures r[i].0 != r[j].0 {
        if i == 0 {
          assert r[j] == Put(d[1..], key, e)[j - 1];
        } else {
          assert r[i] == Put(d[1..], key, e)[i - 1] && r[j] == Put(d[1..], key, e)[j - 1];
        }
      }
    } else if d != [] {
      var r := Put(d, key, e);
      forall i, j | 0 <= i < j < |r| ensures r[i].0 != r[j].0 {
        assert r[j] == d[j];
        if i > 0 {
          assert r[i] == d[i];
        }
      }
    }
  }

  /** A key is found exactly when some pair holds it. */
  lemma {:induction false} LookupKeys(d: Results, key: string)
    ensures Lookup(d, key).None? <==> forall i :: 0 <= i < |d| ==> d[i].0 != key
    decreases |d|
  {
    if d != [] {
      LookupKeys(d[1..], key);
      if Lookup(d, key).None? {
        forall i | 0 <= i < |d| ensures d[i].0 != key {
          if i > 0 {
            assert d[i] == d[1..][i - 1];
          }
        }
      }
    }
  }

  // ---------------------------------------------------------------------
  // parse_output

  /** What each line contributes, in order. */
  type Item = Option<(string, Entry)>

  function Items(lines: seq<string>): (r: seq<Item>)
    ensures |r| == |lines|
    decreases |lines|
  {
    if lines == [] then [] else Items(lines[..|lines| - 1]) + [LineEntry(lines[|lines| - 1])]
  }

  lemma {:induction false} ItemsAt(lines: seq<string>, i: int)
    requires 0 <= i < |lines|
    ensures Items(lines)[i] == LineEntry(lines[i])
    decreases |lines|
  {
    if i < |lines| - 1 {
      ItemsAt(lines[..|lines| - 1], i);
    }
  }

  /** The dictionary after the loop has stored `items` one after another. */
  function Collect(items: seq<Item>): Results
    decreases |items|
  {
    if items == [] then []
    else
      var d := Collect(items[..|items| - 1]);
      var c := items[|items| - 1];
      if c.Some? then Put(d, c.value.0, c.value.1) else d
  }

  /** The entries, or the single failing "parse" entry that holds the whole output when there are none. */
  function Fallback(d: Results, text: string): Results {
    if d == [] then [("parse", Entry(false, text))] else d
  }

  /** parse_output's result. */
  function ParseOutput(text: string): Results {
    Fallback(Collect(Items(SplitLines(text))), text)
  }

  /** One more step of the fold. */
  lemma CollectStep(items: seq<Item>, k: int)
    requires 0 <= k < |items|
    ensures Collect(items[..k + 1]) == if items[k].Some?
      then Put(Collect(items[..k]), items[k].value.0, items[k].value.1)
      else Collect(items[..k])
  {
    assert items[..k + 1][..k] == items[..k];
  }

  /** parse_output: classify every line, the later of two lines with one key overwriting the earlier. */
  method ParseOutputLoop(text: string) returns (results: Results)
    ensures results == ParseOutput(text)
  {
    var lines := SplitLines(text);
    ghost var items := Items(lines);
    results := [];
    var k := 0;
    while k < |lines|
      invariant k <= |lines|
      invariant results == Collect(items[..k])
    {
      CollectStep(items, k);
      ItemsAt(lines, k);
      var line := Strip(lines[k]);
      if line != [] {
        var c := Classify(line);
        if c.Some? {
          results := Put(results, c.value.0, c.value.1);
        }
      }
      k := k + 1;
    }
    assert items[..k] == items;
    if results == [] {
      results := [("parse", Entry(false, text))];
    }
  }

  /** The entry of the last item under `key`, searching from the end: the reference for "last one wins". */
  function LastEntry(items: seq<Item>, key: string): Option<Entry>
    decreases |items|
  {
    if items == [] then None
    else
      var c := items[|items| - 1];
      if c.Some? && c.value.0 == key then Some(c.value.1) else LastEntry(items[..|items| - 1], key)
  }

  /** The collected dictionary has unique keys, and each key holds the entry of its last line. */
  lemma {:induction false} CollectLastWins(items: seq<Item>, key: string)
    ensures UniqueKeys(Collect(items))
    ensures Lookup(Collect(items), key) == LastEntry(items, key)
    decreases |items|
  {
    if items != [] {
      var init := items[..|items| - 1];
      CollectLastWins(init, key);
      var c := items[|items| - 1];
      if c.Some? {
        PutSpec(Collect(init), c.value.0, c.value.1, key);
      }
    }
  }

  /** Nothing is collected exactly when no item holds an entry. */
  lemma {:induction false} CollectEmptyIff(items: seq<Item>)
    ensures Collect(items) == [] <==> forall i :: 0 <= i < |items| ==> items[i].None?
    decreases |items|
  {
    if items != [] {
      var n := |items| - 1;
      CollectEmptyIff(items[..n]);
      assert forall i :: 0 <= i < n ==> items[..n][i] == items[i];
    }
  }

  /** No item is stored under `key`. */
  predicate Absent(items: seq<Item>, key: string) {
    forall i :: 0 <= i < |items| && items[i].Some? ==> items[i].value.0 != key
  }

  lemma {:induction false} LastEntryAbsent(items: seq<Item>, key: string)
    requires Absent(items, key)
    ensures LastEntry(items, key) == None
    decreases |items|
  {
    if items != [] {
      var n := |items| - 1;
      assert forall i :: 0 <= i < n ==> items[..n][i] == items[i];
      LastEntryAbsent(items[..n], key);
    }
  }

  /** Every key a line is stored under starts with "s" or "f", so none is the fallback's "parse". */
  lemma ClassifyNotParse(line: string)
    ensures Classify(line).Some? ==> Classify(line).value.0[0] in {'s', 'f'}
  {
  }

  lemma LineEntryNotParse(raw: string)
    ensures LineEntry(raw).Some? ==> LineEntry(raw).value.0 != "parse"
  {
    ClassifyNotParse(Strip(raw));
  }

  /** No line yielded an entry. */
  predicate NoneRecognised(items: seq<Item>) {
    forall i :: 0 <= i < |items| ==> items[i].None?
  }

  /** The fallback step: never empty, unique keys, and the fallback entry exactly when no item holds an entry. */
  lemma FallbackShape(items: seq<Item>, text: string)
    requires Absent(items, "parse")
    ensures Fallback(Collect(items), text) != []
    ensures UniqueKeys(Fallback(Collect(items), text))
    ensures NoneRecognised(items) <==> Fallback(Collect(items), text) == [("parse", Entry(false, text))]
  {
    var d := Collect(items);
    CollectLastWins(items, "parse");
    CollectEmptyIff(items);
    LastEntryAbsent(items, "parse");
    if d != [] {
      LookupKeys(d, "parse");
      assert d[0].0 != "parse";
    }
  }

  lemma {:induction false} ItemsNotParse(lines: seq<string>)
    ensures Absent(Items(lines), "parse")
    decreases |lines|
  {
    if lines != [] {
      var n := |lines| - 1;
      ItemsNotParse(lines[..n]);
      LineEntryNotParse(lines[n]);
    }
  }

  /**
   * The result is never empty, has unique keys, and is the fallback entry
   * exactly when no line was recognised (Items(lines)[i] is what line i
   * yields, by ItemsAt).
   */
  lemma ParseOutputShape(text: string)
    ensures ParseOutput(text) != []
    ensures UniqueKeys(ParseOutput(text))
    ensures NoneRecognised(Items(SplitLines(text))) <==> ParseOutput(text) == [("parse", Entry(false, text))]
  {
    ItemsNotParse(SplitLines(text));
    FallbackShape(Items(SplitLines(text)), text);
  }

  /** Under any key, parse_output reports the last line that classifies under it. */
  lemma ParseOutputLastWins(text: string, key: string)
    requires key != "parse"
    ensures Lookup(ParseOutput(text), key) == LastEntry(Items(SplitLines(text)), key)
  {
    CollectLastWins(Items(SplitLines(text)), key);
  }

  // ---------------------------------------------------------------------
  // Reading back the checker's lines

  /** A stripped line that starts with "[sysctl:" + key + "]" is read under "sysctl:" + key. */
  lemma ClassifySysctlHead(s: string, key: string)
    requires ']' !in key
    requires |"[sysctl:" + key + "]"| <= |s| && s[..|"[sysctl:" + key + "]"|] == "[sysctl:" + key + "]"
    ensures Classify(s) == Some(("sysctl:" + key, Entry(
      Contains(s, "OK") && !(Contains(s, "MISMATCH") || Contains(s, "MISSING")), s)))
  {
    var head := "[sysctl:" + key + "]";
    assert s[..8] == head[..8] == "[sysctl:";
    assert s[|head| - 1] == head[|head| - 1] == ']';
    forall j | 8 <= j < |head| - 1 ensures s[j] == key[j - 8] && s[j] != ']' {
      assert s[j] == head[j] == key[j - 8];
    }
    FindCharAt(s, ']', 0, |head| - 1);
    assert s[8..|head| - 1] == key;
  }

  /**
   * A word whose first character is not in `a`, which holds no `c[0]` and
   * is at least as long as `c` occurs in a + b + c only inside b.
   */
  lemma ContainsOnlyInside(a: string, b: string, c: string, t: string)
    requires t != [] && t[0] !in a && c != [] && c[0] !in t && |c| <= |t|
    requires Contains(a + b + c, t)
    ensures Contains(b, t)
  {
    var s := a + b + c;
    ContainsIff(s, t);
    var i :| OccursAt(s, t, i);
    OccursAtIndex(s, t, i, 0);
    if i < |a| {
      assert false;
    }
    if i + |t| > |a| + |b| {
      OccursAtIndex(s, t, i, |a| + |b| - i);
      assert false;
    }
    assert OccursAt(b, t, i - |a|) by {
      forall k | 0 <= k < |t| ensures b[i - |a| + k] == t[k] {
        OccursAtIndex(s, t, i, k);
      }
    }
    ContainsAt(b, t, i - |a|);
  }

  /** Stripping leaves a line alone that starts and ends with non-space characters. */
  lemma StripFixed(s: string)
    requires s != [] && s[0] !in PySpace && s[|s| - 1] !in PySpace
    ensures Strip(s) == s
  {
    assert TrimLeft(s, PySpace) == s;
    TrimRightUnique(s, PySpace, |s|);
    assert s[..|s|] == s;
  }

  /** An OK line holds "OK" and, when the key does not, neither negative marker. */
  lemma SysctlOkMarkers(key: string)
    requires !Contains(key, "MISMATCH") && !Contains(key, "MISSING")
    ensures var s := "[sysctl:" + key + "] OK";
      Contains(s, "OK") && !Contains(s, "MISMATCH") && !Contains(s, "MISSING")
  {
    var s := "[sysctl:" + key + "] OK";
    OccursMiddle("[sysctl:" + key + "] ", "OK", []);
    assert "[sysctl:" + key + "] " + "OK" + [] == s;
    ContainsAt(s, "OK", |key| + 10);
    assert 'M' !in "[sysctl:" && ']' !in "MISMATCH" && ']' !in "MISSING";
    assert "[sysctl:" + key + "] OK" == s;
    if Contains(s, "MISMATCH") {
      ContainsOnlyInside("[sysctl:", key, "] OK", "MISMATCH");
    }
    if Contains(s, "MISSING") {
      ContainsOnlyInside("[sysctl:", key, "] OK", "MISSING");
    }
  }

  lemma ClassifySysctlOk(key: string)
    requires ']' !in key && !Contains(key, "MISMATCH") && !Contains(key, "MISSING")
    ensures var s := "[sysctl:" + key + "] OK";
      Classify(s) == Some(("sysctl:" + key, Entry(true, s)))
  {
    var s := "[sysctl:" + key + "] OK";
    assert s == "[sysctl:" + key + "]" + " OK";
    ClassifySysctlHead(s, key);
    SysctlOkMarkers(key);
  }

  lemma ClassifySysctlMissing(key: string)
    requires ']' !in key
    ensures var s := "[sysctl:" + key + "] MISSING";
      Classify(s) == Some(("sysctl:" + key, Entry(false, s)))
  {
    var head := "[sysctl:" + key + "]";
    var s := "[sysctl:" + key + "] MISSING";
    assert s == head + " " + "MISSING" + [];
    ClassifySysctlHead(s, key);
    OccursMiddle(head + " ", "MISSING", []);
    ContainsAt(s, "MISSING", |head| + 1);
  }

  /** A line that starts like a MISMATCH line holds its key's head and the "MISMATCH" marker. */
  lemma SysctlMismatchMarker(key: string, s: string)
    requires var p := "[sysctl:" + key + "] MISMATCH expected=";
      |p| <= |s| && s[..|p|] == p
    ensures var head := "[sysctl:" + key + "]";
      |head| <= |s| && s[..|head|] == head && Contains(s, "MISMATCH")
  {
    var head := "[sysctl:" + key + "]";
    var p := "[sysctl:" + key + "] MISMATCH expected=";
    assert s[..|head|] == p[..|head|] == head;
    MismatchAt(key);
    OccursInPrefix(s, p, "MISMATCH", |head| + 1);
    ContainsAt(s, "MISMATCH", |head| + 1);
  }

  lemma MismatchAt(key: string)
    ensures OccursAt("[sysctl:" + key + "] MISMATCH expected=", "MISMATCH", |key| + 10)
  {
    var head := "[sysctl:" + key + "]";
    OccursMiddle(head + " ", "MISMATCH", " expected=");
    assert head + " " + "MISMATCH" + " expected=" == "[sysctl:" + key + "] MISMATCH expected=";
  }

  lemma ClassifySysctlMismatch(key: string, s: string)
    requires ']' !in key
    requires var p := "[sysctl:" + key + "] MISMATCH expected=";
      |p| <= |s| && s[..|p|] == p
    ensures Classify(s) == Some(("sysctl:" + key, Entry(false, s)))
  {
    SysctlMismatchMarker(key, s);
    ClassifySysctlHead(s, key);
  }

  /** The checker's "OK" line for a key reads back as passing, when the key holds neither negative marker. */
  lemma SysctlOkReadBack(key: string, expected: string)
    requires ']' !in key && !Contains(key, "MISMATCH") && !Contains(key, "MISSING")
    ensures var line := Checks.SysctlLine(key, expected, Checks.Ok);
      LineEntry(line[..|line| - 1]) == Some(("sysctl:" + key, Entry(true, line[..|line| - 1])))
  {
    var line := Checks.SysctlLine(key, expected, Checks.Ok);
    assert line[..|line| - 1] == "[sysctl:" + key + "] OK";
    StripFixed(line[..|line| - 1]);
    ClassifySysctlOk(key);
  }

  /** The checker's "MISSING" line for a key reads back as failing. */
  lemma SysctlMissingReadBack(key: string, expected: string)
    requires ']' !in key
    ensures var line := Checks.SysctlLine(key, expected, Checks.Missing);
      LineEntry(line[..|line| - 1]) == Some(("sysctl:" + key, Entry(false, line[..|line| - 1])))
  {
    var line := Checks.SysctlLine(key, expected, Checks.Missing);
    assert line[..|line| - 1] == "[sysctl:" + key + "] MISSING";
    StripFixed(line[..|line| - 1]);
    ClassifySysctlMissing(key);
  }

  /** The checker's "MISMATCH" line for a key reads back as failing, whatever the values hold. */
  lemma SysctlMismatchReadBack(key: string, expected: string, got: string)
    requires ']' !in key
    ensures var line := Checks.SysctlLine(key, expected, Checks.Mismatch(got));
      LineEntry(line[..|line| - 1]) == Some(("sysctl:" + key, Entry(false, Strip(line[..|line| - 1]))))
  {
    var line := Checks.SysctlLine(key, expected, Checks.Mismatch(got));
    var p := "[sysctl:" + key + "] MISMATCH expected=";
    assert line[..|line| - 1] == p + (expected + " got=" + got);
    StripKeepsPrefix(p, expected + " got=" + got);
    ClassifySysctlMismatch(key, Strip(line[..|line| - 1]));
  }

  /**
   * Every per-key sysctl line the checker prints reads back under
   * "sysctl:" + key, passing exactly when the verdict was OK.
   */
  lemma SysctlLineReadBack(key: string, expected: string, v: Checks.Verdict)
    requires ']' !in key
    requires v.Ok? ==> !Contains(key, "MISMATCH") && !Contains(key, "MISSING")
    ensures var line := Checks.SysctlLine(key, expected, v);
      var c := LineEntry(line[..|line| - 1]);
      c.Some? && c.value.0 == "sysctl:" + key && c.value.1.ok == v.Ok?
  {
    match v
    case Ok => SysctlOkReadBack(key, expected);
    case Missing => SysctlMissingReadBack(key, expected);
    case Mismatch(got) => SysctlMismatchReadBack(key, expected, got);
  }

  /** Text in which str.splitlines finds no break. */
  predicate OneLine(s: string) {
    forall j :: 0 <= j < |s| ==> !IsLineBreak(s[j])
  }

  lemma OneLineConcat(a: string, b: string)
    requires OneLine(a) && OneLine(b)
    ensures OneLine(a + b)
  {
    forall j | 0 <= j < |a + b| ensures !IsLineBreak((a + b)[j]) {
      if j >= |a| {
        assert (a + b)[j] == b[j - |a|];
      }
    }
  }

  /** A line without a break, then "\n", splits into that one line. */
  lemma SplitOneLine(body: string)
    requires OneLine(body)
    ensures SplitLines(body + "\n") == [body]
  {
    var s := body + "\n";
    SpanEndAt(s, 0, NotLineBreak, |body|);
    assert s[..|body|] == body;
    assert s[|body| + 1..] == [];
  }

  /** parse_output on one recognised line and its newline: that line's entry alone. */
  lemma ParseOneLine(body: string, c: (string, Entry))
    requires OneLine(body) && LineEntry(body) == Some(c)
    ensures ParseOutput(body + "\n") == [c]
  {
    SplitOneLine(body);
    assert Items([body]) == [LineEntry(body)] by {
      assert [body][..0] == [];
    }
    assert Collect([LineEntry(body)]) == Put([], c.0, c.1) by {
      assert [LineEntry(body)][..0] == [];
    }
  }

  /** The line printed for a key, without its newline, holds no break when its parts hold none. */
  lemma SysctlBodyOneLine(key: string, expected: string, v: Checks.Verdict)
    requires OneLine(key) && OneLine(expected)
    requires v.Mismatch? ==> OneLine(v.got)
    ensures var line := Checks.SysctlLine(key, expected, v);
      line == line[..|line| - 1] + "\n" && OneLine(line[..|line| - 1])
  {
    var line := Checks.SysctlLine(key, expected, v);
    var body := line[..|line| - 1];
    assert OneLine("[sysctl:");
    OneLineConcat("[sysctl:", key);
    match v
    case Ok =>
      assert OneLine("] OK");
      OneLineConcat("[sysctl:" + key, "] OK");
      assert body == "[sysctl:" + key + "] OK";
    case Missing =>
      assert OneLine("] MISSING");
      OneLineConcat("[sysctl:" + key, "] MISSING");
      assert body == "[sysctl:" + key + "] MISSING";
    case Mismatch(got) =>
      var p := "[sysctl:" + key + "] MISMATCH expected=";
      assert OneLine("] MISMATCH expected=") && OneLine(" got=");
      OneLineConcat("[sysctl:" + key, "] MISMATCH expected=");
      OneLineConcat(expected, " got=");
      OneLineConcat(expected + " got=", got);
      OneLineConcat(p, expected + " got=" + got);
      assert body == p + (expected + " got=" + got);
  }

  /** The printed OK and MISSING lines have nothing for str.strip to remove. */
  lemma OkMissingStripped(key: string, expected: string, v: Checks.Verdict)
    requires !v.Mismatch?
    ensures var line := Checks.SysctlLine(key, expected, v);
      Strip(line[..|line| - 1]) == line[..|line| - 1]
  {
    var line := Checks.SysctlLine(key, expected, v);
    var body := line[..|line| - 1];
    if v.Ok? {
      assert body == "[sysctl:" + key + "] OK";
    } else {
      assert body == "[sysctl:" + key + "] MISSING";
    }
    StripFixed(body);
  }

  /**
   * The checker's output for one key, read back by parse_output as a whole
   * text: a single entry under "sysctl:" + key, passing exactly when the
   * verdict was OK, when neither the key, the expected value nor sysctl's
   * answer holds a line break.
   */
  lemma SysctlOutputReadBack(key: string, expected: string, v: Checks.Verdict)
    requires ']' !in key && OneLine(key) && OneLine(expected)
    requires v.Mismatch? ==> OneLine(v.got)
    requires v.Ok? ==> !Contains(key, "MISMATCH") && !Contains(key, "MISSING")
    ensures var line := Checks.SysctlLine(key, expected, v);
      ParseOutput(line) == [("sysctl:" + key, Entry(v.Ok?, Strip(line[..|line| - 1])))]
  {
    var line := Checks.SysctlLine(key, expected, v);
    var body := line[..|line| - 1];
    SysctlBodyOneLine(key, expected, v);
    var c := ("sysctl:" + key, Entry(v.Ok?, Strip(body)));
    match v
    case Ok =>
      SysctlOkReadBack(key, expected);
      OkMissingStripped(key, expected, v);
      ParseOneLine(body, c);
    case Missing =>
      SysctlMissingReadBack(key, expected);
      OkMissingStripped(key, expected, v);
      ParseOneLine(body, c);
    case Mismatch(got) =>
      SysctlMismatchReadBack(key, expected, got);
      ParseOneLine(body, c);
  }

  // ---------------------------------------------------------------------
  // make_junit's counts

  /** The number of entries whose check failed. */
  function Failures(results: Results): nat
    decreases |results|
  {
    if results == [] then 0
    else Failures(results[..|results| - 1]) + if results[|results| - 1].1.ok then 0 else 1
  }

  /**
   * make_junit's figures: `tests` is the number of entries and `failures`
   * the sum over the entries that did not pass. The loop over the entries
   * writes one test case each and one <failure> element per failing entry,
   * and one raw-output test case follows, so the report holds as many
   * <failure> elements as its `failures` attribute says.
   */
  method JUnitCounts(results: Results) returns (tests: nat, failures: nat, testcases: nat, failureElements: nat)
    ensures tests == |results|
    ensures failures == Failures(results)
    ensures testcases == tests + 1
    ensures failureElements == failures
  {
    tests := |results|;
    failures := 0;
    var k := 0;
    while k < |results|
      invariant k <= |results|
      invariant failures == Failures(results[..k])
    {
      assert results[..k + 1][..k] == results[..k];
      if !results[k].1.ok {
        failures := failures + 1;
      }
      k := k + 1;
    }
    assert results[..k] == results;
    testcases, failureElements := 0, 0;
    for i := 0 to |results|
      invariant testcases == i
      invariant failureElements == Failures(results[..i])
    {
      assert results[..i + 1][..i] == results[..i];
      testcases := testcases + 1;
      if !results[i].1.ok {
        failureElements := failureElements + 1;
      }
    }
    assert results[..|results|] == results;
    testcases := testcases + 1;
  }

  /** failures counts exactly the failing entries: never more than tests, and 0 only when every entry passed. */
  lemma {:induction false} FailuresSpec(results: Results)
    ensures Failures(results) <= |results|
    ensures Failures(results) == 0 <==> forall i :: 0 <= i < |results| ==> results[i].1.ok
    ensures Failures(results) == |results| <==> forall i :: 0 <= i < |results| ==> !results[i].1.ok
    decreases |results|
  {
    if results != [] {
      var n := |results| - 1;
      FailuresSpec(results[..n]);
      forall i | 0 <= i < n ensures results[..n][i] == results[i] {
      }
    }
  }
}
