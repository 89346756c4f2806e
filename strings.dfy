/**
 * String helpers shared by the models: the search, split, trim and decimal
 * conversions that the original code takes from its standard libraries
 * (std::string::find, std::getline on a delimiter, std::to_string, PHP's
 * string cast and implode). A C or C++ string is a seq<char> in which every
 * char stands for one byte.
 */
module Strings {
  import opened Wrappers

  /** `pat` occurs in `s` starting at index `i`. */
  predicate OccursAt(s: string, pat: string, i: int) {
    0 <= i && i + |pat| <= |s| && s[i..i + |pat|] == pat
  }

  lemma OccursAtChar(s: string, c: char, i: int)
    ensures OccursAt(s, [c], i) <==> 0 <= i < |s| && s[i] == c
  {
    if 0 <= i < |s| {
      assert s[i..i + 1] == [s[i]];
    }
  }

  /**
   * std::string::find(pat, from): the least index at or after `from` where
   * `pat` occurs, or None where C++ returns npos.
   */
  function Find(s: string, pat: string, from: nat): (r: Option<nat>)
    ensures r.Some? ==> from <= r.value && OccursAt(s, pat, r.value)
    ensures r.Some? ==> forall j :: from <= j < r.value ==> !OccursAt(s, pat, j)
    ensures r.None? ==> forall j :: from <= j ==> !OccursAt(s, pat, j)
    decreases |s| - from
  {
    if from + |pat| > |s| then None
    else if s[from..from + |pat|] == pat then Some(from)
    else Find(s, pat, from + 1)
  }

  /** `s` holds `c` at index `j`. */
  predicate CharAt(s: string, j: int, c: char) {
    0 <= j < |s| && s[j] == c
  }

  /**
   * std::string::find(c, from) for a single character: the least index at or
   * after `from` holding `c`, or |s| where C++ returns npos. Every index of a
   * character is below |s|, as it is below npos, so comparing a search
   * result with another position means the same in both.
   */
  function FindChar(s: string, c: char, from: nat): (r: nat)
    ensures r == |s| || from <= r < |s|
    ensures r < |s| ==> s[r] == c
    ensures forall j :: from <= j < r ==> !CharAt(s, j, c)
    decreases |s| - from
  {
    if from >= |s| then |s|
    else if s[from] == c then from
    else FindChar(s, c, from + 1)
  }

  /** A character search is the substring search for the one-character string. */
  lemma FindCharIsFind(s: string, c: char, from: nat)
    ensures FindChar(s, c, from) < |s| <==> Find(s, [c], from).Some?
    ensures FindChar(s, c, from) < |s| ==> Find(s, [c], from).value == FindChar(s, c, from)
  {
    var r := FindChar(s, c, from);
    forall j | from <= j < r ensures !OccursAt(s, [c], j) {
      OccursAtChar(s, c, j);
      assert !CharAt(s, j, c);
    }
    if r < |s| {
      OccursAtChar(s, c, r);
      FindAt(s, [c], from, r);
    } else {
      forall j | from <= j < |s| ensures s[j] != c {
        assert !CharAt(s, j, c);
      }
      FindNone(s, [c], from);
    }
  }

  /** Pins down a character search: `c` sits at `i` and nowhere in [from, i). */
  lemma FindCharAt(s: string, c: char, from: nat, i: nat)
    requires from <= i < |s| && s[i] == c
    requires forall j :: from <= j < i ==> s[j] != c
    ensures FindChar(s, c, from) == i
  {
    forall j | from <= j < i ensures !CharAt(s, j, c) {
    }
    assert CharAt(s, i, c);
  }

  /** A character search that cannot succeed. */
  lemma FindCharNone(s: string, c: char, from: nat)
    requires forall j :: from <= j < |s| ==> s[j] != c
    ensures FindChar(s, c, from) == |s|
  {
    forall j | from <= j ensures !CharAt(s, j, c) {
    }
  }

  /** What a character search skipped, as membership: `c` is not in s[from..i]. */
  lemma CharNotIn(s: string, c: char, from: nat, i: nat)
    requires from <= i <= |s|
    requires forall j :: from <= j < i ==> !CharAt(s, j, c)
    ensures c !in s[from..i]
  {
    if c in s[from..i] {
      var k :| 0 <= k < i - from && s[from..i][k] == c;
      assert CharAt(s, from + k, c);
    }
  }

  /** Pins down a search: `pat` occurs at `i` and nowhere in [from, i). */
  lemma FindAt(s: string, pat: string, from: nat, i: nat)
    requires from <= i && OccursAt(s, pat, i)
    requires forall j :: from <= j < i ==> !OccursAt(s, pat, j)
    ensures Find(s, pat, from) == Some(i)
  {
  }

  /** A search that cannot succeed: no index at or after `from` starts with `pat[0]`. */
  lemma FindNone(s: string, pat: string, from: nat)
    requires pat != []
    requires forall j :: from <= j < |s| ==> s[j] != pat[0]
    ensures Find(s, pat, from) == None
  {
    forall j | from <= j ensures !OccursAt(s, pat, j) {
      if j + |pat| <= |s| {
        assert s[j..j + |pat|][0] == s[j];
      }
    }

  }

  /** A character search that starts inside the right part of `a + b` runs in `b`. */
  lemma {:induction false} FindCharShift(a: string, b: string, c: char, k: nat, p: nat)
    requires p == |a| + k
    ensures FindChar(a + b, c, p) == |a| + FindChar(b, c, k)
    decreases |b| - k
  {
    if k < |b| {
      assert (a + b)[p] == b[k];
      if b[k] != c {
        FindCharShift(a, b, c, k + 1, p + 1);
      }
    }
  }

  /** A character search passes over indices that do not hold `c`. */
  lemma {:induction false} FindCharSkip(s: string, c: char, from: nat, i: nat)
    requires from <= i <= |s|
    requires forall j :: from <= j < i ==> s[j] != c
    ensures FindChar(s, c, from) == FindChar(s, c, i)
    decreases i - from
  {
    if from < i {
      FindCharSkip(s, c, from + 1, i);
    }
  }

  /** A character search passes over a leading part that lacks `c`. */
  lemma FindCharPast(a: string, b: string, c: char)
    requires c !in a
    ensures FindChar(a + b, c, 0) == |a| + FindChar(b, c, 0)
  {
    forall j | 0 <= j < |a| ensures (a + b)[j] != c {
      assert (a + b)[j] == a[j];
    }
    FindCharSkip(a + b, c, 0, |a|);
    FindCharShift(a, b, c, 0, |a|);
  }

  /** No occurrence of `pat` starts where its first character is missing. */
  lemma NotOccursAt(s: string, pat: string, j: nat)
    requires pat != [] && j < |s| && s[j] != pat[0]
    ensures !OccursAt(s, pat, j)
  {
    if OccursAt(s, pat, j) {
      OccursAtIndex(s, pat, j, 0);
    }
  }

  /** An occurrence in `b` is one in `a + b`, shifted by |a|. */
  lemma OccursAtShift(a: string, b: string, pat: string, i: nat)
    requires OccursAt(b, pat, i)
    ensures OccursAt(a + b, pat, |a| + i)
  {
    assert (a + b)[|a| + i..|a| + i + |pat|] == b[i..i + |pat|];
  }

  /** A substring search passes over a leading part that lacks the pattern's first character. */
  lemma FindPast(a: string, b: string, pat: string)
    requires pat != [] && pat[0] !in a
    requires OccursAt(b, pat, 0)
    ensures Find(a + b, pat, 0) == Some(|a|)
  {
    forall j | 0 <= j < |a| ensures !OccursAt(a + b, pat, j) {
      NotOccursAt(a + b, pat, j);
    }
    OccursAtShift(a, b, pat, 0);
    FindAt(a + b, pat, 0, |a|);
  }

  /** A slice of the right part of `a + b`, at positions shifted by |a|. */
  lemma SliceShift(a: string, b: string, i: nat, j: nat, x: nat, y: nat)
    requires i <= j <= |b| && x == |a| + i && y == |a| + j
    ensures (a + b)[x..y] == b[i..j]
  {
  }

  /** The characters of an occurrence. */
  lemma OccursAtIndex(s: string, t: string, i: int, k: int)
    requires OccursAt(s, t, i) && 0 <= k < |t|
    ensures s[i + k] == t[k]
  {
    assert s[i..i + |t|][k] == s[i + k];
  }

  /** `b` sits at |a| in a + b + c. */
  lemma OccursMiddle(a: string, b: string, c: string)
    ensures OccursAt(a + b + c, b, |a|)
  {
    assert (a + b + c)[|a|..|a| + |b|] == b;
  }

  /** An occurrence inside a prefix of `s` is one in `s`. */
  lemma OccursInPrefix(s: string, p: string, t: string, i: int)
    requires |p| <= |s| && s[..|p|] == p && OccursAt(p, t, i)
    ensures OccursAt(s, t, i)
  {
    assert s[i..i + |t|] == s[..|p|][i..i + |t|];
  }

  /** A search that succeeds in `p` gives the same answer in any text that starts with `p`. */
  lemma FindInPrefix(p: string, b: string, pat: string)
    requires Find(p, pat, 0).Some?
    ensures Find(p + b, pat, 0) == Find(p, pat, 0)
  {
    var i := Find(p, pat, 0).value;
    var s := p + b;
    assert s[..|p|] == p;
    OccursInPrefix(s, p, pat, i);
    forall j | 0 <= j < i ensures !OccursAt(s, pat, j) {
      assert !OccursAt(p, pat, j);
      assert j + |pat| <= |p|;
      assert s[j..j + |pat|] == p[j..j + |pat|];
    }
    FindAt(s, pat, 0, i);
  }

  /** `t` is a substring of `s` (`s.find(t) != npos`, Python's `t in s`). */
  predicate Contains(s: string, t: string) {
    Find(s, t, 0).Some?
  }

  lemma ContainsIff(s: string, t: string)
    ensures Contains(s, t) <==> exists i :: OccursAt(s, t, i)
  {
    if Find(s, t, 0).Some? {
      assert OccursAt(s, t, Find(s, t, 0).value);
    }
  }

  lemma ContainsAt(s: string, t: string, i: int)
    requires OccursAt(s, t, i)
    ensures Contains(s, t)
  {
    ContainsIff(s, t);
  }

  /** A string containing `t` keeps it when text is added on either side. */
  lemma ContainsExtend(a: string, s: string, b: string, t: string)
    requires Contains(s, t)
    ensures Contains(a + s + b, t)
  {
    ContainsIff(s, t);
    var i :| OccursAt(s, t, i);
    assert (a + s + b)[|a| + i..|a| + i + |t|] == s[i..i + |t|];
    ContainsAt(a + s + b, t, |a| + i);
  }

  /** A substring of a substring is a substring. */
  lemma ContainsTrans(s: string, u: string, t: string)
    requires Contains(s, u) && Contains(u, t)
    ensures Contains(s, t)
  {
    ContainsIff(s, u);
    ContainsIff(u, t);
    var i :| OccursAt(s, u, i);
    var j :| OccursAt(u, t, j);
    forall k | 0 <= k < |t| ensures s[i + j + k] == t[k] {
      assert s[i + j + k] == s[i..i + |u|][j + k];
      assert t[k] == u[j..j + |t|][k];
    }
    assert s[i + j..i + j + |t|] == t;
    ContainsAt(s, t, i + j);
  }

  lemma ContainsChar(s: string, c: char)
    ensures Contains(s, [c]) <==> c in s
  {
    ContainsIff(s, [c]);
    if c in s {
      var i :| 0 <= i < |s| && s[i] == c;
      OccursAtChar(s, c, i);
    }
    if Contains(s, [c]) {
      var i :| OccursAt(s, [c], i);
      OccursAtChar(s, c, i);
    }
  }

  /**
   * The items that `while (std::getline(ss, item, d))` produces from `s`:
   * the pieces between delimiters, without a trailing empty piece.
   */
  function Split(s: string, d: char): (r: seq<string>)
    ensures forall i :: 0 <= i < |r| ==> d !in r[i]
    ensures s == [] <==> r == []
    decreases |s|
  {
    if s == [] then []
    else
      var i := FindChar(s, d, 0);
      CharNotIn(s, d, 0, i);
      if i == |s| then [s] else [s[..i]] + Split(s[i + 1..], d)
  }

  /** The pieces joined with `d` between them (PHP's implode, Python's str.join). */
  function Join(items: seq<string>, sep: string): string {
    if items == [] then []
    else if |items| == 1 then items[0]
    else items[0] + sep + Join(items[1..], sep)
  }

  /** Splitting on `d` undoes joining with `d`, when no piece holds `d` and the last is not empty. */
  lemma {:induction false} SplitJoin(items: seq<string>, d: char)
    requires forall i :: 0 <= i < |items| ==> d !in items[i]
    requires items != [] ==> items[|items| - 1] != []
    ensures Split(Join(items, [d]), d) == items
    decreases |items|
  {
    if |items| == 1 {
      FindCharNone(items[0], d, 0);
    } else if |items| > 1 {
      var s := Join(items, [d]);
      var h := items[0];
      assert s == h + [d] + Join(items[1..], [d]);
      assert s[..|h|] == h;
      FindCharAt(s, d, 0, |h|);
      assert s[|h| + 1..] == Join(items[1..], [d]);
      SplitJoin(items[1..], d);
    }
  }

  /** `s` without its maximal suffix of characters from `cs`. */
  function TrimRight(s: string, cs: set<char>): (r: string)
    ensures |r| <= |s| && r == s[..|r|]
    ensures r == [] || r[|r| - 1] !in cs
    ensures forall i :: |r| <= i < |s| ==> s[i] in cs
    decreases |s|
  {
    if s != [] && s[|s| - 1] in cs then TrimRight(s[..|s| - 1], cs) else s
  }

  /** The three facts above pin the trimmed string down: any prefix with them is it. */
  lemma TrimRightUnique(s: string, cs: set<char>, n: nat)
    requires n <= |s|
    requires n == 0 || s[n - 1] !in cs
    requires forall i :: n <= i < |s| ==> s[i] in cs
    ensures TrimRight(s, cs) == s[..n]
  {
    var r := TrimRight(s, cs);
    assert r == s[..|r|];
  }

  lemma TrimRightIdempotent(s: string, cs: set<char>)
    ensures TrimRight(TrimRight(s, cs), cs) == TrimRight(s, cs)
  {
    var r := TrimRight(s, cs);
    TrimRightUnique(r, cs, |r|);
  }

  /** isspace() in the C locale. */
  predicate IsCSpace(c: char) {
    c == ' ' || c == '\t' || c == '\n' || c == '\U{B}' || c == '\U{C}' || c == '\r'
  }

  /** The end of the run of characters satisfying `P` that starts at `i`. */
  predicate Sat(s: string, j: int, P: char -> bool) {
    0 <= j < |s| && P(s[j])
  }

  function SpanEnd(s: string, i: nat, P: char -> bool): (r: nat)
    requires i <= |s|
    ensures i <= r <= |s|
    ensures forall j :: i <= j < r ==> Sat(s, j, P)
    ensures r < |s| ==> !P(s[r])
    decreases |s| - i
  {
    if i < |s| && P(s[i]) then SpanEnd(s, i + 1, P) else i
  }

  /** A run is found exactly where it ends. */
  lemma SpanEndAt(s: string, i: nat, P: char -> bool, e: nat)
    requires i <= e <= |s|
    requires forall j :: i <= j < e ==> P(s[j])
    requires e < |s| ==> !P(s[e])
    ensures SpanEnd(s, i, P) == e
  {
    assert e < |s| ==> !Sat(s, e, P);
  }

  /** Every character of the run satisfies `P`. */
  lemma SpanEndAll(s: string, i: nat, P: char -> bool)
    requires i <= |s|
    ensures forall j :: i <= j < SpanEnd(s, i, P) ==> P(s[j])
  {
    forall j | i <= j < SpanEnd(s, i, P) ensures P(s[j]) {
      assert Sat(s, j, P);
    }
  }

  /** A run that starts inside the right part of `a + b` is a run of `b`. */
  lemma {:induction false} SpanEndShift(a: string, b: string, P: char -> bool, k: nat, p: nat)
    requires k <= |b| && p == |a| + k
    ensures SpanEnd(a + b, p, P) == |a| + SpanEnd(b, k, P)
    decreases |b| - k
  {
    if k < |b| {
      assert (a + b)[p] == b[k];
      if P(b[k]) {
        SpanEndShift(a, b, P, k + 1, p + 1);
      }
    }
  }

  function DigitChar(n: nat): (c: char)
    requires n < 10
    ensures '0' <= c <= '9'
  {
    ['0', '1', '2', '3', '4', '5', '6', '7', '8', '9'][n]
  }

  predicate IsDigit(c: char) {
    '0' <= c <= '9'
  }

  function DigitValue(c: char): (n: nat)
    requires IsDigit(c)
    ensures n < 10
  {
    (c as int) - ('0' as int)
  }

  predicate AllDigits(s: string) {
    forall i :: 0 <= i < |s| ==> IsDigit(s[i])
  }

  /** The value of a string of decimal digits, most significant first. */
  function DigitsValue(s: string): nat
    requires AllDigits(s)
    decreases |s|
  {
    if s == [] then 0 else DigitsValue(s[..|s| - 1]) * 10 + DigitValue(s[|s| - 1])
  }

  /** The shortest decimal text of `n`. */
  function NatToDecimal(n: nat): (r: string)
    ensures r != [] && AllDigits(r)
    ensures |r| > 1 ==> r[0] != '0'
    decreases n
  {
    if n < 10 then [DigitChar(n)] else NatToDecimal(n / 10) + [DigitChar(n % 10)]
  }

  /** std::to_string(int) and PHP's (string) on an integer key. */
  function IntToDecimal(n: int): string {
    if n < 0 then "-" + NatToDecimal(-n) else NatToDecimal(n)
  }

  lemma {:induction false} DecimalRoundTrip(n: nat)
    ensures DigitsValue(NatToDecimal(n)) == n
    decreases n
  {
    if n >= 10 {
      var r := NatToDecimal(n);
      assert r[..|r| - 1] == NatToDecimal(n / 10);
      DecimalRoundTrip(n / 10);
    } else {
      assert DigitValue(DigitChar(n)) == n;
    }
  }
  /** Every piece Split yields is a substring of the text it came from. */
  lemma {:induction false} SplitPieceContained(s: string, d: char, piece: string)
    requires piece in Split(s, d)
    ensures Contains(s, piece)
    decreases |s|
  {
    var i := FindChar(s, d, 0);
    if i == |s| {
      ContainsPrefix(s, |s|);
      assert s[..|s|] == s;
    } else if piece == s[..i] {
      ContainsPrefix(s, i);
    } else {
      SplitPieceContained(s[i + 1..], d, piece);
      ContainsSuffix(s, i + 1);
      ContainsTrans(s, s[i + 1..], piece);
    }
  }

  lemma ContainsPrefix(s: string, n: nat)
    requires n <= |s|
    ensures Contains(s, s[..n])
  {
    assert s[0..n] == s[..n];
    ContainsAt(s, s[..n], 0);
  }

  lemma ContainsSuffix(s: string, n: nat)
    requires n <= |s|
    ensures Contains(s, s[n..])
  {
    assert s[n..n + |s[n..]|] == s[n..];
    ContainsAt(s, s[n..], n);
  }

  /** A substring of `s` holds only characters of `s`. */
  lemma ContainsChars(s: string, t: string, c: char)
    requires Contains(s, t) && c in t
    ensures c in s
  {
    ContainsIff(s, t);
    var i :| OccursAt(s, t, i);
    var k :| 0 <= k < |t| && t[k] == c;
    OccursAtIndex(s, t, i, k);
  }

  /** std::string's operator<: lexicographic order on character codes. */
  predicate Less(a: string, b: string)
    decreases |a|
  {
    if a == [] then b != []
    else b != [] && (a[0] < b[0] || (a[0] == b[0] && Less(a[1..], b[1..])))
  }

  lemma {:induction false} LessIrreflexive(a: string)
    ensures !Less(a, a)
    decreases |a|
  {
    if a != [] {
      LessIrreflexive(a[1..]);
    }
  }

  lemma {:induction false} LessTransitive(a: string, b: string, c: string)
    requires Less(a, b) && Less(b, c)
    ensures Less(a, c)
    decreases |a|
  {
    if a != [] && a[0] == b[0] && b[0] == c[0] {
      LessTransitive(a[1..], b[1..], c[1..]);
    }
  }

  lemma {:induction false} LessTotal(a: string, b: string)
    requires a != b
    ensures Less(a, b) || Less(b, a)
    decreases |a|
  {
    if a != [] && b != [] && a[0] == b[0] {
      assert a == [a[0]] + a[1..] && b == [b[0]] + b[1..];
      LessTotal(a[1..], b[1..]);
    }
  }

  /** `k` is the least of `keys` under Less. */
  predicate IsLeast(k: string, keys: set<string>) {
    k in keys && forall x :: x in keys && x != k ==> Less(k, x)
  }

  /** A finite non-empty set of strings has a least element. */
  lemma {:induction false} LeastExists(keys: set<string>)
    requires keys != {}
    ensures exists k :: IsLeast(k, keys)
    decreases |keys|
  {
    var y :| y in keys;
    var rest := keys - {y};
    if rest == {} {
      assert keys == {y};
      assert IsLeast(y, keys);
    } else {
      assert |rest| < |keys|;
      LeastExists(rest);
      var k :| IsLeast(k, rest);
      LessTotal(k, y);
      if Less(y, k) {
        forall x | x in keys && x != y
          ensures Less(y, x)
        {
          if x != k {
            assert x in rest;
            LessTransitive(y, k, x);
          }
        }
        assert IsLeast(y, keys);
      } else {
        forall x | x in keys && x != k
          ensures Less(k, x)
        {
          if x != y {
            assert x in rest;
          }
        }
        assert IsLeast(k, keys);
      }
    }
  }

  /** The least element is unique. */
  lemma LeastUnique(k1: string, k2: string, keys: set<string>)
    requires IsLeast(k1, keys) && IsLeast(k2, keys)
    ensures k1 == k2
  {
    if k1 != k2 {
      LessTransitive(k1, k2, k1);
      LessIrreflexive(k1);
    }
  }

  /** An occurrence of `t` that avoids `d` lies inside one of the pieces of Split(s, d). */
  lemma {:induction false} SplitFindsOccurrence(s: string, d: char, t: string, i: int)
    requires OccursAt(s, t, i) && d !in t && s != []
    ensures exists piece :: piece in Split(s, d) && Contains(piece, t)
    decreases |s|
  {
    var pieces := Split(s, d);
    var j := FindChar(s, d, 0);
    if t == [] {
      assert s[0..0] == t;
      ContainsAt(pieces[0], t, 0);
    } else if j == |s| {
      assert pieces == [s];
      ContainsAt(s, t, i);
    } else if i + |t| <= j {
      assert pieces[0] == s[..j];
      assert s[..j][i..i + |t|] == s[i..i + |t|];
      ContainsAt(s[..j], t, i);
    } else {
      if i <= j {
        OccursAtIndex(s, t, i, j - i);
      }
      var r := s[j + 1..];
      assert r[i - j - 1..i - j - 1 + |t|] == s[i..i + |t|];
      SplitFindsOccurrence(r, d, t, i - j - 1);
      var piece :| piece in Split(r, d) && Contains(piece, t);
      assert pieces == [s[..j]] + Split(r, d);
    }
  }

  /** Concatenation regrouped; stated once so that loops appending to a sequence need not re-derive it. */
  lemma AppendAssoc<T>(a: seq<T>, b: seq<T>, c: seq<T>)
    ensures a + (b + c) == (a + b) + c
  {
  }
}
