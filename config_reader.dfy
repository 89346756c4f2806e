/**
 * The baseline reader of os_controlsystem (load_config): a tolerant,
 * position-based scanner over a JSON-like text. It is not a JSON parser:
 * every field is located with plain substring searches, exactly as the
 * program does, so nested objects, escaped quotes or keys that also appear
 * inside values are read the way the searches happen to find them.
 */
module ConfigReader {
  import opened Wrappers
  import opened Strings

  /** The fields load_config fills. An empty serviceExec means "not set". */
  datatype Baseline = Baseline(
    serviceName: string,
    serviceExec: string,
    servicePort: int,
    sysctl: map<string, string>)

  function Quoted(t: string): string {
    ['"'] + t + ['"']
  }

  /** The characters s[q1 + 1..q2] sit between two quotes of `s`. */
  lemma QuotedSliceOccurs(s: string, q1: nat, q2: nat)
    requires q1 < q2 < |s| && s[q1] == '"' && s[q2] == '"'
    ensures OccursAt(s, Quoted(s[q1 + 1..q2]), q1)
  {
    assert s[q1..q2 + 1] == Quoted(s[q1 + 1..q2]);
  }

  // ---------------------------------------------------------------------
  // get_string

  /**
   * get_string(key): the text between the first two quotes that follow the
   * first ':' at or after the first occurrence of "key"; "" when any of
   * those four searches fails.
   */
  function GetString(s: string, key: string): string {
    match ValueSpan(s, key)
    case None => ""
    case Some((a, b)) => s[a..b]
  }

  /**
   * Where get_string's value sits: the positions just after the first quote
   * and at the second quote; None when one of the four searches fails.
   */
  function ValueSpan(s: string, key: string): (r: Option<(nat, nat)>)
    ensures r.Some? ==> 0 < r.value.0 <= r.value.1 < |s|
    ensures r.Some? ==> s[r.value.0 - 1] == '"' && s[r.value.1] == '"'
    ensures r.Some? ==> forall j :: r.value.0 <= j < r.value.1 ==> !CharAt(s, j, '"')
    ensures Find(s, Quoted(key), 0).None? ==> r.None?
  {
    match Find(s, Quoted(key), 0)
    case None => None
    case Some(pos) =>
      var colon := FindChar(s, ':', pos);
      if colon == |s| then None else
      var q1 := FindChar(s, '"', colon + 1);
      if q1 == |s| then None else
      var q2 := FindChar(s, '"', q1 + 1);
      if q2 == |s| then None else
      Some((q1 + 1, q2))
  }

  /** get_string never returns a quote, and returns nothing at all when "key" is absent. */
  lemma GetStringSpec(s: string, key: string)
    ensures '"' !in GetString(s, key)
    ensures !Contains(s, Quoted(key)) ==> GetString(s, key) == []
  {
    match ValueSpan(s, key)
    case None =>
    case Some((a, b)) =>
      CharNotIn(s, '"', a, b);
  }

  /** A non-empty result of get_string is quoted somewhere in the text. */
  lemma GetStringQuotedIn(s: string, key: string)
    ensures GetString(s, key) != [] ==> exists i :: OccursAt(s, Quoted(GetString(s, key)), i)
  {
    match ValueSpan(s, key)
    case None =>
    case Some((a, b)) =>
      QuotedSliceOccurs(s, a - 1, b);
  }

  /** get_string once its four searches are known. */
  lemma ValueSpanFound(s: string, key: string, pos: nat, colon: nat, q1: nat, q2: nat)
    requires Find(s, Quoted(key), 0) == Some(pos)
    requires FindChar(s, ':', pos) == colon < |s|
    requires FindChar(s, '"', colon + 1) == q1 < |s|
    requires FindChar(s, '"', q1 + 1) == q2 < |s|
    ensures ValueSpan(s, key) == Some((q1 + 1, q2))
  {
  }

  /** The text `pre "key":t`, grouped so that each search meets one piece at a time. */
  function Keyed(pre: string, key: string, t: string): string {
    pre + (Quoted(key) + ([':'] + t))
  }

  /** The first `"key"` in `pre "key"` is the one written after `pre`. */
  predicate KeyFirstAt(pre: string, key: string) {
    Find(pre + Quoted(key), Quoted(key), 0) == Some(|pre|)
  }

  /** A quote-free prefix cannot hold or begin a `"key"`. */
  lemma QuoteFreeKeyFirst(pre: string, key: string)
    requires '"' !in pre
    ensures KeyFirstAt(pre, key)
  {
    var q := Quoted(key);
    assert (pre + q)[|pre|..] == q;
    assert OccursAt(q, q, 0);
    FindPast(pre, q, q);
  }

  /** When `"key"` first occurs after `pre`, the search for it stops there whatever follows. */
  lemma KeyedFind(pre: string, key: string, t: string)
    requires KeyFirstAt(pre, key)
    ensures Find(Keyed(pre, key, t), Quoted(key), 0) == Some(|pre|)
  {
    var q := Quoted(key);
    assert Keyed(pre, key, t) == (pre + q) + ([':'] + t);
    FindInPrefix(pre + q, [':'] + t, q);
  }

  /** The first ':' at or after "key" is the one right after it, when the key holds none. */
  lemma KeyedColon(pre: string, key: string, t: string)
    requires ':' !in key
    ensures FindChar(Keyed(pre, key, t), ':', |pre|) == |pre| + |key| + 2
  {
    var q := Quoted(key);
    assert ':' !in q;
    FindCharShift(pre, q + ([':'] + t), ':', 0, |pre|);
    FindCharPast(q, [':'] + t, ':');
  }

  /** A character search that starts after the ':' runs in `t`. */
  lemma KeyedShift(pre: string, key: string, t: string, c: char, k: nat, p: nat)
    requires p == |pre| + |key| + 3 + k
    ensures FindChar(Keyed(pre, key, t), c, p) == |pre| + |key| + 3 + FindChar(t, c, k)
  {
    var q := Quoted(key);
    FindCharShift(pre, q + ([':'] + t), c, |q| + 1 + k, p);
    FindCharShift(q, [':'] + t, c, 1 + k, |q| + 1 + k);
    FindCharShift([':'], t, c, k, 1 + k);
  }

  /** A run that starts after the ':' is a run of `t`. */
  lemma KeyedSpanShift(pre: string, key: string, t: string, P: char -> bool, k: nat, p: nat)
    requires k <= |t| && p == |pre| + |key| + 3 + k
    ensures SpanEnd(Keyed(pre, key, t), p, P) == |pre| + |key| + 3 + SpanEnd(t, k, P)
  {
    var q := Quoted(key);
    SpanEndShift(pre, q + ([':'] + t), P, |q| + 1 + k, p);
    SpanEndShift(q, [':'] + t, P, 1 + k, |q| + 1 + k);
    SpanEndShift([':'], t, P, k, 1 + k);
  }

  /** In `sep "v" rest`, the first two quotes enclose `v`. */
  lemma QuotesAroundValue(sep: string, v: string, rest: string)
    requires '"' !in sep && '"' !in v
    ensures var t := sep + (['"'] + (v + (['"'] + rest)));
      FindChar(t, '"', 0) == |sep| && FindChar(t, '"', |sep| + 1) == |sep| + 1 + |v| < |t|
  {
    var u := v + (['"'] + rest);
    FindCharPast(sep, ['"'] + u, '"');
    FindCharShift(sep, ['"'] + u, '"', 1, |sep| + 1);
    FindCharShift(['"'], u, '"', 0, 1);
    FindCharPast(v, ['"'] + rest, '"');
  }

  /** get_string's search for the opening quote of the value. */
  lemma FieldOpeningQuote(pre: string, key: string, sep: string, v: string, rest: string, colon: nat, q1: nat)
    requires '"' !in sep && '"' !in v
    requires colon == |pre| + |key| + 2 && q1 == colon + 1 + |sep|
    ensures FindChar(Keyed(pre, key, sep + (['"'] + (v + (['"'] + rest)))), '"', colon + 1) == q1
  {
    QuotesAroundValue(sep, v, rest);
    KeyedShift(pre, key, sep + (['"'] + (v + (['"'] + rest))), '"', 0, colon + 1);
  }

  /** get_string's search for the closing quote of the value. */
  lemma FieldClosingQuote(pre: string, key: string, sep: string, v: string, rest: string, q1: nat)
    requires '"' !in sep && '"' !in v
    requires q1 == |pre| + |key| + 3 + |sep|
    ensures var s := Keyed(pre, key, sep + (['"'] + (v + (['"'] + rest))));
      FindChar(s, '"', q1 + 1) == q1 + 1 + |v| < |s|
  {
    QuotesAroundValue(sep, v, rest);
    KeyedShift(pre, key, sep + (['"'] + (v + (['"'] + rest))), '"', |sep| + 1, q1 + 1);
  }

  /** Where the value sits in the written field. */
  lemma FieldValue(pre: string, key: string, sep: string, v: string, rest: string, i: nat)
    requires i == |pre| + |key| + |sep| + 4
    ensures var s := Keyed(pre, key, sep + (['"'] + (v + (['"'] + rest))));
      i + |v| < |s| && s[i..i + |v|] == v
  {
    var s := Keyed(pre, key, sep + (['"'] + (v + (['"'] + rest))));
    assert s == (pre + Quoted(key) + [':'] + sep + ['"']) + (v + (['"'] + rest));
  }

  /** get_string gives `v` once its four searches have landed around `v`. */
  lemma GetStringFrom(s: string, key: string, v: string, pos: nat, colon: nat, q1: nat)
    requires Find(s, Quoted(key), 0) == Some(pos)
    requires FindChar(s, ':', pos) == colon < |s|
    requires FindChar(s, '"', colon + 1) == q1 < |s|
    requires FindChar(s, '"', q1 + 1) == q1 + 1 + |v| < |s|
    requires s[q1 + 1..q1 + 1 + |v|] == v
    ensures GetString(s, key) == v
  {
    ValueSpanFound(s, key, pos, colon, q1, q1 + 1 + |v|);
  }

  /** The written field, in the grouping the searches use. */
  lemma FieldRegroup(pre: string, key: string, sep: string, v: string, rest: string)
    ensures pre + Quoted(key) + [':'] + sep + Quoted(v) + rest
      == Keyed(pre, key, sep + (['"'] + (v + (['"'] + rest))))
  {
  }

  /**
   * Reading back a written field: in `pre "key":sep "v" rest`, where `"key"`
   * first occurs after `pre`, with no quote in `sep` or `v` and no ':' in
   * the key, get_string gives `v`.
   */
  lemma GetStringReadsField(pre: string, key: string, sep: string, v: string, rest: string)
    requires KeyFirstAt(pre, key) && ':' !in key && '"' !in sep && '"' !in v
    ensures GetString(pre + Quoted(key) + [':'] + sep + Quoted(v) + rest, key) == v
  {
    FieldRegroup(pre, key, sep, v, rest);
    GetStringReadsKeyed(pre, key, sep, v, rest);
  }

  lemma GetStringReadsKeyed(pre: string, key: string, sep: string, v: string, rest: string)
    requires KeyFirstAt(pre, key) && ':' !in key && '"' !in sep && '"' !in v
    ensures GetString(Keyed(pre, key, sep + (['"'] + (v + (['"'] + rest)))), key) == v
  {
    var s := Keyed(pre, key, sep + (['"'] + (v + (['"'] + rest))));
    var colon := |pre| + |key| + 2;
    var q1 := colon + 1 + |sep|;
    KeyedFind(pre, key, sep + (['"'] + (v + (['"'] + rest))));
    KeyedColon(pre, key, sep + (['"'] + (v + (['"'] + rest))));
    FieldOpeningQuote(pre, key, sep, v, rest, colon, q1);
    FieldClosingQuote(pre, key, sep, v, rest, q1);
    FieldValue(pre, key, sep, v, rest, q1 + 1);
    GetStringFrom(s, key, v, |pre|, colon, q1);
  }

  // ---------------------------------------------------------------------
  // get_int

  predicate IsNumberChar(c: char) {
    IsDigit(c) || c == '-'
  }

  /**
   * std::stoi on the extracted run: an optional '-', then the longest run of
   * digits. No digit, or a value outside the 32-bit int range, throws, which
   * the model returns as None.
   */
  function Stoi(num: string): (r: Option<int>)
    ensures r.Some? ==> -0x8000_0000 <= r.value < 0x8000_0000
  {
    var neg := num != [] && num[0] == '-';
    var body := if neg then num[1..] else num;
    var d := SpanEnd(body, 0, IsDigit);
    SpanEndAll(body, 0, IsDigit);
    if d == 0 then None
    else
      var v := if neg then 0 - DigitsValue(body[..d]) else DigitsValue(body[..d]) as int;
      if -0x8000_0000 <= v < 0x8000_0000 then Some(v) else None
  }

  /**
   * What get_int(key) returns: -1 when "key", the ':' after it, or a
   * non-empty run of digits and '-' after the blanks is missing, or when
   * std::stoi throws on that run; the parsed value otherwise.
   */
  function IntField(s: string, key: string): int {
    match NumberSpan(s, key)
    case None => -1
    case Some((i, j)) => ParseRun(s[i..j])
  }

  /**
   * Where get_int's number sits: after "key", the first ':' at or after it
   * and the blanks that follow, the run of digits and '-'; None when one of
   * the two searches fails.
   */
  function NumberSpan(s: string, key: string): (r: Option<(nat, nat)>)
    ensures r.Some? ==> r.value.0 <= r.value.1 <= |s|
    ensures r.Some? ==> forall k :: r.value.0 <= k < r.value.1 ==> Sat(s, k, IsNumberChar)
    ensures r.Some? && r.value.1 < |s| ==> !IsNumberChar(s[r.value.1])
  {
    match Find(s, Quoted(key), 0)
    case None => None
    case Some(pos) =>
      var colon := FindChar(s, ':', pos);
      if colon == |s| then None else
      var i := SpanEnd(s, colon + 1, IsCSpace);
      Some((i, SpanEnd(s, i, IsNumberChar)))
  }

  /** The end of get_int: -1 for an empty run or when std::stoi throws. */
  function ParseRun(num: string): int {
    if num == [] then -1
    else match Stoi(num)
      case None => -1
      case Some(n) => n
  }

  /** get_int once its two searches and the two runs are known. */
  lemma NumberSpanAt(s: string, key: string, pos: nat, colon: nat, i: nat, j: nat)
    requires Find(s, Quoted(key), 0) == Some(pos)
    requires FindChar(s, ':', pos) == colon < |s|
    requires SpanEnd(s, colon + 1, IsCSpace) == i && i <= |s|
    requires SpanEnd(s, i, IsNumberChar) == j
    ensures NumberSpan(s, key) == Some((i, j))
  {
  }

  /** get_int: skip blanks after the colon, take the run of digits and '-', convert. */
  method GetInt(s: string, key: string) returns (n: int)
    ensures n == IntField(s, key)
    ensures n == -1 || -0x8000_0000 <= n < 0x8000_0000
  {
    var pos := Find(s, Quoted(key), 0);
    if pos.None? {
      return -1;
    }
    var colon := FindChar(s, ':', pos.value);
    if colon == |s| {
      return -1;
    }
    var i := colon + 1;
    while i < |s| && IsCSpace(s[i])
      invariant colon + 1 <= i <= |s|
      invariant SpanEnd(s, i, IsCSpace) == SpanEnd(s, colon + 1, IsCSpace)
    {
      i := i + 1;
    }
    var j := i;
    while j < |s| && IsNumberChar(s[j])
      invariant i <= j <= |s|
      invariant SpanEnd(s, j, IsNumberChar) == SpanEnd(s, i, IsNumberChar)
    {
      j := j + 1;
    }
    NumberSpanAt(s, key, pos.value, colon, i, j);
    if j <= i {
      return -1;
    }
    var parsed := Stoi(s[i..j]);
    n := if parsed.None? then -1 else parsed.value;
  }

  /** std::stoi reads back the decimal text of any 32-bit int. */
  lemma StoiDecimal(n: int)
    requires -0x8000_0000 <= n < 0x8000_0000
    ensures Stoi(IntToDecimal(n)) == Some(n)
  {
    var num := IntToDecimal(n);
    var body := if n < 0 then NatToDecimal(-n) else NatToDecimal(n);
    assert num != [] && num[0] == '-' <==> n < 0;
    if n < 0 {
      assert num[1..] == body;
    }
    SpanEndAt(body, 0, IsDigit, |body|);
    assert body[..|body|] == body;
    DecimalRoundTrip(if n < 0 then -n else n);
  }

  /** get_int's conversion reads back the decimal text of any 32-bit int. */
  lemma ParseRunDecimal(n: int)
    requires -0x8000_0000 <= n < 0x8000_0000
    ensures ParseRun(IntToDecimal(n)) == n
  {
    StoiDecimal(n);
  }

  /** The decimal text of an int is a non-empty run of digits and '-'. */
  lemma DecimalIsNumberRun(n: int)
    ensures IntToDecimal(n) != []
    ensures forall k :: 0 <= k < |IntToDecimal(n)| ==> IsNumberChar(IntToDecimal(n)[k])
  {
    var num := IntToDecimal(n);
    if n < 0 {
      forall k | 0 < k < |num| ensures IsNumberChar(num[k]) {
        assert num[k] == NatToDecimal(-n)[k - 1];
      }
    }
  }

  /** In `sp num rest`, the blanks end where `num` starts and the number run where `num` ends. */
  lemma BlanksThenNumber(sp: string, n: int, rest: string)
    requires forall j :: 0 <= j < |sp| ==> IsCSpace(sp[j])
    requires rest != [] ==> !IsNumberChar(rest[0])
    ensures var t := sp + (IntToDecimal(n) + rest);
      SpanEnd(t, 0, IsCSpace) == |sp| && SpanEnd(t, |sp|, IsNumberChar) == |sp| + |IntToDecimal(n)|
  {
    var num := IntToDecimal(n);
    var t := sp + (num + rest);
    DecimalIsNumberRun(n);
    forall j | 0 <= j < |sp| ensures IsCSpace(t[j]) {
      assert t[j] == sp[j];
    }
    assert t[|sp|] == num[0];
    SpanEndAt(t, 0, IsCSpace, |sp|);
    forall j | 0 <= j < |num| ensures IsNumberChar((num + rest)[j]) {
      assert (num + rest)[j] == num[j];
    }
    if rest != [] {
      assert (num + rest)[|num|] == rest[0];
    }
    SpanEndAt(num + rest, 0, IsNumberChar, |num|);
    SpanEndShift(sp, num + rest, IsNumberChar, 0, |sp|);
  }

  /** get_int's two runs in the written field. */
  lemma FieldNumberSpan(pre: string, key: string, sp: string, n: int, rest: string, colon: nat, i: nat)
    requires forall j :: 0 <= j < |sp| ==> IsCSpace(sp[j])
    requires rest != [] ==> !IsNumberChar(rest[0])
    requires colon == |pre| + |key| + 2 && i == colon + 1 + |sp|
    ensures var s := Keyed(pre, key, sp + (IntToDecimal(n) + rest));
      SpanEnd(s, colon + 1, IsCSpace) == i && SpanEnd(s, i, IsNumberChar) == i + |IntToDecimal(n)|
  {
    var t := sp + (IntToDecimal(n) + rest);
    BlanksThenNumber(sp, n, rest);
    KeyedSpanShift(pre, key, t, IsCSpace, 0, colon + 1);
    KeyedSpanShift(pre, key, t, IsNumberChar, |sp|, i);
  }

  /** Where the number sits in the written field. */
  lemma FieldNumber(pre: string, key: string, sp: string, n: int, rest: string, i: nat)
    requires i == |pre| + |key| + 3 + |sp|
    ensures var s := Keyed(pre, key, sp + (IntToDecimal(n) + rest));
      i + |IntToDecimal(n)| <= |s| && s[i..i + |IntToDecimal(n)|] == IntToDecimal(n)
  {
    var s := Keyed(pre, key, sp + (IntToDecimal(n) + rest));
    assert s == (pre + Quoted(key) + [':'] + sp) + (IntToDecimal(n) + rest);
  }

  /** get_int gives what its conversion makes of `num` once its searches and runs have landed around it. */
  lemma IntFieldFrom(s: string, key: string, num: string, pos: nat, colon: nat, i: nat)
    requires Find(s, Quoted(key), 0) == Some(pos)
    requires FindChar(s, ':', pos) == colon < |s|
    requires SpanEnd(s, colon + 1, IsCSpace) == i && i + |num| <= |s|
    requires SpanEnd(s, i, IsNumberChar) == i + |num|
    requires s[i..i + |num|] == num
    ensures IntField(s, key) == ParseRun(num)
  {
    NumberSpanAt(s, key, pos, colon, i, i + |num|);
  }

  /** The written number field, in the grouping the searches use. */
  lemma NumberRegroup(pre: string, key: string, sp: string, n: int, rest: string)
    ensures pre + Quoted(key) + [':'] + sp + IntToDecimal(n) + rest
      == Keyed(pre, key, sp + (IntToDecimal(n) + rest))
  {
  }

  /**
   * Reading back a written number: in `pre "key":sp N rest`, where `"key"`
   * first occurs after `pre`, with blanks
   * `sp` and `rest` not continuing the number, get_int gives N.
   */
  lemma IntFieldReadsNumber(pre: string, key: string, sp: string, n: int, rest: string)
    requires KeyFirstAt(pre, key) && ':' !in key
    requires forall j :: 0 <= j < |sp| ==> IsCSpace(sp[j])
    requires rest != [] ==> !IsNumberChar(rest[0])
    requires -0x8000_0000 <= n < 0x8000_0000
    ensures IntField(pre + Quoted(key) + [':'] + sp + IntToDecimal(n) + rest, key) == n
  {
    NumberRegroup(pre, key, sp, n, rest);
    IntFieldReadsKeyed(pre, key, sp, n, rest);
  }

  lemma IntFieldReadsKeyed(pre: string, key: string, sp: string, n: int, rest: string)
    requires KeyFirstAt(pre, key) && ':' !in key
    requires forall j :: 0 <= j < |sp| ==> IsCSpace(sp[j])
    requires rest != [] ==> !IsNumberChar(rest[0])
    requires -0x8000_0000 <= n < 0x8000_0000
    ensures IntField(Keyed(pre, key, sp + (IntToDecimal(n) + rest)), key) == n
  {
    var t := sp + (IntToDecimal(n) + rest);
    var s := Keyed(pre, key, t);
    var colon := |pre| + |key| + 2;
    var i := colon + 1 + |sp|;
    KeyedFind(pre, key, t);
    KeyedColon(pre, key, t);
    FieldNumberSpan(pre, key, sp, n, rest, colon, i);
    FieldNumber(pre, key, sp, n, rest, i);
    IntFieldFrom(s, key, IntToDecimal(n), |pre|, colon, i);
    ParseRunDecimal(n);
  }

  // ---------------------------------------------------------------------
  // The "sysctl" object scan

  /** One pass of the scan loop body: a quoted key, the ':' after it, a quoted value. */
  datatype ScanStep = Stop | Entry(key: string, value: string, next: nat)

  /** The first two searches of a loop iteration: the quotes q and r around the key. */
  function KeySpan(s: string, p: nat): (r: Option<(nat, nat)>)
    ensures r.Some? ==> p <= r.value.0 < r.value.1 < |s| && s[r.value.1] == '"'
    ensures r.Some? ==> forall j :: r.value.0 < j < r.value.1 ==> !CharAt(s, j, '"')
  {
    var q := FindChar(s, '"', p);
    if q == |s| then None else
    var r := FindChar(s, '"', q + 1);
    if r == |s| then None else
    Some((q, r))
  }

  /** The last three searches: the first ':' at or after `r`, then the quotes v1 and v2 around the value. */
  function ValueQuotes(s: string, r: nat): (res: Option<(nat, nat)>)
    ensures res.Some? ==> r <= res.value.0 < res.value.1 < |s|
    ensures res.Some? && r < |s| && s[r] == '"' ==> r < res.value.0
    ensures res.Some? ==> forall j :: res.value.0 < j < res.value.1 ==> !CharAt(s, j, '"')
  {
    var colon := FindChar(s, ':', r);
    if colon == |s| then None else
    var v1 := FindChar(s, '"', colon);
    if v1 == |s| then None else
    var v2 := FindChar(s, '"', v1 + 1);
    if v2 == |s| then None else
    Some((v1, v2))
  }

  /** The five searches of one loop iteration started at `p`; None where the program breaks. */
  function StepSpan(s: string, p: nat): (res: Option<(nat, nat, nat, nat)>)
    ensures res.Some? ==> p <= res.value.0 < res.value.1 < res.value.2 < res.value.3 < |s|
    ensures res.Some? ==> forall j :: res.value.0 < j < res.value.1 ==> !CharAt(s, j, '"')
    ensures res.Some? ==> forall j :: res.value.2 < j < res.value.3 ==> !CharAt(s, j, '"')
  {
    match KeySpan(s, p)
    case None => None
    case Some((q, r)) =>
      match ValueQuotes(s, r)
      case None => None
      case Some((v1, v2)) => Some((q, r, v1, v2))
  }

  /**
   * One loop iteration started at `p`: the pair it inserts and where the
   * next one starts (v2 + 1, always beyond `p`, which is why the loop
   * terminates); Stop where the program breaks.
   */
  function ScanStepAt(s: string, p: nat): (r: ScanStep)
    ensures r.Entry? ==> p < r.next <= |s|
  {
    match StepSpan(s, p)
    case None => Stop
    case Some((q, r, v1, v2)) => Entry(s[q + 1..r], s[v1 + 1..v2], v2 + 1)
  }

  /** A step's key and value are the text between two pairs of consecutive quotes. */
  lemma ScanStepQuoteFree(s: string, p: nat)
    ensures ScanStepAt(s, p).Entry? ==> '"' !in ScanStepAt(s, p).key && '"' !in ScanStepAt(s, p).value
  {
    match StepSpan(s, p)
    case None =>
    case Some((q, r, v1, v2)) =>
      CharNotIn(s, '"', q + 1, r);
      CharNotIn(s, '"', v1 + 1, v2);
  }

  /** The key searches of a step started inside the right part of `a + b` run in `b`. */
  lemma KeySpanShift(a: string, b: string, k: nat, p: nat)
    requires p == |a| + k
    ensures KeySpan(a + b, p) == match KeySpan(b, k)
      case None => None
      case Some((q, r)) => Some((|a| + q, |a| + r))
  {
    var s := a + b;
    var q := FindChar(s, '"', p);
    FindCharShift(a, b, '"', k, p);
    if q < |s| {
      FindCharShift(a, b, '"', q - |a| + 1, q + 1);
    }
  }

  /** The value searches from inside the right part of `a + b` run in `b`. */
  lemma ValueQuotesShift(a: string, b: string, k: nat, p: nat)
    requires p == |a| + k
    ensures ValueQuotes(a + b, p) == match ValueQuotes(b, k)
      case None => None
      case Some((v1, v2)) => Some((|a| + v1, |a| + v2))
  {
    var s := a + b;
    var colon := FindChar(s, ':', p);
    FindCharShift(a, b, ':', k, p);
    if colon < |s| {
      var v1 := FindChar(s, '"', colon);
      FindCharShift(a, b, '"', colon - |a|, colon);
      if v1 < |s| {
        FindCharShift(a, b, '"', v1 - |a| + 1, v1 + 1);
      }
    }
  }

  /** The searches of a step started inside the right part of `a + b` run in `b`. */
  lemma StepSpanShift(a: string, b: string, k: nat, p: nat)
    requires p == |a| + k
    ensures StepSpan(a + b, p) == match StepSpan(b, k)
      case None => None
      case Some((q, r, v1, v2)) => Some((|a| + q, |a| + r, |a| + v1, |a| + v2))
  {
    KeySpanShift(a, b, k, p);
    match KeySpan(b, k)
    case None =>
    case Some((q, r)) =>
      ValueQuotesShift(a, b, r, |a| + r);
  }

  /** A step started inside the right part of `a + b` reads the same pair from `b`. */
  lemma ScanStepShift(a: string, b: string, k: nat, p: nat)
    requires p == |a| + k
    ensures ScanStepAt(a + b, p) == match ScanStepAt(b, k)
      case Stop => Stop
      case Entry(key, value, next) => Entry(key, value, |a| + next)
  {
    StepSpanShift(a, b, k, p);
    match StepSpan(b, k)
    case None =>
      assert StepSpan(a + b, p) == None;
    case Some((q, r, v1, v2)) =>
      var span := (|a| + q, |a| + r, |a| + v1, |a| + v2);
      assert StepSpan(a + b, p) == Some(span);
      SliceShift(a, b, q + 1, r, span.0 + 1, span.1);
      SliceShift(a, b, v1 + 1, v2, span.2 + 1, span.3);
      assert ScanStepAt(a + b, p) == Entry((a + b)[span.0 + 1..span.1], (a + b)[span.2 + 1..span.3], span.3 + 1);
  }

  /**
   * The loop's exit test after a pair: a '}' follows `p` and comes before the
   * next ','. A missing ',' is npos, which every found '}' precedes; a
   * missing '}' is npos too and precedes nothing.
   */
  predicate ClosesAt(s: string, p: nat) {
    FindChar(s, '}', p) < FindChar(s, ',', p)
  }

  /** The object ends before another key starts: a '}' comes before the next '"'. */
  predicate EndsBeforeKey(s: string, p: nat) {
    FindChar(s, '}', p) < FindChar(s, '"', p)
  }

  /**
   * The pairs the scan loop inserts, in order, starting at `p`. With
   * `checkEnd` false this is the loop as written; with `checkEnd` true the
   * loop also stops when the object closes before the next key, which is
   * what makes an empty object read as empty.
   */
  function ScanPairs(s: string, p: nat, checkEnd: bool): seq<(string, string)>
    decreases |s| - p
  {
    if p >= |s| || (checkEnd && EndsBeforeKey(s, p)) then []
    else match ScanStepAt(s, p)
      case Stop => []
      case Entry(k, v, next) =>
        [(k, v)] + (if ClosesAt(s, next) then [] else ScanPairs(s, next, checkEnd))
  }

  /** One step of the scan, from a position inside the text where a pair is read. */
  lemma ScanPairsEntry(s: string, p: nat, checkEnd: bool)
    requires p < |s| && !(checkEnd && EndsBeforeKey(s, p)) && ScanStepAt(s, p).Entry?
    ensures var e := ScanStepAt(s, p);
      ScanPairs(s, p, checkEnd)
        == [(e.key, e.value)] + (if ClosesAt(s, e.next) then [] else ScanPairs(s, e.next, checkEnd))
  {
  }

  /** The exit test at a position inside the right part of `a + b` is the test in `b`. */
  lemma ClosesAtShift(a: string, b: string, k: nat, p: nat)
    requires p == |a| + k
    ensures ClosesAt(a + b, p) == ClosesAt(b, k)
  {
    FindCharShift(a, b, '}', k, p);
    FindCharShift(a, b, ',', k, p);
  }

  lemma EndsBeforeKeyShift(a: string, b: string, k: nat, p: nat)
    requires p == |a| + k
    ensures EndsBeforeKey(a + b, p) == EndsBeforeKey(b, k)
  {
    FindCharShift(a, b, '}', k, p);
    FindCharShift(a, b, '"', k, p);
  }

  /** A scan started inside the right part of `a + b` reads what the scan of `b` reads. */
  lemma {:induction false} ScanPairsShift(a: string, b: string, k: nat, p: nat, checkEnd: bool)
    requires p == |a| + k
    ensures ScanPairs(a + b, p, checkEnd) == ScanPairs(b, k, checkEnd)
    decreases |b| - k
  {
    var s := a + b;
    if k >= |b| {
      assert ScanPairs(s, p, checkEnd) == [];
    } else {
      EndsBeforeKeyShift(a, b, k, p);
      if checkEnd && EndsBeforeKey(b, k) {
        assert ScanPairs(s, p, checkEnd) == [];
      } else {
        ScanStepShift(a, b, k, p);
        match ScanStepAt(b, k)
        case Stop =>
          assert ScanStepAt(s, p) == Stop;
          assert ScanPairs(s, p, checkEnd) == [];
        case Entry(key, value, next) =>
          var n := |a| + next;
          assert ScanStepAt(s, p) == Entry(key, value, n);
          ClosesAtShift(a, b, next, n);
          var tail := if ClosesAt(b, next) then [] else ScanPairs(b, next, checkEnd);
          if !ClosesAt(b, next) {
            ScanPairsShift(a, b, next, n, checkEnd);
          }
          assert ScanPairs(s, p, checkEnd) == [(key, value)] + tail;
      }
    }
  }

  /**
   * Characters that are neither a quote nor, when the end test is on, a '}'
   * do not change what the scan reads.
   */
  lemma ScanPairsSkip(s: string, p: nat, i: nat, checkEnd: bool)
    requires p <= i < |s|
    requires forall j :: p <= j < i ==> s[j] != '"'
    requires checkEnd ==> forall j :: p <= j < i ==> s[j] != '}'
    ensures ScanPairs(s, p, checkEnd) == ScanPairs(s, i, checkEnd)
  {
    FindCharSkip(s, '"', p, i);
    if checkEnd {
      FindCharSkip(s, '}', p, i);
      assert EndsBeforeKey(s, p) == EndsBeforeKey(s, i);
    }
    assert KeySpan(s, p) == KeySpan(s, i);
    assert StepSpan(s, p) == StepSpan(s, i);
    assert ScanStepAt(s, p) == ScanStepAt(s, i);
  }

  /** `"x"` followed by `u`, grouped the way the searches walk it. */
  function QuotedThen(x: string, u: string): string {
    ['"'] + (x + (['"'] + u))
  }

  /** The closing quote of `"x"` is the first quote after the opening one. */
  lemma QuotedClose(x: string, u: string)
    requires '"' !in x
    ensures FindChar(QuotedThen(x, u), '"', 1) == |x| + 1
  {
    FindCharShift(['"'], x + (['"'] + u), '"', 0, 1);
    FindCharPast(x, ['"'] + u, '"');
  }

  /** A search that starts after `"x"` runs in `u`. */
  lemma QuotedTail(x: string, u: string, c: char, k: nat, p: nat)
    requires p == |x| + 2 + k
    ensures FindChar(QuotedThen(x, u), c, p) == |x| + 2 + FindChar(u, c, k)
  {
    FindCharShift(['"'], x + (['"'] + u), c, |x| + 1 + k, p);
    FindCharShift(x, ['"'] + u, c, 1 + k, |x| + 1 + k);
    FindCharShift(['"'], u, c, k, 1 + k);
  }

  lemma QuotedText(x: string, u: string)
    ensures QuotedThen(x, u)[1..|x| + 1] == x
  {
    assert QuotedThen(x, u) == (['"'] + x) + (['"'] + u);
  }

  /** One written pair `"k": "v"` followed by `u`. */
  function EntryThen(k: string, v: string, u: string): string {
    QuotedThen(k, [':', ' '] + QuotedThen(v, u))
  }

  /** The key searches of a step at a written pair stop at the quotes around the key. */
  lemma EntryKey(k: string, v: string, u: string)
    requires '"' !in k
    ensures KeySpan(EntryThen(k, v, u), 0) == Some((0, |k| + 1))
  {
    var s := EntryThen(k, v, u);
    assert s[0] == '"';
    assert FindChar(s, '"', 0) == 0;
    QuotedClose(k, [':', ' '] + QuotedThen(v, u));
  }

  /** The ':' search from the key's closing quote stops right after it. */
  lemma EntryColon(k: string, v: string, u: string)
    ensures FindChar(EntryThen(k, v, u), ':', |k| + 1) == |k| + 2
  {
    var s := EntryThen(k, v, u);
    var t := [':', ' '] + QuotedThen(v, u);
    QuotedTail(k, t, ':', 0, |k| + 2);
    assert t[0] == ':';
    assert FindChar(t, ':', 0) == 0;
    assert s[|k| + 1] == '"';
  }

  lemma EntryOpening(k: string, v: string, u: string)
    ensures FindChar(EntryThen(k, v, u), '"', |k| + 2) == |k| + 4
  {
    var w := QuotedThen(v, u);
    QuotedTail(k, [':', ' '] + w, '"', 0, |k| + 2);
    assert w[0] == '"';
    assert FindChar(w, '"', 0) == 0;
    FindCharPast([':', ' '], w, '"');
  }

  lemma EntryClosing(k: string, v: string, u: string)
    requires '"' !in v
    ensures FindChar(EntryThen(k, v, u), '"', |k| + 5) == |k| + 5 + |v|
  {
    var w := QuotedThen(v, u);
    QuotedTail(k, [':', ' '] + w, '"', 3, |k| + 5);
    FindCharShift([':', ' '], w, '"', 1, 3);
    QuotedClose(v, u);
  }

  /** The value searches of a step at a written pair stop at the quotes around the value. */
  lemma EntryValue(k: string, v: string, u: string)
    requires '"' !in v
    ensures ValueQuotes(EntryThen(k, v, u), |k| + 1) == Some((|k| + 4, |k| + 5 + |v|))
  {
    EntryColon(k, v, u);
    EntryOpening(k, v, u);
    EntryClosing(k, v, u);
  }

  lemma EntryValueText(k: string, v: string, u: string)
    ensures EntryThen(k, v, u)[|k| + 5..|k| + 5 + |v|] == v
  {
    var pre := ['"'] + k + ['"', ':', ' '];
    assert EntryThen(k, v, u) == pre + QuotedThen(v, u);
    QuotedText(v, u);
    SliceShift(pre, QuotedThen(v, u), 1, |v| + 1, |k| + 5, |k| + 5 + |v|);
  }

  /** A step at a written pair reads that pair and moves past its closing quote. */
  lemma EntryStep(k: string, v: string, u: string)
    requires '"' !in k && '"' !in v
    ensures ScanStepAt(EntryThen(k, v, u), 0) == Entry(k, v, |k| + |v| + 6)
  {
    var s := EntryThen(k, v, u);
    EntryKey(k, v, u);
    EntryValue(k, v, u);
    assert StepSpan(s, 0) == Some((0, |k| + 1, |k| + 4, |k| + 5 + |v|));
    QuotedText(k, [':', ' '] + QuotedThen(v, u));
    EntryValueText(k, v, u);
  }

  /**
   * The body of a written object after its '{': the pairs as `"k": "v"`
   * separated by ", ", then the closing '}' and whatever follows.
   */
  function BodyText(ps: seq<(string, string)>, rest: string): string
    decreases |ps|
  {
    if ps == [] then ['}'] + rest
    else EntryThen(ps[0].0, ps[0].1, if |ps| == 1 then ['}'] + rest else [',', ' '] + BodyText(ps[1..], rest))
  }

  /** A step at a written pair ends `|k| + |v| + 6` characters in. */
  lemma EntrySplit(k: string, v: string, u: string)
    ensures EntryThen(k, v, u) == (['"'] + k + ['"', ':', ' ', '"'] + v + ['"']) + u
  {
  }

  /** The scan at a pair `e` that the step reads whole goes on in what follows `e`. */
  lemma EntryScanFrom(e: string, u: string, k: string, v: string, checkEnd: bool)
    requires e != [] && e[0] == '"'
    requires ScanStepAt(e + u, 0) == Entry(k, v, |e|)
    ensures ScanPairs(e + u, 0, checkEnd)
      == [(k, v)] + (if ClosesAt(u, 0) then [] else ScanPairs(u, 0, checkEnd))
  {
    var s := e + u;
    assert s[0] == '"';
    assert FindChar(s, '"', 0) == 0;
    ClosesAtShift(e, u, 0, |e|);
    ScanPairsShift(e, u, 0, |e|, checkEnd);
    ScanPairsEntry(s, 0, checkEnd);
  }

  /** The scan at a written pair reads it, then goes on in what follows it. */
  lemma EntryScan(k: string, v: string, u: string, checkEnd: bool)
    requires '"' !in k && '"' !in v
    ensures ScanPairs(EntryThen(k, v, u), 0, checkEnd)
      == [(k, v)] + (if ClosesAt(u, 0) then [] else ScanPairs(u, 0, checkEnd))
  {
    EntryStep(k, v, u);
    EntrySplit(k, v, u);
    EntryScanFrom(['"'] + k + ['"', ':', ' ', '"'] + v + ['"'], u, k, v, checkEnd);
  }

  /** The ", " between two pairs changes nothing the scan reads. */
  lemma SeparatorScan(b: string, checkEnd: bool)
    requires b != []
    ensures ScanPairs([',', ' '] + b, 0, checkEnd) == ScanPairs(b, 0, checkEnd)
  {
    var u := [',', ' '] + b;
    assert u[0] == ',' && u[1] == ' ';
    ScanPairsSkip(u, 0, 2, checkEnd);
    ScanPairsShift([',', ' '], b, 0, 2, checkEnd);
  }

  /** The corrected scan reads nothing from an empty body. */
  lemma BodyEmpty(rest: string)
    ensures ScanPairs(BodyText([], rest), 0, true) == []
  {
    var s := BodyText([], rest);
    assert s[0] == '}';
    assert FindChar(s, '}', 0) == 0;
    assert EndsBeforeKey(s, 0);
  }

  /** A body with one pair reads as that pair. */
  lemma BodyLast(k: string, v: string, rest: string, checkEnd: bool)
    requires '"' !in k && '"' !in v
    ensures ScanPairs(BodyText([(k, v)], rest), 0, checkEnd) == [(k, v)]
  {
    var u := ['}'] + rest;
    assert BodyText([(k, v)], rest) == EntryThen(k, v, u);
    EntryScan(k, v, u, checkEnd);
    assert u[0] == '}';
    assert FindChar(u, '}', 0) == 0;
    assert ClosesAt(u, 0);
  }

  /** A body with more pairs reads as its first pair and then the rest of the body. */
  lemma BodyMore(ps: seq<(string, string)>, rest: string, checkEnd: bool)
    requires |ps| >= 2 && '"' !in ps[0].0 && '"' !in ps[0].1
    ensures ScanPairs(BodyText(ps, rest), 0, checkEnd)
      == [ps[0]] + ScanPairs(BodyText(ps[1..], rest), 0, checkEnd)
  {
    var b := BodyText(ps[1..], rest);
    var u := [',', ' '] + b;
    assert BodyText(ps, rest) == EntryThen(ps[0].0, ps[0].1, u);
    EntryScan(ps[0].0, ps[0].1, u, checkEnd);
    assert u[0] == ',';
    assert FindChar(u, ',', 0) == 0;
    assert !ClosesAt(u, 0);
    assert b[0] == '"';
    SeparatorScan(b, checkEnd);
  }

  /** The scan reads back every pair of a written body; the scan as written needs at least one. */
  lemma {:induction false} ScanBody(ps: seq<(string, string)>, rest: string, checkEnd: bool)
    requires QuoteFree(ps)
    requires checkEnd || ps != []
    ensures ScanPairs(BodyText(ps, rest), 0, checkEnd) == ps
    decreases |ps|
  {
    if ps == [] {
      BodyEmpty(rest);
    } else if |ps| == 1 {
      BodyLast(ps[0].0, ps[0].1, rest, checkEnd);
      assert ps == [(ps[0].0, ps[0].1)];
    } else {
      var tail := ps[1..];
      assert ScanPairs(BodyText(tail, rest), 0, checkEnd) == tail by {
        assert QuoteFree(tail);
        ScanBody(tail, rest, checkEnd);
      }
      BodyMore(ps, rest, checkEnd);
      assert ps == [ps[0]] + tail;
    }
  }

  /** Where the scan starts: just after the first '{' that follows "sysctl". */
  function SysctlStart(s: string): Option<nat> {
    match Find(s, Quoted("sysctl"), 0)
    case None => None
    case Some(pos) =>
      var brace := FindChar(s, '{', pos);
      if brace == |s| then None else Some(brace + 1)
  }

  /** A character that is neither quote nor ':' nor in the key is first found after `"key":`. */
  lemma KeyedPast(pre: string, key: string, t: string, c: char)
    requires c != '"' && c != ':' && c !in key
    ensures FindChar(Keyed(pre, key, t), c, |pre|) == |pre| + |key| + 3 + FindChar(t, c, 0)
  {
    var q := Quoted(key);
    assert c !in q;
    FindCharShift(pre, q + ([':'] + t), c, 0, |pre|);
    FindCharPast(q, [':'] + t, c);
    FindCharPast([':'], t, c);
  }

  /** In a written `"sysctl": {` the scan starts right after the brace. */
  lemma SysctlStartAt(pre: string, sep: string, b: string)
    requires KeyFirstAt(pre, "sysctl") && '{' !in sep
    ensures SysctlStart(pre + Quoted("sysctl") + [':'] + sep + ['{'] + b)
      == Some(|pre + Quoted("sysctl") + [':'] + sep + ['{']|)
  {
    var t := sep + (['{'] + b);
    assert pre + Quoted("sysctl") + [':'] + sep + ['{'] + b == Keyed(pre, "sysctl", t);
    KeyedFind(pre, "sysctl", t);
    KeyedPast(pre, "sysctl", t, '{');
    FindCharPast(sep, ['{'] + b, '{');
    assert (['{'] + b)[0] == '{';
  }

  /** The pairs the scan of load_config (lines 99-127) inserts, as written. */
  function SysctlPairsAsWritten(s: string): seq<(string, string)> {
    match SysctlStart(s)
    case None => []
    case Some(p) => ScanPairs(s, p, false)
  }

  /** The pairs of the scan with the end-of-object test that an empty object needs. */
  function SysctlPairs(s: string): seq<(string, string)> {
    match SysctlStart(s)
    case None => []
    case Some(p) => ScanPairs(s, p, true)
  }

  /**
   * Reading back a written sysctl object: after a prefix before the first `"sysctl"`,
   * `"sysctl":` and a separator without '{', the scan with the end test
   * gives exactly the written pairs, in order, the empty object included.
   */
  lemma SysctlReadsObject(pre: string, sep: string, ps: seq<(string, string)>, rest: string)
    requires KeyFirstAt(pre, "sysctl") && '{' !in sep && QuoteFree(ps)
    ensures SysctlPairs(pre + Quoted("sysctl") + [':'] + sep + ['{'] + BodyText(ps, rest)) == ps
  {
    var a := pre + Quoted("sysctl") + [':'] + sep + ['{'];
    var b := BodyText(ps, rest);
    SysctlStartAt(pre, sep, b);
    ScanPairsShift(a, b, 0, |a|, true);
    ScanBody(ps, rest, true);
  }

  /** The scan as written reads back a written sysctl object that holds at least one pair. */
  lemma SysctlReadsObjectAsWritten(pre: string, sep: string, ps: seq<(string, string)>, rest: string)
    requires KeyFirstAt(pre, "sysctl") && '{' !in sep && QuoteFree(ps) && ps != []
    ensures SysctlPairsAsWritten(pre + Quoted("sysctl") + [':'] + sep + ['{'] + BodyText(ps, rest)) == ps
  {
    var a := pre + Quoted("sysctl") + [':'] + sep + ['{'];
    var b := BodyText(ps, rest);
    SysctlStartAt(pre, sep, b);
    ScanPairsShift(a, b, 0, |a|, false);
    ScanBody(ps, rest, false);
  }

  /**
   * The scan as written, on an empty sysctl object followed by another
   * field, reads that field as a sysctl pair; the corrected scan reads none.
   */
  lemma SysctlEmptyObjectAsWritten(pre: string, sep: string, k: string, v: string, rest: string)
    requires KeyFirstAt(pre, "sysctl") && '{' !in sep && '"' !in k && '"' !in v
    ensures var s := pre + Quoted("sysctl") + [':'] + sep + ['{'] + BodyText([], [',', ' '] + BodyText([(k, v)], rest));
      SysctlPairsAsWritten(s) == [(k, v)] && SysctlPairs(s) == []
  {
    var b1 := BodyText([(k, v)], rest);
    var b0 := BodyText([], [',', ' '] + b1);
    SysctlReadsObject(pre, sep, [], [',', ' '] + b1);
    var a := pre + Quoted("sysctl") + [':'] + sep + ['{'];
    SysctlStartAt(pre, sep, b0);
    ScanPairsShift(a, b0, 0, |a|, false);
    EmptyBodyAsWritten(k, v, rest);
  }

  /** The baseline file `{"sysctl": {}, "k": "v"}`: an empty sysctl object, then one more field. */
  function EmptySysctlThen(k: string, v: string): string {
    ['{'] + Quoted("sysctl") + [':'] + [' '] + ['{'] + BodyText([], [',', ' '] + BodyText([(k, v)], []))
  }

  /**
   * The scan as written reads the field after an empty sysctl object as a
   * sysctl pair: `{"sysctl": {}, "service_name": "sshd"}` maps
   * `service_name` to `sshd`.
   */
  lemma EmptySysctlThenAsWritten(k: string, v: string)
    requires '"' !in k && '"' !in v
    ensures SysctlPairsAsWritten(EmptySysctlThen(k, v)) == [(k, v)]
    ensures InsertAll(map[], SysctlPairsAsWritten(EmptySysctlThen(k, v))) == map[k := v]
  {
    QuoteFreeKeyFirst(['{'], "sysctl");
    SysctlEmptyObjectAsWritten(['{'], [' '], k, v, []);
    assert [(k, v)][..0] == [];
  }

  /** The scan as written goes past the '}' of an empty body to the pair after it. */
  lemma EmptyBodyAsWritten(k: string, v: string, rest: string)
    requires '"' !in k && '"' !in v
    ensures ScanPairs(BodyText([], [',', ' '] + BodyText([(k, v)], rest)), 0, false) == [(k, v)]
  {
    var b1 := BodyText([(k, v)], rest);
    var u := [',', ' '] + b1;
    var b0 := BodyText([], u);
    assert b0 == ['}'] + u;
    assert b0[0] == '}';
    ScanPairsSkip(b0, 0, 1, false);
    ScanPairsShift(['}'], u, 0, 1, false);
    assert b1[0] == '"';
    SeparatorScan(b1, false);
    BodyLast(k, v, rest, false);
  }

  /** `out_sysctl[k] = v` for every pair in turn. */
  function InsertAll(m: map<string, string>, ps: seq<(string, string)>): (r: map<string, string>)
    ensures forall k :: k in m ==> k in r
    ensures forall j :: 0 <= j < |ps| ==> ps[j].0 in r
    decreases |ps|
  {
    if ps == [] then m
    else InsertAll(m, ps[..|ps| - 1])[ps[|ps| - 1].0 := ps[|ps| - 1].1]
  }

  /** A key inserted more than once keeps the value of its last pair. */
  lemma {:induction false} InsertAllLastWins(m: map<string, string>, ps: seq<(string, string)>, i: nat)
    requires i < |ps|
    requires forall j :: i < j < |ps| ==> ps[j].0 != ps[i].0
    ensures ps[i].0 in InsertAll(m, ps) && InsertAll(m, ps)[ps[i].0] == ps[i].1
    decreases |ps|
  {
    if i < |ps| - 1 {
      InsertAllLastWins(m, ps[..|ps| - 1], i);
    }
  }

  /** Keys never inserted keep the value they had. */
  lemma {:induction false} InsertAllKeeps(m: map<string, string>, ps: seq<(string, string)>, k: string)
    requires forall j :: 0 <= j < |ps| ==> ps[j].0 != k
    ensures k in InsertAll(m, ps) <==> k in m
    ensures k in m ==> InsertAll(m, ps)[k] == m[k]
    decreases |ps|
  {
    if ps != [] {
      InsertAllKeeps(m, ps[..|ps| - 1], k);
    }
  }

  predicate QuoteFree(ps: seq<(string, string)>) {
    forall j :: 0 <= j < |ps| ==> '"' !in ps[j].0 && '"' !in ps[j].1
  }

  /** No key or value the scan extracts contains a quote. */
  lemma {:induction false} ScanPairsQuoteFree(s: string, p: nat, checkEnd: bool)
    ensures QuoteFree(ScanPairs(s, p, checkEnd))
    decreases |s| - p
  {
    if p < |s| && !(checkEnd && EndsBeforeKey(s, p)) {
      match ScanStepAt(s, p)
      case Stop =>
      case Entry(k, v, next) =>
        ScanStepQuoteFree(s, p);
        if !ClosesAt(s, next) {
          ScanPairsQuoteFree(s, next, checkEnd);
        }
    }
  }

  /** Inserting one more pair is one more map update. */
  lemma InsertAllSnoc(m: map<string, string>, ps: seq<(string, string)>, k: string, v: string)
    ensures InsertAll(m, ps + [(k, v)]) == InsertAll(m, ps)[k := v]
  {
    assert (ps + [(k, v)])[..|ps|] == ps;
  }

  lemma AppendOne<T>(done: seq<T>, x: T, rest: seq<T>, total: seq<T>)
    requires done + ([x] + rest) == total
    ensures (done + [x]) + rest == total
  {
    assert (done + [x]) + rest == done + ([x] + rest);
  }

  /**
   * One pair read by the scan: with `done` read before `p` and `total` the
   * whole result, the pair at `p` extends `done` and either closes the
   * object or leaves the rest to be read from the next position.
   */
  lemma ScanAdvance(s: string, p: nat, checkEnd: bool, done: seq<(string, string)>, total: seq<(string, string)>)
    requires p < |s| && !(checkEnd && EndsBeforeKey(s, p)) && ScanStepAt(s, p).Entry?
    requires done + ScanPairs(s, p, checkEnd) == total
    ensures var e := ScanStepAt(s, p);
      var d := done + [(e.key, e.value)];
      if ClosesAt(s, e.next) then d == total else d + ScanPairs(s, e.next, checkEnd) == total
  {
    ScanPairsEntry(s, p, checkEnd);
    var e := ScanStepAt(s, p);
    var rest := if ClosesAt(s, e.next) then [] else ScanPairs(s, e.next, checkEnd);
    AppendOne(done, (e.key, e.value), rest, total);
    assert done + [(e.key, e.value)] + [] == done + [(e.key, e.value)];
  }

  /**
   * Either scan reads nothing once the text ends or no pair follows; the
   * corrected one also once the object closes.
   */
  lemma ScanPairsStopped(s: string, p: nat, checkEnd: bool)
    requires p >= |s| || (checkEnd && EndsBeforeKey(s, p)) || ScanStepAt(s, p).Stop?
    ensures ScanPairs(s, p, checkEnd) == []
  {
  }

  /**
   * The sysctl scan of load_config (lines 99-127), as written: keeps reading
   * quoted key/value pairs into `m` until a '}' follows a value or the text
   * runs out. A malformed tail only ends the scan, so `m` holds whatever
   * pairs came before; a '}' right after the '{' is not looked at.
   */
  method ScanSysctl(s: string, m0: map<string, string>) returns (m: map<string, string>)
    ensures m == InsertAll(m0, SysctlPairsAsWritten(s))
  {
    m := m0;
    var start := SysctlStart(s);
    if start.None? {
      assert SysctlPairsAsWritten(s) == [];
      return;
    }
    var p := start.value;
    ghost var total := SysctlPairsAsWritten(s);
    assert total == [] + ScanPairs(s, p, false);
    ghost var done: seq<(string, string)> := [];
    var more := true;
    while more && p < |s|
      invariant m == InsertAll(m0, done)
      invariant more ==> done + ScanPairs(s, p, false) == total
      invariant !more ==> done == total
      decreases |s| - p, more
    {
      var step := ScanStepAt(s, p);
      if step.Stop? {
        ScanPairsStopped(s, p, false);
        more := false;
      } else {
        ScanAdvance(s, p, false, done, total);
        InsertAllSnoc(m0, done, step.key, step.value);
        m := m[step.key := step.value];
        done := done + [(step.key, step.value)];
        p := step.next;
        if ClosesAt(s, p) {
          more := false;
        }
      }
    }
    if more {
      ScanPairsStopped(s, p, false);
      assert done == done + ScanPairs(s, p, false);
    }
    assert done == total;
  }

  // ---------------------------------------------------------------------
  // load_config

  /**
   * What load_config leaves in its out-parameters after reading `text`:
   * each field is replaced only when the text yields a value for it (a
   * non-empty string, a port other than -1), and every sysctl pair is
   * inserted into the map the caller passed.
   */
  function Loaded(text: string, b: Baseline): Baseline {
    var name := GetString(text, "service_name");
    var exec := GetString(text, "service_exec");
    var port := IntField(text, "service_port");
    Baseline(
      if name != [] then name else b.serviceName,
      if exec != [] then exec else b.serviceExec,
      if port != -1 then port else b.servicePort,
      InsertAll(b.sysctl, SysctlPairsAsWritten(text)))
  }

  /**
   * load_config: `file` is the text of the file, or None when it cannot be
   * opened, in which case it reports false and changes nothing.
   */
  method LoadConfig(file: Option<string>, b: Baseline) returns (ok: bool, r: Baseline)
    ensures ok == file.Some?
    ensures r == if file.Some? then Loaded(file.value, b) else b
  {
    if file.None? {
      return false, b;
    }
    var s := file.value;
    var sysctl := ScanSysctl(s, b.sysctl);
    var name := GetString(s, "service_name");
    var exec := GetString(s, "service_exec");
    var port := GetInt(s, "service_port");
    r := Baseline(
      if name != [] then name else b.serviceName,
      if exec != [] then exec else b.serviceExec,
      if port != -1 then port else b.servicePort,
      sysctl);
    ok := true;
  }

  /** get_int gives -1 or a 32-bit value. */
  lemma IntFieldRange(s: string, key: string)
    ensures IntField(s, key) == -1 || -0x8000_0000 <= IntField(s, key) < 0x8000_0000
  {
  }

  /** A search for a quoted key fails in a text without quotes. */
  lemma QuotedKeyAbsent(text: string, key: string)
    requires '"' !in text
    ensures Find(text, Quoted(key), 0) == None
  {
    FindNone(text, Quoted(key), 0);
  }

  /** A text without a single quote changes nothing. */
  lemma LoadedWithoutQuotes(text: string, b: Baseline)
    requires '"' !in text
    ensures Loaded(text, b) == b
  {
    QuotedKeyAbsent(text, "service_name");
    QuotedKeyAbsent(text, "service_exec");
    QuotedKeyAbsent(text, "service_port");
    QuotedKeyAbsent(text, "sysctl");
  }

  /**
   * The port is the caller's unless the text yields one; a yielded port is
   * a 32-bit value and never -1, so a config cannot ask for port -1.
   */
  lemma LoadedPort(text: string, b: Baseline)
    ensures var port := Loaded(text, b).servicePort;
      port == b.servicePort || (port != -1 && -0x8000_0000 <= port < 0x8000_0000)
  {
    IntFieldRange(text, "service_port");
  }

  /** Sysctl entries of the caller's map survive; only keys the scan reads change. */
  lemma LoadedKeepsSysctl(text: string, b: Baseline, k: string)
    requires k in b.sysctl
    requires forall j :: 0 <= j < |SysctlPairsAsWritten(text)| ==> SysctlPairsAsWritten(text)[j].0 != k
    ensures k in Loaded(text, b).sysctl && Loaded(text, b).sysctl[k] == b.sysctl[k]
  {
    InsertAllKeeps(b.sysctl, SysctlPairsAsWritten(text), k);
  }

  /** Strings read from the text hold no quote, so a quote in a field came from the caller. */
  lemma LoadedNameQuoteFree(text: string, b: Baseline)
    requires '"' !in b.serviceName
    ensures '"' !in Loaded(text, b).serviceName
  {
    GetStringSpec(text, "service_name");
  }

  /** A written `"service_name": "v"` with a non-empty `v` sets the service name. */
  lemma LoadedReadsName(pre: string, sep: string, v: string, rest: string, b: Baseline)
    requires KeyFirstAt(pre, "service_name") && '"' !in sep && '"' !in v && v != []
    ensures Loaded(pre + Quoted("service_name") + [':'] + sep + Quoted(v) + rest, b).serviceName == v
  {
    GetStringReadsField(pre, "service_name", sep, v, rest);
  }

  /** A written `"service_port": n` with a 32-bit `n` other than -1 sets the port. */
  lemma LoadedReadsPort(pre: string, sp: string, n: int, rest: string, b: Baseline)
    requires KeyFirstAt(pre, "service_port")
    requires forall j :: 0 <= j < |sp| ==> IsCSpace(sp[j])
    requires rest != [] ==> !IsNumberChar(rest[0])
    requires -0x8000_0000 <= n < 0x8000_0000 && n != -1
    ensures Loaded(pre + Quoted("service_port") + [':'] + sp + IntToDecimal(n) + rest, b).servicePort == n
  {
    IntFieldReadsNumber(pre, "service_port", sp, n, rest);
  }

  /** A written sysctl object with distinct keys lands in the map, pair by pair. */
  lemma LoadedReadsSysctl(pre: string, sep: string, ps: seq<(string, string)>, rest: string, b: Baseline, i: nat)
    requires KeyFirstAt(pre, "sysctl") && '{' !in sep && QuoteFree(ps)
    requires i < |ps| && forall j :: i < j < |ps| ==> ps[j].0 != ps[i].0
    ensures var m := Loaded(pre + Quoted("sysctl") + [':'] + sep + ['{'] + BodyText(ps, rest), b).sysctl;
      ps[i].0 in m && m[ps[i].0] == ps[i].1
  {
    SysctlReadsObjectAsWritten(pre, sep, ps, rest);
    InsertAllLastWins(b.sysctl, ps, i);
  }

  // ---------------------------------------------------------------------
  // Reading a whole file

  /** Neither text is a prefix of the other: they differ at some position both have. */
  predicate Diverges(u: string, w: string) {
    !(u <= w) && !(w <= u)
  }

  /**
   * No quote in `a` can start a `"key"`, whatever follows `a`: the text
   * after each quote already differs from `key"` within `a`.
   */
  predicate Clean(a: string, key: string) {
    forall j :: 0 <= j < |a| && a[j] == '"' ==> Diverges(a[j + 1..], key + ['"'])
  }

  /** A key the separators of a written file cannot continue: no quote, and not starting with ':', ',', '}' or a blank. */
  predicate PlainKey(key: string) {
    key != [] && '"' !in key && key[0] != ':' && key[0] != ',' && key[0] != '}' && key[0] != ' '
  }

  lemma DivergesExtend(u: string, c: string, w: string)
    requires Diverges(u, w)
    ensures Diverges(u + c, w)
  {
  }

  /** A `"key"` that starts inside `a` starts at a quote of `a` whose text does not diverge from `key"`. */
  lemma OccursNotDiverging(a: string, b: string, key: string, j: nat)
    requires j < |a| && OccursAt(a + b, Quoted(key), j)
    ensures a[j] == '"' && !Diverges(a[j + 1..], key + ['"'])
  {
    var q := Quoted(key);
    var s := a + b;
    var w := key + ['"'];
    var u := a[j + 1..];
    assert s[j..j + |q|][0] == '"';
    assert s[j + 1..] == u + b;
    assert w == (u + b)[..|w|] by {
      assert w == q[1..];
      assert q[1..] == s[j..j + |q|][1..];
    }
    if Diverges(u, w) {
      DivergesExtend(u, b, w);
      assert false;
    }
  }

  /** No `"key"` starts inside a clean text, whatever follows it. */
  lemma CleanNoOccurrence(a: string, b: string, key: string, j: nat)
    requires Clean(a, key) && j < |a|
    ensures !OccursAt(a + b, Quoted(key), j)
  {
    if OccursAt(a + b, Quoted(key), j) {
      OccursNotDiverging(a, b, key, j);
      assert false;
    }
  }

  lemma QuoteFreeClean(a: string, key: string)
    requires '"' !in a
    ensures Clean(a, key)
  {
    forall j | 0 <= j < |a| ensures a[j] != '"' {
      assert a[j] in a;
    }
  }

  lemma CleanConcat(a: string, c: string, key: string)
    requires Clean(a, key) && Clean(c, key)
    ensures Clean(a + c, key)
  {
    var s := a + c;
    forall j | 0 <= j < |s| ensures s[j] == '"' ==> Diverges(s[j + 1..], key + ['"']) {
      if j < |a| {
        assert s[j + 1..] == a[j + 1..] + c;
        if a[j] == '"' {
          DivergesExtend(a[j + 1..], c, key + ['"']);
        }
      } else {
        assert s[j] == c[j - |a|];
        assert s[j + 1..] == c[j - |a| + 1..];
      }
    }
  }

  /** After the quote that closes `"x"`, the character that follows already differs from the key. */
  lemma ClosingDiverges(u: string, key: string)
    requires PlainKey(key) && u != [] && u[0] != key[0]
    ensures Diverges(u, key + ['"'])
  {
    var w := key + ['"'];
    assert w[0] == key[0];
    DivergesExtend([u[0]], u[1..], w);
    assert [u[0]] + u[1..] == u;
  }

  /** After the quote that opens `"x"`, with `x` not the key, the text differs from `key"` by the closing quote. */
  lemma OpeningDiverges(x: string, d: char, key: string)
    requires PlainKey(key) && '"' !in x && x != key && d != '"'
    ensures Diverges(x + ['"', d], key + ['"'])
  {
    var w := key + ['"'];
    var t := x + ['"', d];
    if |t| <= |w| {
      assert key[|x|] in key;
      assert t[|x|] != w[|x|];
    }
    if |w| <= |t| {
      if |key| < |x| {
        assert x[|key|] in x;
        assert t[|key|] != w[|key|];
      } else if |key| == |x| {
        assert t[..|key|] == x;
        assert w[..|key|] == key;
      } else {
        assert key[|x|] in key;
        assert t[|x|] != w[|x|];
      }
    }
  }

  /** A quoted text other than the key, followed by a clean text that begins with neither a quote nor the key's first character. */
  lemma QuotedClean(x: string, u: string, key: string)
    requires PlainKey(key) && '"' !in x && x != key
    requires u != [] && u[0] != '"' && u[0] != key[0] && Clean(u, key)
    ensures Clean(Quoted(x) + u, key)
  {
    var s := Quoted(x) + u;
    var w := key + ['"'];
    forall j | 0 <= j < |s| ensures s[j] == '"' ==> Diverges(s[j + 1..], w) {
      if j == 0 {
        OpeningDiverges(x, u[0], key);
        assert s[1..] == (x + ['"', u[0]]) + u[1..];
        DivergesExtend(x + ['"', u[0]], u[1..], w);
      } else if j <= |x| {
        assert s[j] == x[j - 1];
        assert x[j - 1] in x;
      } else if j == |x| + 1 {
        assert s[j + 1..] == u;
        ClosingDiverges(u, key);
      } else {
        assert s[j] == u[j - |x| - 2];
        assert s[j + 1..] == u[j - |x| - 1..];
      }
    }
  }

  /** A clean prefix makes the `"key"` after it the first one. */
  lemma CleanKeyFirst(pre: string, key: string)
    requires Clean(pre, key)
    ensures KeyFirstAt(pre, key)
  {
    var q := Quoted(key);
    forall j | 0 <= j < |pre| ensures !OccursAt(pre + q, q, j) {
      CleanNoOccurrence(pre, q, key, j);
    }
    assert (pre + q)[|pre|..|pre| + |q|] == q;
    FindAt(pre + q, q, 0, |pre|);
  }

  /** A clean text holds no `"key"` at all. */
  lemma CleanAbsent(s: string, key: string)
    requires Clean(s, key)
    ensures !Contains(s, Quoted(key))
  {
    var r := Find(s, Quoted(key), 0);
    if r.Some? {
      assert s + [] == s;
      CleanNoOccurrence(s, [], key, r.value);
    }
  }

  /** What follows a body's closing '}' can be split anywhere. */
  lemma {:induction false} BodyAppend(ps: seq<(string, string)>, a: string, c: string)
    ensures BodyText(ps, a + c) == BodyText(ps, a) + c
    decreases |ps|
  {
    if |ps| == 1 {
      assert ['}'] + (a + c) == (['}'] + a) + c;
      EntryAppend(ps[0].0, ps[0].1, ['}'] + a, c);
    } else if |ps| > 1 {
      BodyAppend(ps[1..], a, c);
      assert [',', ' '] + BodyText(ps[1..], a + c) == ([',', ' '] + BodyText(ps[1..], a)) + c;
      EntryAppend(ps[0].0, ps[0].1, [',', ' '] + BodyText(ps[1..], a), c);
    }
  }

  lemma EntryAppend(k: string, v: string, u: string, c: string)
    ensures EntryThen(k, v, u + c) == EntryThen(k, v, u) + c
  {
  }

  /** No pair of `ps` has the key as its key or its value. */
  predicate KeyUnused(ps: seq<(string, string)>, key: string) {
    forall j :: 0 <= j < |ps| ==> ps[j].0 != key && ps[j].1 != key
  }

  /** A written pair is clean for a key other than its key and value, when a ',' or '}' follows it. */
  lemma EntryClean(k: string, v: string, u: string, key: string)
    requires PlainKey(key) && '"' !in k && '"' !in v && k != key && v != key
    requires u != [] && (u[0] == ',' || u[0] == '}') && Clean(u, key)
    ensures Clean(EntryThen(k, v, u), key)
  {
    QuotedClean(v, u, key);
    var e := [':', ' '] + (Quoted(v) + u);
    QuoteFreeClean([':', ' '], key);
    CleanConcat([':', ' '], Quoted(v) + u, key);
    QuotedClean(k, e, key);
    assert EntryThen(k, v, u) == Quoted(k) + e;
  }

  /** A written body is clean for every key that none of its keys or values equals. */
  lemma {:induction false} BodyClean(ps: seq<(string, string)>, r: string, key: string)
    requires PlainKey(key) && QuoteFree(ps) && KeyUnused(ps, key) && Clean(r, key)
    ensures Clean(BodyText(ps, r), key)
    decreases |ps|
  {
    QuoteFreeClean(['}'], key);
    CleanConcat(['}'], r, key);
    if |ps| == 1 {
      EntryClean(ps[0].0, ps[0].1, ['}'] + r, key);
    } else if |ps| > 1 {
      var tail := BodyText(ps[1..], r);
      assert QuoteFree(ps[1..]) && KeyUnused(ps[1..], key);
      BodyClean(ps[1..], r, key);
      QuoteFreeClean([',', ' '], key);
      CleanConcat([',', ' '], tail, key);
      EntryClean(ps[0].0, ps[0].1, [',', ' '] + tail, key);
    }
  }

  /** `{"sysctl": {"k": "v", ...}, ` : everything before `"service_name"` in the file below. */
  function SysctlHead(ps: seq<(string, string)>): string {
    ['{'] + (Quoted("sysctl") + ([':', ' ', '{'] + BodyText(ps, [',', ' '])))
  }

  /** `"service_name": "n", ` */
  function NamePart(n: string): string {
    Quoted("service_name") + ([':'] + ([' '] + (['"'] + (n + (['"'] + [',', ' '])))))
  }

  /** `"service_port": N}` */
  function PortPart(port: int): string {
    Quoted("service_port") + ([':'] + ([' '] + (IntToDecimal(port) + ['}'])))
  }

  /** The baseline file `{"sysctl": {"k": "v", ...}, "service_name": "n", "service_port": N}`. */
  function ConfigText(ps: seq<(string, string)>, n: string, port: int): string {
    SysctlHead(ps) + (NamePart(n) + PortPart(port))
  }

  lemma IntToDecimalQuoteFree(n: int)
    ensures '"' !in IntToDecimal(n)
  {
  }

  lemma HeadClean(ps: seq<(string, string)>, key: string)
    requires PlainKey(key) && key != "sysctl" && QuoteFree(ps) && KeyUnused(ps, key)
    ensures Clean(SysctlHead(ps), key)
  {
    QuoteFreeClean([',', ' '], key);
    BodyClean(ps, [',', ' '], key);
    QuoteFreeClean([':', ' ', '{'], key);
    var u := [':', ' ', '{'] + BodyText(ps, [',', ' ']);
    CleanConcat([':', ' ', '{'], BodyText(ps, [',', ' ']), key);
    QuotedClean("sysctl", u, key);
    QuoteFreeClean(['{'], key);
    CleanConcat(['{'], Quoted("sysctl") + u, key);
  }

  lemma NameClean(n: string, key: string)
    requires PlainKey(key) && key != "service_name" && '"' !in n && n != key
    ensures Clean(NamePart(n), key)
  {
    QuoteFreeClean([',', ' '], key);
    QuotedClean(n, [',', ' '], key);
    QuoteFreeClean([':', ' '], key);
    CleanConcat([':', ' '], Quoted(n) + [',', ' '], key);
    QuotedClean("service_name", [':', ' '] + (Quoted(n) + [',', ' ']), key);
    assert NamePart(n) == Quoted("service_name") + ([':', ' '] + (Quoted(n) + [',', ' ']));
  }

  lemma PortClean(port: int, key: string)
    requires PlainKey(key) && key != "service_port"
    ensures Clean(PortPart(port), key)
  {
    IntToDecimalQuoteFree(port);
    var u := [':'] + ([' '] + (IntToDecimal(port) + ['}']));
    assert '"' !in u;
    QuoteFreeClean(u, key);
    QuotedClean("service_port", u, key);
  }

  /** The head of a written file, split where the scan starts. */
  lemma HeadSplit(x: string)
    ensures ['{'] + (Quoted("sysctl") + ([':', ' ', '{'] + x)) == ['{'] + Quoted("sysctl") + [':'] + [' '] + ['{'] + x
  {
  }

  /** The scan as written reads the pairs of a written file's non-empty sysctl object. */
  lemma ConfigTextSysctl(ps: seq<(string, string)>, n: string, port: int)
    requires ps != [] && QuoteFree(ps)
    ensures SysctlPairsAsWritten(ConfigText(ps, n, port)) == ps
  {
    var rest := NamePart(n) + PortPart(port);
    var x := BodyText(ps, [',', ' ']);
    var a := ['{'] + Quoted("sysctl") + [':'] + [' '] + ['{'];
    HeadSplit(x);
    AppendAssoc(a, x, rest);
    BodyAppend(ps, [',', ' '], rest);
    QuoteFreeKeyFirst(['{'], "sysctl");
    SysctlReadsObjectAsWritten(['{'], [' '], ps, [',', ' '] + rest);
  }

  /** The name field, in the grouping get_string's searches use. */
  lemma NamePartThen(n: string, u: string)
    ensures NamePart(n) + u == Quoted("service_name") + ([':'] + ([' '] + (['"'] + (n + (['"'] + ([',', ' '] + u))))))
  {
  }

  /** get_string reads the service name of a written file whose sysctl pairs do not mention "service_name". */
  lemma ConfigTextName(ps: seq<(string, string)>, n: string, port: int)
    requires QuoteFree(ps) && KeyUnused(ps, "service_name") && '"' !in n
    ensures GetString(ConfigText(ps, n, port), "service_name") == n
  {
    HeadClean(ps, "service_name");
    CleanKeyFirst(SysctlHead(ps), "service_name");
    NamePartThen(n, PortPart(port));
    GetStringReadsKeyed(SysctlHead(ps), "service_name", [' '], n, [',', ' '] + PortPart(port));
  }

  /** Nothing before the port field of a written file is `"service_port"`. */
  lemma PortKeyFirst(ps: seq<(string, string)>, n: string)
    requires QuoteFree(ps) && KeyUnused(ps, "service_port") && '"' !in n && n != "service_port"
    ensures KeyFirstAt(SysctlHead(ps) + NamePart(n), "service_port")
  {
    HeadClean(ps, "service_port");
    NameClean(n, "service_port");
    CleanConcat(SysctlHead(ps), NamePart(n), "service_port");
    CleanKeyFirst(SysctlHead(ps) + NamePart(n), "service_port");
  }

  /** get_int reads the port of a written file where nothing before it is `"service_port"`. */
  lemma ConfigTextPort(ps: seq<(string, string)>, n: string, port: int)
    requires QuoteFree(ps) && KeyUnused(ps, "service_port") && '"' !in n && n != "service_port"
    requires -0x8000_0000 <= port < 0x8000_0000
    ensures IntField(ConfigText(ps, n, port), "service_port") == port
  {
    var pre := SysctlHead(ps) + NamePart(n);
    PortKeyFirst(ps, n);
    AppendAssoc(SysctlHead(ps), NamePart(n), PortPart(port));
    assert IsCSpace(' ');
    IntFieldReadsKeyed(pre, "service_port", [' '], port, ['}']);
  }

  /** A written file without `"service_exec"` leaves get_string nothing to return. */
  lemma ConfigTextNoExec(ps: seq<(string, string)>, n: string, port: int)
    requires QuoteFree(ps) && KeyUnused(ps, "service_exec") && '"' !in n && n != "service_exec"
    ensures GetString(ConfigText(ps, n, port), "service_exec") == []
  {
    HeadClean(ps, "service_exec");
    NameClean(n, "service_exec");
    PortClean(port, "service_exec");
    CleanConcat(NamePart(n), PortPart(port), "service_exec");
    CleanConcat(SysctlHead(ps), NamePart(n) + PortPart(port), "service_exec");
    CleanAbsent(ConfigText(ps, n, port), "service_exec");
    GetStringSpec(ConfigText(ps, n, port), "service_exec");
  }

  /**
   * Reading a whole baseline file: a non-empty sysctl object, then a
   * service name and a 32-bit port other than -1, where no sysctl key or
   * value is itself one of the three field names and the name is not one of
   * the other two. Every field the file gives is taken from it, the
   * executable stays the caller's, and the pairs land in the caller's map.
   * An empty sysctl object is the case the scan as written gets wrong.
   */
  lemma LoadedReadsBaseline(ps: seq<(string, string)>, n: string, port: int, b: Baseline)
    requires ps != [] && QuoteFree(ps)
    requires KeyUnused(ps, "service_name") && KeyUnused(ps, "service_exec") && KeyUnused(ps, "service_port")
    requires n != [] && '"' !in n && n != "service_exec" && n != "service_port"
    requires -0x8000_0000 <= port < 0x8000_0000 && port != -1
    ensures Loaded(ConfigText(ps, n, port), b) == Baseline(n, b.serviceExec, port, InsertAll(b.sysctl, ps))
  {
    ConfigTextSysctl(ps, n, port);
    ConfigTextName(ps, n, port);
    ConfigTextPort(ps, n, port);
    ConfigTextNoExec(ps, n, port);
  }
}
