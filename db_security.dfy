/**
 * db_security.php, class DBSecurity: the identifier whitelist and quoting,
 * integer coercion with optional bounds, and the masking of statement
 * parameters for the log.
 */
module DBSecurity {
  import opened Wrappers
  import opened Strings

  // ---------------------------------------------------------------------
  // isValidIdentifier

  /** The whitelist character class [A-Za-z0-9_]. */
  predicate IsIdentChar(c: char) {
    'A' <= c <= 'Z' || 'a' <= c <= 'z' || '0' <= c <= '9' || c == '_'
  }

  predicate AllIdentChars(s: string) {
    forall i :: 0 <= i < |s| ==> IsIdentChar(s[i])
  }

  /** 1 to 64 characters, letters, digits and underscore only: the whitelist the method documents. */
  predicate IsValidIdentifier(name: string) {
    1 <= |name| <= 64 && AllIdentChars(name)
  }

  /**
   * `preg_match('/^[A-Za-z0-9_]{1,64}$/', $name)` as written: without the
   * D modifier, PCRE's `$` matches at the end of the subject and also just
   * before a newline that ends it.
   */
  predicate IsValidIdentifierAsWritten(name: string) {
    IsValidIdentifier(name)
    || (|name| >= 1 && name[|name| - 1] == '\n' && IsValidIdentifier(name[..|name| - 1]))
  }

  /** The pattern as written lets every valid name through with a newline appended, which the whitelist excludes. */
  lemma AsWrittenAcceptsTrailingNewline(v: string)
    requires IsValidIdentifier(v)
    ensures IsValidIdentifierAsWritten(v + "\n")
    ensures !IsValidIdentifier(v + "\n")
  {
    assert (v + "\n")[..|v|] == v;
    assert !IsIdentChar((v + "\n")[|v|]);
  }

  /** The smallest such input: "a\n" passes the pattern as written. */
  lemma AsWrittenAcceptsANewline()
    ensures IsValidIdentifierAsWritten("a\n") && !IsValidIdentifier("a\n")
  {
    AsWrittenAcceptsTrailingNewline("a");
  }

  /** Beyond that one newline the pattern as written agrees with the whitelist. */
  lemma AsWrittenOnlyAddsNewline(name: string)
    requires '\n' !in name
    ensures IsValidIdentifierAsWritten(name) <==> IsValidIdentifier(name)
  {
  }

  // ---------------------------------------------------------------------
  // quoteIdentifier

  datatype Quoted = Quoted(text: string) | InvalidArgument(message: string)

  const InvalidIdentifierMessage := "Invalid SQL identifier provided"

  /** `str_replace('`', '``', $name)` */
  function DoubleBackticks(s: string): string
    decreases |s|
  {
    if s == [] then []
    else (if s[0] == '`' then "``" else [s[0]]) + DoubleBackticks(s[1..])
  }

  /** The inverse of the doubling: "``" reads as one backtick. */
  function UndoubleBackticks(s: string): string
    decreases |s|
  {
    if s == [] then []
    else if |s| >= 2 && s[0] == '`' && s[1] == '`' then "`" + UndoubleBackticks(s[2..])
    else [s[0]] + UndoubleBackticks(s[1..])
  }

  /** Reading a quoted identifier back: strip the enclosing backticks and undo the doubling. */
  function Unquote(text: string): Option<string> {
    if |text| >= 2 && text[0] == '`' && text[|text| - 1] == '`' then
      Some(UndoubleBackticks(text[1..|text| - 1]))
    else None
  }

  /** The name between backticks, each backtick in it doubled. */
  function Backticked(name: string): string {
    "`" + DoubleBackticks(name) + "`"
  }

  /**
   * quoteIdentifier as written: the name between backticks when the pattern
   * as written matches it, InvalidArgumentException otherwise.
   */
  function QuoteIdentifier(name: string): (r: Quoted)
    ensures r.InvalidArgument? <==> !IsValidIdentifierAsWritten(name)
    ensures r.InvalidArgument? ==> r.message == InvalidIdentifierMessage
  {
    if !IsValidIdentifierAsWritten(name) then InvalidArgument(InvalidIdentifierMessage)
    else Quoted(Backticked(name))
  }

  /** quoteIdentifier with the whitelist it documents: no trailing newline gets through. */
  function QuoteIdentifierIntended(name: string): (r: Quoted)
    ensures r.InvalidArgument? <==> !IsValidIdentifier(name)
    ensures r.InvalidArgument? ==> r.message == InvalidIdentifierMessage
  {
    if !IsValidIdentifier(name) then InvalidArgument(InvalidIdentifierMessage)
    else Quoted(Backticked(name))
  }

  /** As written, "a\n" comes back quoted with its newline; the whitelist version refuses it. */
  lemma QuoteIdentifierNewline()
    ensures QuoteIdentifier("a\n") == Quoted("`a\n`")
    ensures QuoteIdentifierIntended("a\n") == InvalidArgument(InvalidIdentifierMessage)
  {
    AsWrittenAcceptsANewline();
    assert DoubleBackticks("a\n") == "a\n" by {
      DoubleNoBackticks("a\n");
    }
  }

  /** The two versions differ only on names that end in a newline. */
  lemma QuoteIdentifierAgrees(name: string)
    ensures QuoteIdentifierIntended(name).Quoted? ==> QuoteIdentifier(name) == QuoteIdentifierIntended(name)
    ensures '\n' !in name ==> QuoteIdentifier(name) == QuoteIdentifierIntended(name)
  {
    if '\n' !in name {
      AsWrittenOnlyAddsNewline(name);
    }
  }

  lemma {:induction false} UndoubleDouble(s: string)
    ensures UndoubleBackticks(DoubleBackticks(s)) == s
    decreases |s|
  {
    if s != [] {
      UndoubleDouble(s[1..]);
      var rest := DoubleBackticks(s[1..]);
      if s[0] == '`' {
        assert DoubleBackticks(s) == "``" + rest;
        assert ("``" + rest)[2..] == rest;
      } else {
        assert DoubleBackticks(s) == [s[0]] + rest;
        assert ([s[0]] + rest)[1..] == rest;
      }
    }
  }

  /** Doubling changes nothing in a name without backticks. */
  lemma {:induction false} DoubleNoBackticks(s: string)
    requires '`' !in s
    ensures DoubleBackticks(s) == s
    decreases |s|
  {
    if s != [] {
      assert s[0] in s;
      assert forall c :: c in s[1..] ==> c in s;
      DoubleNoBackticks(s[1..]);
    }
  }

  /** Whatever either version of quoteIdentifier returns reads back as the name it was given. */
  lemma QuoteUnquote(name: string)
    ensures QuoteIdentifier(name).Quoted? ==> Unquote(QuoteIdentifier(name).text) == Some(name)
    ensures QuoteIdentifierIntended(name).Quoted? ==> Unquote(QuoteIdentifierIntended(name).text) == Some(name)
  {
    var inner := DoubleBackticks(name);
    var text := Backticked(name);
    assert text[1..|text| - 1] == inner;
    UndoubleDouble(name);
  }

  /**
   * With the whitelist, a valid name is returned between backticks
   * unchanged, so the quoted text holds exactly two backticks, at its ends,
   * and only whitelist characters between them.
   */
  lemma QuoteValid(name: string)
    requires IsValidIdentifier(name)
    ensures QuoteIdentifierIntended(name) == Quoted("`" + name + "`")
    ensures var t := QuoteIdentifierIntended(name).text;
      forall i :: 1 <= i < |t| - 1 ==> IsIdentChar(t[i])
  {
    DoubleNoBackticks(name);
    var t := "`" + name + "`";
    forall i | 1 <= i < |t| - 1 ensures IsIdentChar(t[i]) {
      assert t[i] == name[i - 1];
    }
  }

  // ---------------------------------------------------------------------
  // toInt

  /**
   * The argument of toInt as far as it matters: a boolean, or any other
   * value together with what `filter_var(..., FILTER_VALIDATE_INT,
   * FILTER_NULL_ON_FAILURE)` makes of it.
   */
  datatype Mixed = BoolValue(b: bool) | Filtered(parsed: Option<int>)

  /** Raise to `min` when below it, then lower to `max` when above it. */
  function Clamp(i: int, min: Option<int>, max: Option<int>): (r: int)
    ensures min.Some? && max.Some? && min.value <= max.value ==> min.value <= r <= max.value
    ensures min.Some? && max.Some? && min.value > max.value ==> r == max.value
    ensures (min.None? || min.value <= i) && (max.None? || i <= max.value) ==> r == i
  {
    var j := if min.Some? && i < min.value then min.value else i;
    if max.Some? && j > max.value then max.value else j
  }

  /** Clamping twice is clamping once. */
  lemma ClampIdempotent(i: int, min: Option<int>, max: Option<int>)
    ensures Clamp(Clamp(i, min, max), min, max) == Clamp(i, min, max)
  {
  }

  /** With only one bound, the value moves to that bound when beyond it. */
  lemma ClampOneSided(i: int, bound: int)
    ensures Clamp(i, Some(bound), None) == if i < bound then bound else i
    ensures Clamp(i, None, Some(bound)) == if i > bound then bound else i
  {
  }

  /**
   * toInt: booleans map to 1 and 0 whatever the default and bounds; a
   * value that does not validate as an integer gives `dflt`, unclamped; a
   * valid one is clamped.
   */
  method ToInt(value: Mixed, dflt: int, min: Option<int>, max: Option<int>) returns (r: int)
    ensures value.BoolValue? ==> r == if value.b then 1 else 0
    ensures value.Filtered? && value.parsed.None? ==> r == dflt
    ensures value.Filtered? && value.parsed.Some? ==> r == Clamp(value.parsed.value, min, max)
  {
    if value.BoolValue? {
      return if value.b then 1 else 0;
    }
    if value.parsed.None? {
      return dflt;
    }
    var i := value.parsed.value;
    if min.Some? && i < min.value {
      i := min.value;
    }
    if max.Some? && i > max.value {
      i := max.value;
    }
    return i;
  }

  // ---------------------------------------------------------------------
  // maskParamsForLogging

  /** A PHP array key. */
  datatype Key = StringKey(name: string) | IntKey(index: int)

  /** A parameter value: only whether it is a string shows in the log. */
  datatype Value = StringValue(text: string) | OtherValue(shown: string)

  /** `:name` for a string key, the decimal index otherwise. */
  function KeyText(k: Key): string {
    match k
    case StringKey(name) => ":" + name
    case IntKey(index) => IntToDecimal(index)
  }

  /** One parameter's part: its key, then `='?'` for a string value or `=?` for any other. */
  function Part(k: Key, v: Value): string {
    KeyText(k) + (if v.StringValue? then "='?'" else "=?")
  }

  /** The parts of all parameters, in array order. */
  function Parts(params: seq<(Key, Value)>): (r: seq<string>)
    ensures |r| == |params|
    ensures forall i :: 0 <= i < |params| ==> r[i] == Part(params[i].0, params[i].1)
    decreases |params|
  {
    if params == [] then []
    else
      var n := |params| - 1;
      Parts(params[..n]) + [Part(params[n].0, params[n].1)]
  }

  function MaskedParams(params: seq<(Key, Value)>): string {
    Join(Parts(params), ", ")
  }

  /** maskParamsForLogging: one part per parameter, joined with ", ". */
  method MaskParamsForLogging(params: seq<(Key, Value)>) returns (out: string)
    ensures out == MaskedParams(params)
  {
    var parts: seq<string> := [];
    for i := 0 to |params|
      invariant parts == Parts(params[..i])
    {
      assert params[..i + 1][..i] == params[..i];
      var (k, v) := params[i];
      var key := if k.StringKey? then ":" + k.name else IntToDecimal(k.index);
      if v.StringValue? {
        parts := parts + [key + "='?'"];
      } else {
        parts := parts + [key + "=?"];
      }
    }
    assert params[..|params|] == params;
    out := Join(parts, ", ");
  }

  /**
   * The log line depends on the keys and on which values are strings,
   * never on the values themselves.
   */
  lemma MaskIgnoresValues(p: seq<(Key, Value)>, q: seq<(Key, Value)>)
    requires |p| == |q|
    requires forall i :: 0 <= i < |p| ==> p[i].0 == q[i].0 && p[i].1.StringValue? == q[i].1.StringValue?
    ensures MaskedParams(p) == MaskedParams(q)
  {
    assert Parts(p) == Parts(q);
  }

  /** Every part starts with its key's text and ends with a masked value. */
  lemma PartShape(k: Key, v: Value)
    ensures var s := Part(k, v);
      |KeyText(k)| <= |s| && s[..|KeyText(k)|] == KeyText(k)
      && s[|KeyText(k)|..] == (if v.StringValue? then "='?'" else "=?")
      && (k.StringKey? ==> s[0] == ':')
  {
  }
}
