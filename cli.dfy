/**
 * The command line of os_controlsystem: main's argv loop
 * (--help/-h, --service-name, --service-port, --checks) and the
 * normalisation of the check list into the three domains to run.
 */
module Cli {
  import opened Strings

  // ---------------------------------------------------------------------
  // std::atoi

  const LongMax: int := 0x7FFF_FFFF_FFFF_FFFF
  const LongMin: int := -0x8000_0000_0000_0000

  /** A 32-bit int. */
  predicate IsInt32(n: int) {
    -0x8000_0000 <= n < 0x8000_0000
  }

  /**
   * strtol(s, NULL, 10) with a 64-bit long: leading isspace() characters,
   * an optional sign, the longest run of digits; 0 when there is no digit,
   * LONG_MAX or LONG_MIN when the value does not fit.
   */
  function Strtol(s: string): (v: int)
    ensures LongMin <= v <= LongMax
  {
    var i := SpanEnd(s, 0, IsCSpace);
    var neg := i < |s| && s[i] == '-';
    var b := if i < |s| && (s[i] == '-' || s[i] == '+') then i + 1 else i;
    var e := SpanEnd(s, b, IsDigit);
    SpanEndAll(s, b, IsDigit);
    var m: int := DigitsValue(s[b..e]);
    if neg then (if -m < LongMin then LongMin else -m)
    else (if m > LongMax then LongMax else m)
  }

  /** The conversion of a long to int: the low 32 bits, as two's complement. */
  function ToInt32(v: int): (r: int)
    ensures IsInt32(r)
    ensures IsInt32(v) ==> r == v
    ensures (r - v) % 0x1_0000_0000 == 0
  {
    var low := v % 0x1_0000_0000;
    if low >= 0x8000_0000 then low - 0x1_0000_0000 else low
  }

  /** std::atoi as glibc implements it: (int) strtol(s, NULL, 10). */
  function Atoi(s: string): int {
    ToInt32(Strtol(s))
  }

  /** The digits of `n` read back as `n`. */
  lemma DigitsRun(n: nat, t: string)
    requires t == NatToDecimal(n)
    ensures SpanEnd(t, 0, IsDigit) == |t|
    ensures DigitsValue(t[0..|t|]) == n
  {
    SpanEndAt(t, 0, IsDigit, |t|);
    assert t[0..|t|] == t;
    DecimalRoundTrip(n);
  }

  /** atoi reads std::to_string's text of every int back. */
  lemma AtoiDecimal(n: int)
    requires IsInt32(n)
    ensures Atoi(IntToDecimal(n)) == n
  {
    var s := IntToDecimal(n);
    var d := NatToDecimal(if n < 0 then -n else n);
    assert s[0] != ' ' && s[0] != '\t' && s[0] != '\n' && s[0] != '\U{B}' && s[0] != '\U{C}' && s[0] != '\r';
    SpanEndAt(s, 0, IsCSpace, 0);
    if n < 0 {
      assert s == "-" + d;
      SpanEndShift("-", d, IsDigit, 0, 1);
      DigitsRun(-n, d);
      assert s[1..|s|] == d[0..|d|];
    } else {
      assert IsDigit(s[0]);
      DigitsRun(n, d);
    }
  }

  /** Text that does not start, after blanks and a sign, with a digit gives 0. */
  lemma AtoiNoDigits(s: string)
    requires forall k :: 0 <= k < |s| ==> !IsDigit(s[k])
    ensures Atoi(s) == 0
  {
    var i := SpanEnd(s, 0, IsCSpace);
    var b := if i < |s| && (s[i] == '-' || s[i] == '+') then i + 1 else i;
    SpanEndAt(s, b, IsDigit, b);
  }

  // ---------------------------------------------------------------------
  // argv

  /** The settings the argv loop fills in. */
  datatype Options = Options(serviceName: string, servicePort: int, checks: seq<string>)

  /** Either usage is printed and main returns 0, or the checks run with these settings. */
  datatype Parsed = Help | Run(opts: Options)

  const DefaultServiceName: string := "os_typing"
  const DefaultServicePort: int := 12345
  const Defaults: Options := Options(DefaultServiceName, DefaultServicePort, [])

  /** What `--checks all` sets the list to. */
  const AllChecks: seq<string> := ["sysctl", "service", "firewall"]

  function IsHelp(a: string): bool {
    a == "--help" || a == "-h"
  }

  /**
   * The list after one `--checks arg`: `all` replaces it, anything else
   * appends the comma-separated items std::getline(ss, item, ',') reads.
   */
  function WithChecks(checks: seq<string>, arg: string): seq<string> {
    if arg == "all" then AllChecks else checks + Split(arg, ',')
  }

  /**
   * The argv loop from index `i` on. An option that needs a value takes the
   * next argument whatever it is, and is skipped like any unknown argument
   * when it is the last one.
   */
  function ParseFrom(argv: seq<string>, i: nat, o: Options): Parsed
    decreases |argv| - i
  {
    if i >= |argv| then Run(o)
    else
      var a := argv[i];
      if IsHelp(a) then Help
      else if a == "--service-name" && i + 1 < |argv| then
        ParseFrom(argv, i + 2, o.(serviceName := argv[i + 1]))
      else if a == "--service-port" && i + 1 < |argv| then
        ParseFrom(argv, i + 2, o.(servicePort := Atoi(argv[i + 1])))
      else if a == "--checks" && i + 1 < |argv| then
        ParseFrom(argv, i + 2, o.(checks := WithChecks(o.checks, argv[i + 1])))
      else ParseFrom(argv, i + 1, o)
  }

  /** main's reading of argv; argv[0] is the program name. */
  function Parse(argv: seq<string>): Parsed {
    ParseFrom(argv, 1, Defaults)
  }

  /** The argv loop of main, with the nested getline loop that splits a --checks list. */
  method ParseArgs(argv: seq<string>) returns (r: Parsed)
    ensures r == Parse(argv)
  {
    var name := DefaultServiceName;
    var port := DefaultServicePort;
    var checks: seq<string> := [];
    var i := 1;
    while i < |argv|
      invariant 1 <= i
      invariant ParseFrom(argv, i, Options(name, port, checks)) == Parse(argv)
      decreases |argv| - i
    {
      var a := argv[i];
      if a == "--help" || a == "-h" {
        return Help;
      }
      if a == "--service-name" && i + 1 < |argv| {
        i := i + 1;
        name := argv[i];
      } else if a == "--service-port" && i + 1 < |argv| {
        i := i + 1;
        port := Atoi(argv[i]);
      } else if a == "--checks" && i + 1 < |argv| {
        i := i + 1;
        var arg := argv[i];
        if arg == "all" {
          checks := AllChecks;
        } else {
          var items := Split(arg, ',');
          var k := 0;
          ghost var before := checks;
          while k < |items|
            invariant k <= |items|
            invariant checks == before + items[..k]
          {
            checks := checks + [items[k]];
            k := k + 1;
          }
          assert items[..k] == items;
        }
      }
      i := i + 1;
    }
    return Run(Options(name, port, checks));
  }

  /** The arguments that set every option once: name, port as decimal text, and a check list. */
  function Rendered(name: string, port: int, items: seq<string>): seq<string> {
    ["--service-name", name, "--service-port", IntToDecimal(port), "--checks", Join(items, [','])]
  }

  /** A list that comma-joining and getline-splitting give back, and that is not `all`. */
  predicate PlainList(items: seq<string>) {
    && items != []
    && items != ["all"]
    && items[|items| - 1] != []
    && forall k :: 0 <= k < |items| ==> ',' !in items[k]
  }

  /** Joining a plain list gives `all` only for ["all"]. */
  lemma JoinNotAll(items: seq<string>)
    requires PlainList(items)
    ensures Join(items, [',']) != "all"
  {
    SplitJoin(items, ',');
    FindCharNone("all", ',', 0);
  }

  /** The options after reading the three rendered options from `i`, then the rest. */
  lemma ParseRenderedFrom(argv: seq<string>, i: nat, o: Options, name: string, port: int, items: seq<string>)
    requires IsInt32(port) && PlainList(items)
    requires i + 6 <= |argv| && argv[i..i + 6] == Rendered(name, port, items)
    ensures ParseFrom(argv, i, o) == ParseFrom(argv, i + 6, Options(name, port, o.checks + items))
  {
    assert argv[i] == "--service-name" && argv[i + 1] == name;
    assert argv[i + 2] == "--service-port" && argv[i + 3] == IntToDecimal(port);
    assert argv[i + 4] == "--checks" && argv[i + 5] == Join(items, [',']);
    AtoiDecimal(port);
    SplitJoin(items, ',');
    JoinNotAll(items);
    assert !IsHelp("--service-name") && !IsHelp("--service-port") && !IsHelp("--checks");
    var o1 := o.(serviceName := name);
    var o2 := o1.(servicePort := port);
    assert ParseFrom(argv, i, o) == ParseFrom(argv, i + 2, o1);
    assert ParseFrom(argv, i + 2, o1) == ParseFrom(argv, i + 4, o2);
    assert WithChecks(o2.checks, argv[i + 5]) == o.checks + items;
    assert ParseFrom(argv, i + 4, o2) == ParseFrom(argv, i + 6, o2.(checks := o.checks + items));
  }

  /**
   * Setting every option once gives exactly those settings, whatever the
   * name is: `--service-name --help` names the service "--help".
   */
  lemma ParseRendered(prog: string, name: string, port: int, items: seq<string>)
    requires IsInt32(port) && PlainList(items)
    ensures Parse([prog] + Rendered(name, port, items)) == Run(Options(name, port, items))
  {
    var argv := [prog] + Rendered(name, port, items);
    assert argv[1..7] == Rendered(name, port, items);
    ParseRenderedFrom(argv, 1, Defaults, name, port, items);
    assert [] + items == items;
  }

  /** A help flag after any set of options stops the parse, whatever follows. */
  lemma HelpAfterOptions(prog: string, name: string, port: int, items: seq<string>, h: string, rest: seq<string>)
    requires IsInt32(port) && PlainList(items) && IsHelp(h)
    ensures Parse([prog] + Rendered(name, port, items) + [h] + rest) == Help
  {
    var argv := [prog] + Rendered(name, port, items) + [h] + rest;
    assert argv[1..7] == Rendered(name, port, items);
    ParseRenderedFrom(argv, 1, Defaults, name, port, items);
    assert argv[7] == h;
  }

  /** The options whose branch consumes the next argument as a value. */
  predicate TakesValue(a: string) {
    a == "--service-name" || a == "--service-port" || a == "--checks"
  }

  /**
   * The argv loop, started at `i`, comes to index `k` as an option: it
   * stops on no help flag before `k`, steps over the value of an option that
   * takes one, and over anything else one argument at a time.
   */
  predicate FlagAt(argv: seq<string>, i: nat, k: nat)
    decreases |argv| - i
  {
    if i >= k then i == k
    else
      && i < |argv|
      && !IsHelp(argv[i])
      && FlagAt(argv, if TakesValue(argv[i]) && i + 1 < |argv| then i + 2 else i + 1, k)
  }

  /** argv holds `--help` or `-h` at a position the loop reads as an option. */
  predicate HelpGiven(argv: seq<string>) {
    exists k :: 1 <= k < |argv| && FlagAt(argv, 1, k) && IsHelp(argv[k])
  }

  /** From `i`, a help flag at an option position `k` ends the parse as Help, whatever the options were. */
  lemma {:induction false} HelpFrom(argv: seq<string>, i: nat, k: nat)
    requires k < |argv| && FlagAt(argv, i, k) && IsHelp(argv[k])
    ensures forall o :: ParseFrom(argv, i, o) == Help
    decreases |argv| - i
  {
    if i < k {
      var next := if TakesValue(argv[i]) && i + 1 < |argv| then i + 2 else i + 1;
      HelpFrom(argv, next, k);
    }
  }

  /** From `i`, a parse that ends as Help met a help flag at an option position. */
  lemma {:induction false} HelpOnlyFrom(argv: seq<string>, i: nat, o: Options)
    requires ParseFrom(argv, i, o) == Help
    ensures exists k :: i <= k < |argv| && FlagAt(argv, i, k) && IsHelp(argv[k])
    decreases |argv| - i
  {
    var a := argv[i];
    if IsHelp(a) {
      assert FlagAt(argv, i, i);
    } else {
      var (next, o') :=
        if a == "--service-name" && i + 1 < |argv| then (i + 2, o.(serviceName := argv[i + 1]))
        else if a == "--service-port" && i + 1 < |argv| then (i + 2, o.(servicePort := Atoi(argv[i + 1])))
        else if a == "--checks" && i + 1 < |argv| then (i + 2, o.(checks := WithChecks(o.checks, argv[i + 1])))
        else (i + 1, o);
      HelpOnlyFrom(argv, next, o');
      var k :| next <= k < |argv| && FlagAt(argv, next, k) && IsHelp(argv[k]);
      assert FlagAt(argv, i, k);
    }
  }

  /**
   * main prints the usage and stops exactly when a help flag stands where
   * the loop reads an option: `prog -h`, `prog --checks all --help`, but not
   * `prog --service-name --help`, which names the service "--help".
   */
  lemma HelpExactly(argv: seq<string>)
    ensures Parse(argv) == Help <==> HelpGiven(argv)
  {
    if Parse(argv) == Help {
      HelpOnlyFrom(argv, 1, Defaults);
    }
    if HelpGiven(argv) {
      var k :| 1 <= k < |argv| && FlagAt(argv, 1, k) && IsHelp(argv[k]);
      HelpFrom(argv, 1, k);
    }
  }

  /** Arguments that are neither options with a value nor help flags are stepped over one by one. */
  lemma {:induction false} PlainFlagAt(argv: seq<string>, i: nat, k: nat)
    requires i <= k < |argv|
    requires forall j :: i <= j < k ==> !TakesValue(argv[j]) && !IsHelp(argv[j])
    ensures FlagAt(argv, i, k)
    decreases k - i
  {
    if i < k {
      PlainFlagAt(argv, i + 1, k);
    }
  }

  /** A help flag preceded only by arguments that take no value ends the parse as Help. */
  lemma HelpAnywhere(argv: seq<string>, k: nat)
    requires 1 <= k < |argv| && IsHelp(argv[k])
    requires forall j :: 1 <= j < k ==> !TakesValue(argv[j]) && !IsHelp(argv[j])
    ensures Parse(argv) == Help
  {
    PlainFlagAt(argv, 1, k);
    HelpFrom(argv, 1, k);
  }

  /** The usage cases of main's help flag, and the value position that is not one. */
  lemma HelpCases(prog: string)
    ensures Parse([prog, "--help"]) == Help && Parse([prog, "-h"]) == Help
    ensures Parse([prog, "--checks", "all", "--help"]) == Help
    ensures Parse([prog, "--service-name", "--help"]) == Run(Defaults.(serviceName := "--help"))
  {
    HelpAnywhere([prog, "--help"], 1);
    HelpAnywhere([prog, "-h"], 1);
    var a := [prog, "--checks", "all", "--help"];
    assert FlagAt(a, 3, 3);
    assert FlagAt(a, 1, 3);
    HelpFrom(a, 1, 3);
    var b := [prog, "--service-name", "--help"];
    assert ParseFrom(b, 1, Defaults) == ParseFrom(b, 3, Defaults.(serviceName := "--help"));
  }

  /**
   * `--checks` lists accumulate in order, and `--checks all` throws away
   * what came before it but not what comes after.
   */
  lemma ChecksAccumulate(prog: string, xs: seq<string>, ys: seq<string>)
    requires PlainList(xs) && PlainList(ys)
    ensures Parse([prog, "--checks", Join(xs, [',']), "--checks", Join(ys, [','])])
      == Run(Defaults.(checks := xs + ys))
    ensures Parse([prog, "--checks", Join(xs, [',']), "--checks", "all"])
      == Run(Defaults.(checks := AllChecks))
    ensures Parse([prog, "--checks", "all", "--checks", Join(ys, [','])])
      == Run(Defaults.(checks := AllChecks + ys))
  {
    SplitJoin(xs, ',');
    SplitJoin(ys, ',');
    JoinNotAll(xs);
    JoinNotAll(ys);
    assert !IsHelp("--checks") && !IsHelp("all");
    var jx, jy := Join(xs, [',']), Join(ys, [',']);
    var ox := Defaults.(checks := xs);
    var oa := Defaults.(checks := AllChecks);
    assert [] + xs == xs;
    var a1 := [prog, "--checks", jx, "--checks", jy];
    assert ParseFrom(a1, 1, Defaults) == ParseFrom(a1, 3, ox);
    assert ParseFrom(a1, 3, ox) == ParseFrom(a1, 5, ox.(checks := xs + ys));
    var a2 := [prog, "--checks", jx, "--checks", "all"];
    assert ParseFrom(a2, 1, Defaults) == ParseFrom(a2, 3, ox);
    assert ParseFrom(a2, 3, ox) == ParseFrom(a2, 5, oa);
    var a3 := [prog, "--checks", "all", "--checks", jy];
    assert ParseFrom(a3, 1, Defaults) == ParseFrom(a3, 3, oa);
    assert ParseFrom(a3, 3, oa) == ParseFrom(a3, 5, oa.(checks := AllChecks + ys));
  }

  // ---------------------------------------------------------------------
  // Check selection

  /** The three domains main runs. */
  datatype Selection = Selection(sysctl: bool, service: bool, firewall: bool)

  /** An empty list means "all". */
  function Normalize(checks: seq<string>): (r: seq<string>)
    ensures r != []
    ensures checks != [] ==> r == checks
  {
    if checks == [] then ["all"] else checks
  }

  /** The domains a list names: all three when it holds "all", otherwise those it names; other names select nothing. */
  function Selected(checks: seq<string>): Selection {
    if "all" in checks then Selection(true, true, true)
    else Selection("sysctl" in checks, "service" in checks, "firewall" in checks)
  }

  /**
   * The normalisation of main: default to ["all"], then set do_sysctl,
   * do_service and do_firewall from the names, stopping at "all".
   */
  method SelectChecks(checks: seq<string>) returns (s: Selection)
    ensures s == Selected(Normalize(checks))
  {
    var list := checks;
    if |list| == 0 {
      list := ["all"];
    }
    var doSysctl, doService, doFirewall := false, false, false;
    var k := 0;
    while k < |list|
      invariant k <= |list|
      invariant "all" !in list[..k]
      invariant doSysctl == ("sysctl" in list[..k])
      invariant doService == ("service" in list[..k])
      invariant doFirewall == ("firewall" in list[..k])
    {
      var c := list[k];
      assert list[..k + 1] == list[..k] + [c];
      if c == "all" {
        doSysctl, doService, doFirewall := true, true, true;
        break;
      }
      if c == "sysctl" {
        doSysctl := true;
      }
      if c == "service" {
        doService := true;
      }
      if c == "firewall" {
        doFirewall := true;
      }
      k := k + 1;
    }
    if k == |list| {
      assert list[..k] == list;
    } else {
      assert list[k] in list;
    }
    return Selection(doSysctl, doService, doFirewall);
  }

  /** No --checks at all runs every domain. */
  lemma NoChecksSelectsAll()
    ensures Selected(Normalize([])) == Selection(true, true, true)
  {
    assert "all" in Normalize([]);
  }

  /** A list of names none of which is known selects nothing: no domain runs and the exit code stays 0. */
  lemma UnknownSelectsNothing(checks: seq<string>)
    requires checks != []
    requires forall k :: 0 <= k < |checks| ==> checks[k] !in ["all", "sysctl", "service", "firewall"]
    ensures Selected(Normalize(checks)) == Selection(false, false, false)
  {
    assert "all" !in checks && "sysctl" !in checks && "service" !in checks && "firewall" !in checks by {
      forall c | c in checks ensures c != "all" && c != "sysctl" && c != "service" && c != "firewall" {
        var k :| 0 <= k < |checks| && checks[k] == c;
      }
    }
  }
}
