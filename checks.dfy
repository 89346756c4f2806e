/**
 * The three Linux checks of scripts/c-c++/os_controlsystem.cpp: the sysctl
 * values (one per configured key, or the legacy drop-in file), the systemd
 * service with its unit file, and the UFW rule for the service port. Each
 * check returns the text it prints and whether its domain failed.
 *
 * Processes and files are inputs: `run` stands for run_cmd (the captured
 * output and the exit status of a shell command) and a Files map for what
 * stat() and ifstream see.
 */
module Checks {
  import opened Wrappers
  import opened Strings

  /** What run_cmd hands back: the captured output and the exit status. */
  datatype CmdResult = CmdResult(output: string, rc: int)

  /**
   * The files the program can see. A path that stat() finds is a key; its
   * value is the content, or None when the file cannot be opened for reading.
   */
  type Files = map<string, Option<string>>

  /** What an ifstream reads from `path`: nothing when it cannot be opened. */
  function ReadAll(fs: Files, path: string): string {
    if path in fs && fs[path].Some? then fs[path].value else ""
  }

  // ---------------------------------------------------------------------
  // file_contains

  /** Some line of `content` (as std::getline yields them) holds `needle`. */
  predicate HasLine(content: string, needle: string) {
    exists line :: line in Split(content, '\n') && Contains(line, needle)
  }

  /** What file_contains answers. */
  predicate FileHasLine(fs: Files, path: string, needle: string) {
    path in fs && fs[path].Some? && HasLine(fs[path].value, needle)
  }

  /** file_contains: read the file line by line and stop at the first line holding `needle`. */
  method FileContains(fs: Files, path: string, needle: string) returns (found: bool)
    ensures found == FileHasLine(fs, path, needle)
  {
    if !(path in fs && fs[path].Some?) {
      return false;
    }
    var lines := Split(fs[path].value, '\n');
    var k := 0;
    while k < |lines|
      invariant k <= |lines|
      invariant forall j :: 0 <= j < k ==> !Contains(lines[j], needle)
    {
      if Contains(lines[k], needle) {
        return true;
      }
      k := k + 1;
    }
    return false;
  }

  /**
   * Searching line by line finds exactly the needles without a newline that
   * occur in a non-empty text: a needle spanning two lines is never found.
   */
  lemma HasLineIff(content: string, needle: string)
    ensures HasLine(content, needle) <==> content != [] && '\n' !in needle && Contains(content, needle)
  {
    var lines := Split(content, '\n');
    if HasLine(content, needle) {
      var line :| line in lines && Contains(line, needle);
      var k :| 0 <= k < |lines| && lines[k] == line;
      SplitPieceContained(content, '\n', line);
      ContainsTrans(content, line, needle);
      if '\n' in needle {
        ContainsChars(line, needle, '\n');
      }
    }
    if content != [] && '\n' !in needle && Contains(content, needle) {
      ContainsIff(content, needle);
      var i :| OccursAt(content, needle, i);
      SplitFindsOccurrence(content, '\n', needle, i);
    }
  }

  // ---------------------------------------------------------------------
  // One sysctl key

  /** The characters the trim loop pops from the end of a sysctl value. */
  const TrailingBlanks: set<char> := {'\n', '\r', ' '}

  function SysctlCommand(key: string): string {
    "sysctl -n " + key + " 2>&1"
  }

  /** A key counts as missing on a non-zero status or on either error text in the output. */
  predicate SysctlMissing(r: CmdResult) {
    r.rc != 0 || Contains(r.output, "no such file or directory") || Contains(r.output, "unknown oid")
  }

  /** The outcome for one key; a mismatch carries the trimmed value that was read. */
  datatype Verdict = Ok | Missing | Mismatch(got: string)

  function SysctlVerdict(r: CmdResult, expected: string): Verdict {
    if SysctlMissing(r) then Missing
    else
      var value := TrimRight(r.output, TrailingBlanks);
      if value == expected then Ok else Mismatch(value)
  }

  /** The `pop_back` loop: drop trailing newlines, carriage returns and spaces. */
  method TrimTrailing(out: string) returns (value: string)
    ensures value == TrimRight(out, TrailingBlanks)
  {
    value := out;
    while value != [] && value[|value| - 1] in TrailingBlanks
      invariant TrimRight(value, TrailingBlanks) == TrimRight(out, TrailingBlanks)
      decreases |value|
    {
      value := value[..|value| - 1];
    }
  }

  /** The line printed for one key. */
  function SysctlLine(key: string, expected: string, v: Verdict): string {
    match v
    case Missing => "[sysctl:" + key + "] MISSING\n"
    case Ok => "[sysctl:" + key + "] OK\n"
    case Mismatch(got) => "[sysctl:" + key + "] MISMATCH expected=" + expected + " got=" + got + "\n"
  }

  /** The body of the per-key loop: run sysctl, classify, print. */
  method CheckSysctlKey(key: string, expected: string, run: string -> CmdResult)
    returns (line: string, failed: bool)
    ensures line == SysctlLine(key, expected, SysctlVerdict(run(SysctlCommand(key)), expected))
    ensures failed <==> SysctlVerdict(run(SysctlCommand(key)), expected) != Ok
  {
    var r := run("sysctl -n " + key + " 2>&1");
    if r.rc != 0 || Contains(r.output, "no such file or directory") || Contains(r.output, "unknown oid") {
      line := "[sysctl:" + key + "] MISSING\n";
      failed := true;
    } else {
      var value := TrimTrailing(r.output);
      if value == expected {
        line := "[sysctl:" + key + "] OK\n";
        failed := false;
      } else {
        line := "[sysctl:" + key + "] MISMATCH expected=" + expected + " got=" + value + "\n";
        failed := true;
      }
    }
  }

  /** `out` is `expected` followed only by trailing blanks, and `expected` does not itself end in one. */
  predicate ReportsValue(out: string, expected: string) {
    && (expected == [] || expected[|expected| - 1] !in TrailingBlanks)
    && |expected| <= |out|
    && out[..|expected|] == expected
    && forall k :: |expected| <= k < |out| ==> out[k] in TrailingBlanks
  }

  /**
   * A key is OK exactly when no error shows and the output is the expected
   * value plus trailing blanks. An expected value that ends in a blank can
   * therefore never match.
   */
  lemma SysctlOkIff(r: CmdResult, expected: string)
    ensures SysctlVerdict(r, expected) == Ok <==> !SysctlMissing(r) && ReportsValue(r.output, expected)
  {
    if !SysctlMissing(r) && ReportsValue(r.output, expected) {
      TrimRightUnique(r.output, TrailingBlanks, |expected|);
    }
  }

  // ---------------------------------------------------------------------
  // All configured keys, in the order a std::map visits them

  /** `keys` is strictly ascending under std::string's order. */
  predicate Ascending(keys: seq<string>) {
    forall i, j :: 0 <= i < j < |keys| ==> Less(keys[i], keys[j])
  }

  /** The keys of a set in ascending order: the order std::map iterates in. */
  ghost function SortedKeys(keys: set<string>): (r: seq<string>)
    ensures forall i :: 0 <= i < |r| ==> r[i] in keys
    decreases |keys|
  {
    if keys == {} then []
    else
      LeastExists(keys);
      var k :| IsLeast(k, keys);
      [k] + SortedKeys(keys - {k})
  }

  /** SortedKeys starts with the least key. */
  lemma SortedKeysUnfold(keys: set<string>, k: string)
    requires IsLeast(k, keys)
    ensures SortedKeys(keys) == [k] + SortedKeys(keys - {k})
  {
    var r := SortedKeys(keys);
    assert IsLeast(r[0], keys) && r == [r[0]] + SortedKeys(keys - {r[0]});
    LeastUnique(k, r[0], keys);
  }

  /** std::map visits every key once, in ascending order. */
  lemma {:induction false} SortedKeysAscending(keys: set<string>)
    ensures Ascending(SortedKeys(keys))
    ensures forall k :: k in keys ==> k in SortedKeys(keys)
    decreases |keys|
  {
    if keys != {} {
      var r := SortedKeys(keys);
      LeastExists(keys);
      var k :| IsLeast(k, keys);
      SortedKeysUnfold(keys, k);
      assert r[0] == k && r[1..] == SortedKeys(keys - {k});
      SortedKeysAscending(keys - {k});
      forall i, j | 0 <= i < j < |r|
        ensures Less(r[i], r[j])
      {
        if i > 0 {
          assert r[i] == r[1..][i - 1] && r[j] == r[1..][j - 1];
        } else {
          assert r[j] == r[1..][j - 1];
        }
      }
      forall x | x in keys
        ensures x in r
      {
        if x != k {
          assert x in keys - {k};
        }
      }
    }
  }

  /** Take the least of the keys still to visit. */
  method PickLeast(keys: set<string>) returns (k: string)
    requires keys != {}
    ensures k in keys && SortedKeys(keys) == [k] + SortedKeys(keys - {k})
  {
    LeastExists(keys);
    k :| IsLeast(k, keys);
    SortedKeysUnfold(keys, k);
  }

  /** The configured key `k` does not read back as its expected value. */
  predicate KeyFails(m: map<string, string>, k: string, run: string -> CmdResult)
    requires k in m
  {
    SysctlVerdict(run(SysctlCommand(k)), m[k]) != Ok
  }

  /** The lines printed for `keys`, in order. */
  function KeysReport(keys: seq<string>, m: map<string, string>, run: string -> CmdResult): string
    requires forall i :: 0 <= i < |keys| ==> keys[i] in m
  {
    if keys == [] then ""
    else
      var k := keys[|keys| - 1];
      KeysReport(keys[..|keys| - 1], m, run) + SysctlLine(k, m[k], SysctlVerdict(run(SysctlCommand(k)), m[k]))
  }

  /** Some key of `keys` fails. */
  predicate AnyFails(keys: seq<string>, m: map<string, string>, run: string -> CmdResult)
    requires forall i :: 0 <= i < |keys| ==> keys[i] in m
  {
    keys != [] && (AnyFails(keys[..|keys| - 1], m, run) || KeyFails(m, keys[|keys| - 1], run))
  }

  lemma {:induction false} AnyFailsIff(keys: seq<string>, m: map<string, string>, run: string -> CmdResult)
    requires forall i :: 0 <= i < |keys| ==> keys[i] in m
    ensures AnyFails(keys, m, run) <==> exists i :: 0 <= i < |keys| && KeyFails(m, keys[i], run)
    decreases |keys|
  {
    if keys != [] {
      var n := |keys| - 1;
      AnyFailsIff(keys[..n], m, run);
      if exists i :: 0 <= i < |keys| && KeyFails(m, keys[i], run) {
        var i :| 0 <= i < |keys| && KeyFails(m, keys[i], run);
        if i < n {
          assert keys[..n][i] == keys[i];
        }
      }
    }
  }

  /**
   * The state of the loop over cfg_sysctl after visiting `done`: the keys
   * still to visit follow them in SortedKeys, and `out` and `failed` cover
   * exactly the keys visited.
   */
  ghost predicate MapScan(m: map<string, string>, run: string -> CmdResult, remaining: set<string>,
                          done: seq<string>, out: string, failed: bool)
  {
    && remaining <= m.Keys
    && (forall i :: 0 <= i < |done| ==> done[i] in m)
    && done + SortedKeys(remaining) == SortedKeys(m.Keys)
    && out == KeysReport(done, m, run)
    && failed == AnyFails(done, m, run)
  }

  /** One turn of the loop: check the least key not yet visited. */
  method ScanNextKey(m: map<string, string>, run: string -> CmdResult, remaining: set<string>,
                     ghost done: seq<string>, out: string, failed: bool)
    returns (remaining': set<string>, ghost done': seq<string>, out': string, failed': bool)
    requires remaining != {} && MapScan(m, run, remaining, done, out, failed)
    ensures MapScan(m, run, remaining', done', out', failed') && |remaining'| < |remaining|
  {
    var k := PickLeast(remaining);
    AppendAssoc(done, [k], SortedKeys(remaining - {k}));
    var line, f := CheckSysctlKey(k, m[k], run);
    out' := out + line;
    failed' := failed || f;
    assert (done + [k])[..|done|] == done;
    done' := done + [k];
    remaining' := remaining - {k};
  }

  /**
   * The loop over cfg_sysctl. The keys are taken least first, as std::map
   * orders them, and the domain fails when any key fails.
   */
  method CheckSysctlMap(m: map<string, string>, run: string -> CmdResult)
    returns (out: string, failed: bool)
    ensures out == KeysReport(SortedKeys(m.Keys), m, run)
    ensures failed <==> exists k :: k in m && KeyFails(m, k, run)
  {
    var remaining := m.Keys;
    ghost var done: seq<string> := [];
    out := "";
    failed := false;
    while remaining != {}
      invariant MapScan(m, run, remaining, done, out, failed)
      decreases |remaining|
    {
      remaining, done, out, failed := ScanNextKey(m, run, remaining, done, out, failed);
    }
    MapScanFinished(m, run, done, out, failed);
  }

  /** When no key is left, the loop has printed every key's line and failed iff some key failed. */
  lemma MapScanFinished(m: map<string, string>, run: string -> CmdResult,
                        done: seq<string>, out: string, failed: bool)
    requires MapScan(m, run, {}, done, out, failed)
    ensures out == KeysReport(SortedKeys(m.Keys), m, run)
    ensures failed <==> exists k :: k in m && KeyFails(m, k, run)
  {
    assert SortedKeys({}) == [];
    assert done + [] == done;
    AnyFailsIff(done, m, run);
    if exists k :: k in m && KeyFails(m, k, run) {
      var k :| k in m && KeyFails(m, k, run);
      SortedKeysAscending(m.Keys);
      var i :| 0 <= i < |done| && done[i] == k;
    }
  }

  // ---------------------------------------------------------------------
  // The legacy check, used when no sysctl keys are configured

  const LegacySysctlPath: string := "/etc/sysctl.d/99-os_typing.conf"

  /** The drop-in file exists and one of its lines names either hardened key. */
  predicate LegacyPasses(fs: Files) {
    && LegacySysctlPath in fs
    && (FileHasLine(fs, LegacySysctlPath, "kernel.randomize_va_space")
        || FileHasLine(fs, LegacySysctlPath, "fs.file-max"))
  }

  function LegacyReport(fs: Files): string {
    "[sysctl] Checking " + LegacySysctlPath + " ... "
    + if LegacySysctlPath !in fs then "MISSING\n"
      else if LegacyPasses(fs) then "OK\n"
      else "MISSING expected keys\n"
  }

  method CheckSysctlLegacy(fs: Files) returns (out: string, failed: bool)
    ensures out == LegacyReport(fs)
    ensures failed == !LegacyPasses(fs)
  {
    out := "[sysctl] Checking " + LegacySysctlPath + " ... ";
    if LegacySysctlPath in fs {
      var ok := FileContains(fs, LegacySysctlPath, "kernel.randomize_va_space");
      if !ok {
        ok := FileContains(fs, LegacySysctlPath, "fs.file-max");
      }
      if ok {
        out := out + "OK\n";
        failed := false;
      } else {
        out := out + "MISSING expected keys\n";
        failed := true;
      }
    } else {
      out := out + "MISSING\n";
      failed := true;
    }
  }

  /** Whether the sysctl domain sets bit 1. */
  predicate SysctlFails(m: map<string, string>, fs: Files, run: string -> CmdResult) {
    if m != map[] then exists k :: k in m && KeyFails(m, k, run) else !LegacyPasses(fs)
  }

  ghost function SysctlReport(m: map<string, string>, fs: Files, run: string -> CmdResult): string {
    if m != map[] then KeysReport(SortedKeys(m.Keys), m, run) else LegacyReport(fs)
  }

  /** The sysctl domain: the configured keys when there are any, the drop-in file otherwise. */
  method CheckSysctl(m: map<string, string>, fs: Files, run: string -> CmdResult)
    returns (out: string, failed: bool)
    ensures out == SysctlReport(m, fs, run)
    ensures failed == SysctlFails(m, fs, run)
  {
    if |m| > 0 {
      out, failed := CheckSysctlMap(m, run);
    } else {
      out, failed := CheckSysctlLegacy(fs);
    }
  }

  // ---------------------------------------------------------------------
  // The service domain

  function ServiceCommand(name: string): string {
    "systemctl is-active " + name + " 2>&1"
  }

  /** The status test: a zero exit status and "active" somewhere in the output. */
  predicate ServiceActive(r: CmdResult) {
    r.rc == 0 && Contains(r.output, "active")
  }

  function UnitPath(name: string): string {
    "/etc/systemd/system/" + name + ".service"
  }

  /** The unit file exists and its whole text holds `exec`. */
  predicate ExecMatches(fs: Files, name: string, exec: string) {
    UnitPath(name) in fs && Contains(ReadAll(fs, UnitPath(name)), exec)
  }

  /** Whether the service domain sets bit 2; the exec test runs only when `exec` is set. */
  predicate ServiceFails(name: string, exec: string, fs: Files, run: string -> CmdResult) {
    || !ServiceActive(run(ServiceCommand(name)))
    || (exec != [] && !ExecMatches(fs, name, exec))
  }

  function StatusLine(name: string, r: CmdResult): string {
    "[service] Checking systemd service '" + name + "' ... "
    + if ServiceActive(r) then "active\n" else "not active (output: " + r.output + ")\n"
  }

  function ExecLine(fs: Files, name: string, exec: string): string {
    if exec == [] then ""
    else if UnitPath(name) !in fs then "[service:exec] unit file missing: " + UnitPath(name) + "\n"
    else if ExecMatches(fs, name, exec) then "[service:exec] OK\n"
    else "[service:exec] MISMATCH expected ExecStart contains: " + exec + "\n"
  }

  method CheckService(name: string, exec: string, fs: Files, run: string -> CmdResult)
    returns (out: string, failed: bool)
    ensures out == StatusLine(name, run(ServiceCommand(name))) + ExecLine(fs, name, exec)
    ensures failed == ServiceFails(name, exec, fs, run)
  {
    var r := run("systemctl is-active " + name + " 2>&1");
    var status := "[service] Checking systemd service '" + name + "' ... ";
    if r.rc == 0 && Contains(r.output, "active") {
      status := status + "active\n";
      failed := false;
    } else {
      status := status + "not active (output: " + r.output + ")\n";
      failed := true;
    }
    assert status == StatusLine(name, r);
    var execText := "";
    if exec != [] {
      var unitPath := "/etc/systemd/system/" + name + ".service";
      if unitPath in fs {
        var content := ReadAll(fs, unitPath);
        if Contains(content, exec) {
          execText := "[service:exec] OK\n";
        } else {
          execText := "[service:exec] MISMATCH expected ExecStart contains: " + exec + "\n";
          failed := true;
        }
      } else {
        execText := "[service:exec] unit file missing: " + unitPath + "\n";
        failed := true;
      }
    }
    assert execText == ExecLine(fs, name, exec);
    out := status + execText;
  }

  // ---------------------------------------------------------------------
  // The firewall domain

  const FirewallCommand: string := "ufw status verbose 2>&1"

  /** A rule line for the port: it holds the port's decimal text and "ALLOW". */
  predicate AllowsPort(line: string, port: int) {
    Contains(line, IntToDecimal(port)) && Contains(line, "ALLOW")
  }

  predicate PortAllowed(output: string, port: int) {
    exists line :: line in Split(output, '\n') && AllowsPort(line, port)
  }

  predicate UfwActive(r: CmdResult) {
    r.rc == 0 && Contains(r.output, "Status: active")
  }

  /** Whether the firewall domain passes; it sets bit 4 otherwise. */
  predicate FirewallPasses(r: CmdResult, port: int) {
    UfwActive(r) && PortAllowed(r.output, port)
  }

  function FirewallReport(r: CmdResult, port: int): string {
    "[firewall] Checking UFW status and port " + IntToDecimal(port) + " ... "
    + if !UfwActive(r) then "ufw not active or ufw not installed (output: " + r.output + ")\n"
      else if PortAllowed(r.output, port) then "active and port allowed\n"
      else "active but port NOT allowed\n"
  }

  /** The getline loop over the ufw output, leaving at the first rule line for the port. */
  method FindPortRule(output: string, port: int) returns (portOk: bool)
    ensures portOk == PortAllowed(output, port)
  {
    var lines := Split(output, '\n');
    var portText := IntToDecimal(port);
    portOk := false;
    var k := 0;
    while k < |lines|
      invariant k <= |lines|
      invariant forall j :: 0 <= j < k ==> !AllowsPort(lines[j], port)
    {
      if Contains(lines[k], portText) && Contains(lines[k], "ALLOW") {
        portOk := true;
        break;
      }
      k := k + 1;
    }
  }

  method CheckFirewall(port: int, run: string -> CmdResult) returns (out: string, failed: bool)
    ensures out == FirewallReport(run(FirewallCommand), port)
    ensures failed == !FirewallPasses(run(FirewallCommand), port)
  {
    out := "[firewall] Checking UFW status and port " + IntToDecimal(port) + " ... ";
    var r := run("ufw status verbose 2>&1");
    if r.rc == 0 && Contains(r.output, "Status: active") {
      var portOk := FindPortRule(r.output, port);
      if portOk {
        out := out + "active and port allowed\n";
        failed := false;
      } else {
        out := out + "active but port NOT allowed\n";
        failed := true;
      }
    } else {
      out := out + "ufw not active or ufw not installed (output: " + r.output + ")\n";
      failed := true;
    }
  }

  /**
   * The port is matched as a substring: a rule line for a port whose decimal
   * text contains this port's text (8080 for 80) also passes the check.
   */
  lemma RuleForLongerPort(line: string, p: int, q: int)
    requires AllowsPort(line, q) && Contains(IntToDecimal(q), IntToDecimal(p))
    ensures AllowsPort(line, p)
  {
    ContainsTrans(line, IntToDecimal(q), IntToDecimal(p));
  }
}
