/**
 * main of scripts/c-c++/os_controlsystem.cpp: parse the arguments, pick the
 * domains, read the config file on Linux, run the selected checks and fold
 * their failures into the exit code (bit 1 sysctl, bit 2 service, bit 4
 * firewall), then print the summary line.
 *
 * The platform (`#ifdef __linux__`) is the parameter `isLinux`; the files
 * and commands are the Files map and the `run` oracle of the Checks module.
 */
module ControlSystem {
  import opened Wrappers
  import opened Strings
  import Cli
  import ConfigReader
  import opened Checks

  /** The config path is fixed: the usage text mentions --config, but no branch reads it. */
  const ConfigPath: string := "tests/hardening_config.json"

  /** The one thing checked on other platforms. */
  const WindowsScriptPath: string := "deploy\\windows\\hardening.ps1"

  /**
   * The settings the Linux checks use: the command-line name and port with
   * no exec and no sysctl keys, each replaced by the config file's value
   * when the file exists, opens and yields one.
   */
  function Settings(o: Cli.Options, fs: Files): ConfigReader.Baseline {
    var b := ConfigReader.Baseline(o.serviceName, "", o.servicePort, map[]);
    if ConfigPath in fs && fs[ConfigPath].Some? then ConfigReader.Loaded(fs[ConfigPath].value, b) else b
  }

  const OtherPlatformLine: string := "Platform: Non-Linux (Windows or others). Running basic checks...\n"
  const SysctlSkipLine: string := "[sysctl] Not applicable on Windows — skip\n"
  const FirewallHintLine: string :=
    "[firewall] Suggestion: run 'Get-NetFirewallProfile' in an elevated PowerShell to inspect firewall status.\n"
  const PassedLine: string := "All requested checks passed.\n"

  /** The bit `value` as an exit-code mask when `on` holds. */
  function Mask(on: bool, value: bv8): bv8 {
    if on then value else 0
  }

  /**
   * exit_code on Linux: 0 with bit 1 ORed in when the sysctl domain fails,
   * 2 for the service, 4 for the firewall, each only when selected.
   */
  function LinuxMask(sel: Cli.Selection, c: ConfigReader.Baseline, fs: Files, run: string -> CmdResult): bv8 {
    0 | Mask(sel.sysctl && SysctlFails(c.sysctl, fs, run), 1)
      | Mask(sel.service && ServiceFails(c.serviceName, c.serviceExec, fs, run), 2)
      | Mask(sel.firewall && !FirewallPasses(run(FirewallCommand), c.servicePort), 4)
  }

  /** exit_code elsewhere: only the missing hardening script sets a bit. */
  function OtherMask(sel: Cli.Selection, fs: Files): bv8 {
    0 | Mask(sel.service && WindowsScriptPath !in fs, 2)
  }

  /** The exit code after the checks the options select. */
  function RunCode(o: Cli.Options, isLinux: bool, fs: Files, run: string -> CmdResult): int {
    var sel := Cli.Selected(Cli.Normalize(o.checks));
    (if isLinux then LinuxMask(sel, Settings(o, fs), fs, run) else OtherMask(sel, fs)) as int
  }

  /** The exit code main returns for these arguments, platform, files and command results. */
  function ExitCode(argv: seq<string>, isLinux: bool, fs: Files, run: string -> CmdResult): int {
    match Cli.Parse(argv)
    case Help => 0
    case Run(o) => RunCode(o, isLinux, fs, run)
  }

  /** The last line of the output. */
  function Summary(code: int): string {
    if code == 0 then PassedLine
    else "Some checks failed (exit code: " + IntToDecimal(code) + "). Review output above.\n"
  }

  /** The lines the selected Linux checks print with settings `c`. */
  ghost function ChecksReport(sel: Cli.Selection, c: ConfigReader.Baseline, fs: Files, run: string -> CmdResult): string {
    (if sel.sysctl then SysctlReport(c.sysctl, fs, run) else "")
    + (if sel.service then StatusLine(c.serviceName, run(ServiceCommand(c.serviceName))) + ExecLine(fs, c.serviceName, c.serviceExec) else "")
    + (if sel.firewall then FirewallReport(run(FirewallCommand), c.servicePort) else "")
  }

  ghost function LinuxReport(sel: Cli.Selection, o: Cli.Options, fs: Files, run: string -> CmdResult): string {
    "Platform: Linux (detected)\n"
    + (if ConfigPath in fs && fs[ConfigPath].Some? then "[config] Loaded config from " + ConfigPath + "\n" else "")
    + ChecksReport(sel, Settings(o, fs), fs, run)
  }

  function OtherReport(sel: Cli.Selection, fs: Files): string {
    OtherPlatformLine
    + (if sel.sysctl then SysctlSkipLine else "")
    + (if sel.service then
         "[service] Checking presence of " + WindowsScriptPath + " ... "
         + (if WindowsScriptPath in fs then "FOUND\n" else "MISSING\n")
       else "")
    + (if sel.firewall then FirewallHintLine else "")
  }

  /** What the checks the options select print, then the summary line. */
  ghost function RunTranscript(o: Cli.Options, isLinux: bool, fs: Files, run: string -> CmdResult): string {
    var sel := Cli.Selected(Cli.Normalize(o.checks));
    (if isLinux then LinuxReport(sel, o, fs, run) else OtherReport(sel, fs))
    + Summary(RunCode(o, isLinux, fs, run))
  }

  /** Everything main writes to stdout; --help writes its usage to stderr only. */
  ghost function Transcript(argv: seq<string>, isLinux: bool, fs: Files, run: string -> CmdResult): string {
    match Cli.Parse(argv)
    case Help => ""
    case Run(o) => RunTranscript(o, isLinux, fs, run)
  }

  /** `if (do_sysctl)`: the sysctl domain when selected; a failure ORs in bit 1. */
  method SysctlStep(sel: Cli.Selection, c: ConfigReader.Baseline, fs: Files, run: string -> CmdResult, code: bv8)
    returns (code': bv8, text: string)
    ensures code' == code | Mask(sel.sysctl && SysctlFails(c.sysctl, fs, run), 1)
    ensures text == if sel.sysctl then SysctlReport(c.sysctl, fs, run) else ""
  {
    code', text := code, "";
    if sel.sysctl {
      var failed;
      text, failed := CheckSysctl(c.sysctl, fs, run);
      if failed {
        code' := code | 1;
      }
    }
  }

  /** `if (do_service)`: the service domain when selected; a failure ORs in bit 2. */
  method ServiceStep(sel: Cli.Selection, c: ConfigReader.Baseline, fs: Files, run: string -> CmdResult, code: bv8)
    returns (code': bv8, text: string)
    ensures code' == code | Mask(sel.service && ServiceFails(c.serviceName, c.serviceExec, fs, run), 2)
    ensures text == if sel.service then StatusLine(c.serviceName, run(ServiceCommand(c.serviceName))) + ExecLine(fs, c.serviceName, c.serviceExec) else ""
  {
    code', text := code, "";
    if sel.service {
      var failed;
      text, failed := CheckService(c.serviceName, c.serviceExec, fs, run);
      if failed {
        code' := code | 2;
      }
    }
  }

  /** `if (do_firewall)`: the firewall domain when selected; a failure ORs in bit 4. */
  method FirewallStep(sel: Cli.Selection, c: ConfigReader.Baseline, run: string -> CmdResult, code: bv8)
    returns (code': bv8, text: string)
    ensures code' == code | Mask(sel.firewall && !FirewallPasses(run(FirewallCommand), c.servicePort), 4)
    ensures text == if sel.firewall then FirewallReport(run(FirewallCommand), c.servicePort) else ""
  {
    code', text := code, "";
    if sel.firewall {
      var failed;
      text, failed := CheckFirewall(c.servicePort, run);
      if failed {
        code' := code | 4;
      }
    }
  }

  /** The selected Linux checks, in order, with the settings `c`. */
  method RunChecks(sel: Cli.Selection, c: ConfigReader.Baseline, fs: Files, run: string -> CmdResult)
    returns (code: bv8, out: string)
    ensures code == LinuxMask(sel, c, fs, run)
    ensures out == ChecksReport(sel, c, fs, run)
  {
    var sysctlText, serviceText, firewallText;
    code := 0;
    code, sysctlText := SysctlStep(sel, c, fs, run, code);
    code, serviceText := ServiceStep(sel, c, fs, run, code);
    code, firewallText := FirewallStep(sel, c, run, code);
    out := sysctlText + serviceText + firewallText;
  }

  /** The Linux branch of main: read the config, then run the checks with its settings. */
  method RunLinux(sel: Cli.Selection, o: Cli.Options, fs: Files, run: string -> CmdResult)
    returns (code: bv8, out: string)
    ensures code == LinuxMask(sel, Settings(o, fs), fs, run)
    ensures out == LinuxReport(sel, o, fs, run)
  {
    var header := "Platform: Linux (detected)\n";
    var c := ConfigReader.Baseline(o.serviceName, "", o.servicePort, map[]);
    var configText := "";
    if ConfigPath in fs {
      var ok;
      ok, c := ConfigReader.LoadConfig(fs[ConfigPath], c);
      if ok {
        configText := "[config] Loaded config from " + ConfigPath + "\n";
      }
    }
    assert c == Settings(o, fs);
    var checksText;
    code, checksText := RunChecks(sel, c, fs, run);
    out := header + configText + checksText;
  }

  /** The branch for other platforms: only a missing hardening script fails. */
  method RunOther(sel: Cli.Selection, fs: Files) returns (code: bv8, out: string)
    ensures code == OtherMask(sel, fs)
    ensures out == OtherReport(sel, fs)
  {
    code := 0;
    var header := OtherPlatformLine;
    var sysctlText, serviceText, firewallText := "", "", "";
    if sel.sysctl {
      sysctlText := SysctlSkipLine;
    }
    if sel.service {
      serviceText := "[service] Checking presence of " + WindowsScriptPath + " ... ";
      if WindowsScriptPath in fs {
        serviceText := serviceText + "FOUND\n";
      } else {
        serviceText := serviceText + "MISSING\n";
        code := code | 2;
      }
    }
    if sel.firewall {
      firewallText := FirewallHintLine;
    }
    out := header + sysctlText + serviceText + firewallText;
  }

  /** main after the argument loop: select the domains, run them, print the summary. */
  method RunSelected(opts: Cli.Options, isLinux: bool, fs: Files, run: string -> CmdResult)
    returns (code: int, out: string)
    ensures code == RunCode(opts, isLinux, fs, run)
    ensures out == RunTranscript(opts, isLinux, fs, run)
  {
    var sel := Cli.SelectChecks(opts.checks);
    var exitCode: bv8;
    var report: string;
    if isLinux {
      exitCode, report := RunLinux(sel, opts, fs, run);
    } else {
      exitCode, report := RunOther(sel, fs);
    }
    code := exitCode as int;
    var summary: string;
    if code == 0 {
      summary := PassedLine;
    } else {
      summary := "Some checks failed (exit code: " + IntToDecimal(code) + "). Review output above.\n";
    }
    assert summary == Summary(code);
    out := report + summary;
  }

  /** main: the exit code and the text written to stdout. */
  method ControlMain(argv: seq<string>, isLinux: bool, fs: Files, run: string -> CmdResult)
    returns (code: int, out: string)
    ensures code == ExitCode(argv, isLinux, fs, run)
    ensures out == Transcript(argv, isLinux, fs, run)
  {
    var parsed := Cli.ParseArgs(argv);
    if parsed.Help? {
      return 0, "";
    }
    code, out := RunSelected(parsed.opts, isLinux, fs, run);
  }

  // ---------------------------------------------------------------------
  // Properties of the exit code and the summary line

  /** Three flags ORed into bits 1, 2 and 4 read back one by one. */
  lemma MaskBits(a: bool, b: bool, f: bool)
    ensures var v := (0 | Mask(a, 1) | Mask(b, 2) | Mask(f, 4)) as int;
      && 0 <= v < 8
      && (v % 2 == 1 <==> a)
      && ((v / 2) % 2 == 1 <==> b)
      && (v / 4 == 1 <==> f)
  {
  }

  /**
   * The exit code lies in 0..7; --help gives 0; otherwise each bit is set
   * exactly when its domain was selected and failed, and off Linux only the
   * missing hardening script can set one (bit 2).
   */
  lemma ExitCodeBits(argv: seq<string>, isLinux: bool, fs: Files, run: string -> CmdResult)
    ensures 0 <= ExitCode(argv, isLinux, fs, run) < 8
    ensures Cli.Parse(argv).Help? ==> ExitCode(argv, isLinux, fs, run) == 0
    ensures Cli.Parse(argv).Run? ==>
      var code := ExitCode(argv, isLinux, fs, run);
      var o := Cli.Parse(argv).opts;
      var sel := Cli.Selected(Cli.Normalize(o.checks));
      var c := Settings(o, fs);
      && (code % 2 == 1 <==> isLinux && sel.sysctl && SysctlFails(c.sysctl, fs, run))
      && ((code / 2) % 2 == 1 <==>
            sel.service && if isLinux then ServiceFails(c.serviceName, c.serviceExec, fs, run) else WindowsScriptPath !in fs)
      && (code / 4 == 1 <==> isLinux && sel.firewall && !FirewallPasses(run(FirewallCommand), c.servicePort))
  {
    match Cli.Parse(argv)
    case Help =>
    case Run(o) =>
      var sel := Cli.Selected(Cli.Normalize(o.checks));
      var c := Settings(o, fs);
      if isLinux {
        MaskBits(sel.sysctl && SysctlFails(c.sysctl, fs, run),
                 sel.service && ServiceFails(c.serviceName, c.serviceExec, fs, run),
                 sel.firewall && !FirewallPasses(run(FirewallCommand), c.servicePort));
      } else {
        MaskBits(false, sel.service && WindowsScriptPath !in fs, false);
      }
  }

  predicate EndsWith(s: string, t: string) {
    |t| <= |s| && s[|s| - |t|..] == t
  }

  /**
   * "All requested checks passed." is the last line exactly when the exit
   * code is 0. (It may appear earlier too: the service and firewall lines
   * echo command output.)
   */
  lemma PassedLineIffZero(o: Cli.Options, isLinux: bool, fs: Files, run: string -> CmdResult)
    ensures EndsWith(RunTranscript(o, isLinux, fs, run), PassedLine) <==> RunCode(o, isLinux, fs, run) == 0
  {
    var sel := Cli.Selected(Cli.Normalize(o.checks));
    var report := if isLinux then LinuxReport(sel, o, fs, run) else OtherReport(sel, fs);
    var code := RunCode(o, isLinux, fs, run);
    var s := RunTranscript(o, isLinux, fs, run);
    assert s == report + Summary(code);
    if code == 0 {
      assert s[|s| - |PassedLine|..] == PassedLine;
    } else {
      var tail := "). Review output above.\n";
      var line := "Some checks failed (exit code: " + IntToDecimal(code) + tail;
      assert s == report + line;
      assert s[|s| - 3] == tail[|tail| - 3] == 'e';
      assert PassedLine[|PassedLine| - 3] == 'd';
    }
  }

  /**
   * main writes nothing to stdout exactly when a help flag stands where the
   * argv loop reads an option, and it then exits 0 having run no check.
   */
  lemma HelpRunsNothing(argv: seq<string>, isLinux: bool, fs: Files, run: string -> CmdResult)
    ensures Cli.HelpGiven(argv) <==> Transcript(argv, isLinux, fs, run) == ""
    ensures Cli.HelpGiven(argv) ==> ExitCode(argv, isLinux, fs, run) == 0
  {
    Cli.HelpExactly(argv);
    match Cli.Parse(argv)
    case Help =>
    case Run(o) =>
      var code := RunCode(o, isLinux, fs, run);
      assert |Summary(code)| > 0;
  }

  /**
   * With a written baseline file, the Linux checks run with the file's
   * name, port and sysctl pairs, and no executable check.
   */
  lemma SettingsFromFile(o: Cli.Options, fs: Files, ps: seq<(string, string)>, n: string, port: int)
    requires ConfigPath in fs && fs[ConfigPath] == Some(ConfigReader.ConfigText(ps, n, port))
    requires ps != [] && ConfigReader.QuoteFree(ps)
    requires ConfigReader.KeyUnused(ps, "service_name") && ConfigReader.KeyUnused(ps, "service_exec")
    requires ConfigReader.KeyUnused(ps, "service_port")
    requires n != [] && '"' !in n && n != "service_exec" && n != "service_port"
    requires -0x8000_0000 <= port < 0x8000_0000 && port != -1
    ensures Settings(o, fs) == ConfigReader.Baseline(n, "", port, ConfigReader.InsertAll(map[], ps))
  {
    ConfigReader.LoadedReadsBaseline(ps, n, port, ConfigReader.Baseline(o.serviceName, "", o.servicePort, map[]));
  }

  /**
   * `{"sysctl": {}, "k": "v"}`: the scan as written reads the field after
   * the empty object as a sysctl key, so with `"service_name": "sshd"` the
   * Linux checks ask for `sysctl -n service_name` instead of running the
   * legacy check.
   */
  lemma SettingsEmptySysctlAsWritten(o: Cli.Options, fs: Files, k: string, v: string)
    requires '"' !in k && '"' !in v
    requires ConfigPath in fs && fs[ConfigPath] == Some(ConfigReader.EmptySysctlThen(k, v))
    ensures Settings(o, fs).sysctl == map[k := v]
  {
    ConfigReader.EmptySysctlThenAsWritten(k, v);
  }
}
