# Host-hardening compliance checker, modelled in Dafny

This project models the parts of the os_typing hardening repository that make decisions.

The centre is the compliance checker `scripts/c-c++/os_controlsystem.cpp`. It does the following:

- It reads a small JSON-like baseline file with a position-based scanner. This is `load_config` with its `get_string` and `get_int` lambdas and the `"sysctl"` object scan.
- It parses its command line and selects up to three check domains.
- It checks sysctl values, a systemd service and a UFW rule.
- It folds each domain's failure into a 3-bit exit code.

Four smaller cores sit beside it:

- `parse_output` and the counts of `make_junit` in `scripts/tests/os_controlsystem_to_junit.py`. They read the checker's output back as JUnit test cases.
- The `DBSecurity` helpers of `db_security.php`: the identifier whitelist, backtick quoting, integer coercion and parameter masking.
- The REPL helpers of `src/terminal.c`: `trim_newline`, `terminal_find_cmd` and `terminal_run`.
- `sanitizeInput` and the `osName`/`osVersion` defaults of `os_typing.c`.

Modules (one file each):

| module | file | models |
|---|---|---|
| `Wrappers` | wrappers.dfy | `Option` |
| `Strings` | strings.dfy | `std::string::find`, `getline` splitting, trimming, decimal text, the `std::map` key order |
| `ConfigReader` | config_reader.dfy | `load_config`, `get_string`, `get_int`, the sysctl scan |
| `Cli` | cli.dfy | the argv loop, `std::atoi`, the selection of domains |
| `Checks` | checks.dfy | `file_contains` and the three domain checks |
| `ControlSystem` | control_system.dfy | `main`: the platform branches, the exit bitmask and the summary line |
| `JUnitReport` | junit_report.dfy | `parse_output`, the counts of `make_junit` |
| `DBSecurity` | db_security.dfy | `isValidIdentifier`, `quoteIdentifier`, `toInt`, `maskParamsForLogging` |
| `Terminal` | terminal.dfy | `trim_newline`, `terminal_find_cmd`, `terminal_run` |
| `OsTyping` | os_typing.dfy | `sanitizeInput`, `main`'s `osName`/`osVersion` |

## How the outside world is modelled

The checker's I/O is modelled as inputs:

- Processes are an oracle `run: string -> CmdResult`. It gives the captured output and exit status of `run_cmd` for a shell command.
- Files are a map `Files = map<string, Option<string>>`. A key is a path `stat` finds. Its value is the content, or `None` when the file cannot be opened.
- The platform (`#ifdef __linux__`) is the boolean `isLinux`.

The checker's `std::string` is a sequence of characters, one per byte. Printed text is the exception: the transcript is modelled as text, so the em dash of the Windows sysctl line (os_controlsystem.cpp:285) is one character in `ControlSystem.SysctlSkipLine`, where the program writes three UTF-8 bytes.

`std::map` visits keys in ascending byte order. `Checks.SortedKeys` gives that order, and the sysctl loop picks the least remaining key each round.

`std::atoi` is glibc's `(int) strtol(s, NULL, 10)`. Out of range, it saturates to the 64-bit `long` range and then keeps the low 32 bits (`Cli.Strtol`, `Cli.ToInt32`).

Python's dict is a sequence of `(key, entry)` pairs in insertion order. Assigning an existing key replaces its entry in place (`JUnitReport.Put`).

`terminal_run` takes its input as a sequence of lines, as `getline` returns them. A handler is a function from (call number, command index, argv) to its return value.

Two behaviours of the checker that a reader might not expect:

- The usage text (os_controlsystem.cpp:139-140) offers `--config PATH`, but the argv loop (lines 150-165) has no branch for it. The baseline is always `tests/hardening_config.json` (`ControlSystem.ConfigPath`).
- A legacy drop-in file with neither key prints `MISSING expected keys` (line 228).

Where a loop in the source changes state, the model has a method with that loop. The method is proved equal to a specification function, and the lemmas state what the source promises about that function:

- `GetInt`, `ScanSysctl`, `ParseArgs`, `SelectChecks`, `FileContains`, `CheckSysctlMap`, `FindPortRule`, `ParseOutputLoop`, `JUnitCounts`, `MaskParamsForLogging`, `TrimNewline`, `FindCmd`, `Tokenize`, `TerminalRun`, `SanitizeInput`.
- `TrimNewline` works in place on an `array<char>` and writes NULs as `trim_newline` does.

`ToInt` has no loop. It reassigns its value through the two clamps one step at a time, as `toInt` does (db_security.php:47-48). Its ensures give the result case by case in terms of `Clamp`.

## Model

| member | source | states |
|---|---|---|
| ConfigReader.ValueSpan | scripts/c-c++/os_controlsystem.cpp:70-80 | the value `get_string` extracts lies strictly between two quotes with no quote in between; no `"key"` in the text means no value |
| ConfigReader.GetStringSpec | scripts/c-c++/os_controlsystem.cpp:70-81 | `get_string` never returns a quote, and returns "" when `"key"` does not occur |
| ConfigReader.GetStringQuotedIn | scripts/c-c++/os_controlsystem.cpp:76-80 | a non-empty result of `get_string` occurs quoted in the text |
| ConfigReader.GetStringFrom | scripts/c-c++/os_controlsystem.cpp:70-81 | once its four searches land around `v`, `get_string` returns `v` |
| ConfigReader.KeyedFind | scripts/c-c++/os_controlsystem.cpp:72 | when `"key"` first occurs right after `pre`, `s.find("\"key\"")` stops there whatever follows |
| ConfigReader.QuoteFreeKeyFirst | scripts/c-c++/os_controlsystem.cpp:72 | a prefix without quotes cannot hold or begin a `"key"` |
| ConfigReader.GetStringReadsField | scripts/c-c++/os_controlsystem.cpp:70-81 | round trip: in `pre "key":sep "v" rest`, where `"key"` first occurs after `pre`, with no quote in `sep` or `v` and no ':' in the key, `get_string` returns `v` |
| ConfigReader.Stoi | scripts/c-c++/os_controlsystem.cpp:95 | `std::stoi` yields a 32-bit int or throws (None) |
| ConfigReader.NumberSpan | scripts/c-c++/os_controlsystem.cpp:89-92 | the run `get_int` takes consists of digits and '-' only and is maximal |
| ConfigReader.GetInt | scripts/c-c++/os_controlsystem.cpp:83-96 | the two while loops compute the specified value, which is -1 or a 32-bit int |
| ConfigReader.StoiDecimal | scripts/c-c++/os_controlsystem.cpp:95 | `std::stoi` reads back the decimal text of every 32-bit int |
| ConfigReader.ParseRunDecimal | scripts/c-c++/os_controlsystem.cpp:93-95 | `get_int`'s conversion reads back the decimal text of every 32-bit int |
| ConfigReader.IntFieldFrom | scripts/c-c++/os_controlsystem.cpp:83-96 | once its searches and runs land around `num`, `get_int` returns what its conversion makes of `num` |
| ConfigReader.IntFieldReadsNumber | scripts/c-c++/os_controlsystem.cpp:83-96 | round trip: in `pre "key":sp N rest`, where `"key"` first occurs after `pre`, with blanks `sp` and `rest` not continuing the number, `get_int` returns N |
| ConfigReader.IntFieldRange | scripts/c-c++/os_controlsystem.cpp:83-96 | `get_int` returns -1 or a 32-bit value |
| ConfigReader.KeySpan | scripts/c-c++/os_controlsystem.cpp:106-110 | the key of a scan step lies between two consecutive quotes at or after `p` |
| ConfigReader.ValueQuotes | scripts/c-c++/os_controlsystem.cpp:111-117 | the value lies between two consecutive quotes; its opening quote is past the key's closing quote |
| ConfigReader.StepSpan | scripts/c-c++/os_controlsystem.cpp:104-117 | the four quotes of one iteration are strictly increasing and inside the text |
| ConfigReader.ScanStepAt | scripts/c-c++/os_controlsystem.cpp:104-119 | each iteration that inserts a pair moves `p` strictly forward (`p = v2 + 1`), so the scan terminates |
| ConfigReader.ScanStepQuoteFree | scripts/c-c++/os_controlsystem.cpp:110-117 | the key and value of one step contain no quote |
| ConfigReader.ScanPairsQuoteFree | scripts/c-c++/os_controlsystem.cpp:99-127 | no key or value the scan extracts contains a quote |
| ConfigReader.ScanPairsEntry | scripts/c-c++/os_controlsystem.cpp:118-124 | after a pair the scan stops exactly when a '}' follows and comes before the next ',' (a missing ',' counts as after every '}'), otherwise it goes on from `v2 + 1` |
| ConfigReader.ScanPairsStopped | scripts/c-c++/os_controlsystem.cpp:104-116 | either scan reads nothing when the text ends or a search fails, the corrected one also when the object closes: a malformed tail ends the scan without error |
| ConfigReader.ScanBody | scripts/c-c++/os_controlsystem.cpp:103-125 | the scan reads back every pair of a written object body, in order (the scan as written needs at least one pair) |
| ConfigReader.SysctlStartAt | scripts/c-c++/os_controlsystem.cpp:99-103 | in a written `"sysctl": {` the scan starts right after the brace |
| ConfigReader.SysctlReadsObject | scripts/c-c++/os_controlsystem.cpp:98-127 | corrected scan: a written sysctl object after the first `"sysctl"` reads back as exactly its pairs, the empty object included |
| ConfigReader.SysctlReadsObjectAsWritten | scripts/c-c++/os_controlsystem.cpp:98-127 | scan as written: a written sysctl object with at least one pair reads back as exactly its pairs |
| ConfigReader.EmptySysctlThenAsWritten | scripts/c-c++/os_controlsystem.cpp:98-127 | scan as written: in `{"sysctl": {}, "k": "v"}` the pair `k` → `v` is read into the sysctl map |
| ConfigReader.SysctlEmptyObjectAsWritten | scripts/c-c++/os_controlsystem.cpp:98-127 | scan as written: an empty sysctl object followed by a field reads that field as a sysctl pair; the corrected scan reads none |
| ConfigReader.EmptyBodyAsWritten | scripts/c-c++/os_controlsystem.cpp:103-124 | as written, the scan skips the '}' of an empty body and reads the pair after it |
| ConfigReader.InsertAll | scripts/c-c++/os_controlsystem.cpp:118 | `out_sysctl[k] = v` keeps every key the caller's map had and adds every scanned key |
| ConfigReader.InsertAllLastWins | scripts/c-c++/os_controlsystem.cpp:118 | a duplicate key keeps the value of its last pair |
| ConfigReader.InsertAllKeeps | scripts/c-c++/os_controlsystem.cpp:118 | keys the scan never reads keep their value |
| ConfigReader.ScanSysctl | scripts/c-c++/os_controlsystem.cpp:98-127 | the scan loop as written, without an end-of-object test before a key, inserts exactly the pairs the scan as written reads, in order, into the caller's map |
| ConfigReader.LoadConfig | scripts/c-c++/os_controlsystem.cpp:65-137 | returns false and changes nothing exactly when the file cannot be opened; otherwise the out-parameters become the loaded baseline |
| ConfigReader.LoadedWithoutQuotes | scripts/c-c++/os_controlsystem.cpp:129-134 | a text with no quote changes no out-parameter |
| ConfigReader.LoadedPort | scripts/c-c++/os_controlsystem.cpp:133-134 | the port stays the caller's or becomes a 32-bit value other than -1, so a configured -1 counts as absent |
| ConfigReader.LoadedKeepsSysctl | scripts/c-c++/os_controlsystem.cpp:118 | entries of the caller's sysctl map survive unless the scan reads their key |
| ConfigReader.LoadedNameQuoteFree | scripts/c-c++/os_controlsystem.cpp:129-130 | a service name read from the file holds no quote |
| ConfigReader.LoadedReadsName | scripts/c-c++/os_controlsystem.cpp:129-130 | a written non-empty `"service_name"` replaces the name the caller passed: config wins over the command line |
| ConfigReader.LoadedReadsPort | scripts/c-c++/os_controlsystem.cpp:133-134 | a written 32-bit `"service_port"` other than -1 replaces the caller's port |
| ConfigReader.LoadedReadsSysctl | scripts/c-c++/os_controlsystem.cpp:98-127 | each pair of a written non-empty sysctl object after the first `"sysctl"` lands in the map, the last one winning |
| ConfigReader.CleanKeyFirst | scripts/c-c++/os_controlsystem.cpp:72 | when no quote of `pre` can begin `"key"`, the search for `"key"` in `pre "key"` stops after `pre` |
| ConfigReader.CleanAbsent | scripts/c-c++/os_controlsystem.cpp:72 | when no quote of a text can begin `"key"`, the search for it fails |
| ConfigReader.BodyClean | scripts/c-c++/os_controlsystem.cpp:72 | no quote of a written sysctl object begins `"key"` when no pair's key or value is `key` |
| ConfigReader.ConfigTextSysctl | scripts/c-c++/os_controlsystem.cpp:98-127 | in `{"sysctl": {ps}, "service_name": "n", "service_port": N}` the scan as written reads exactly `ps` when it is not empty |
| ConfigReader.ConfigTextName | scripts/c-c++/os_controlsystem.cpp:70-81 | in that file `get_string` reads `n` when no pair mentions `service_name` |
| ConfigReader.ConfigTextPort | scripts/c-c++/os_controlsystem.cpp:83-96 | in that file `get_int` reads N when nothing before it is `"service_port"` |
| ConfigReader.ConfigTextNoExec | scripts/c-c++/os_controlsystem.cpp:70-81 | in that file `get_string` finds no `service_exec` and returns "" |
| ConfigReader.LoadedReadsBaseline | scripts/c-c++/os_controlsystem.cpp:65-137 | whole file: load_config on `{"sysctl": {ps}, "service_name": "n", "service_port": N}` gives name `n`, the caller's executable, port N and the caller's map with `ps` inserted |
| Cli.Strtol | scripts/c-c++/os_controlsystem.cpp:154 | `strtol` saturates to the 64-bit `long` range |
| Cli.ToInt32 | scripts/c-c++/os_controlsystem.cpp:154 | the cast to int is a 32-bit value congruent to its input mod 2^32, and the identity on 32-bit values |
| Cli.AtoiDecimal | scripts/c-c++/os_controlsystem.cpp:154 | `atoi` reads back the decimal text of every 32-bit int |
| Cli.AtoiNoDigits | scripts/c-c++/os_controlsystem.cpp:154 | a port argument without digits gives 0 |
| Cli.ParseArgs | scripts/c-c++/os_controlsystem.cpp:150-165 | the argv loop, with its nested getline loop, computes the specified parse |
| Cli.ParseRendered | scripts/c-c++/os_controlsystem.cpp:150-165 | setting name, port and check list once gives exactly those options, even when the name is `--help` |
| Cli.HelpAfterOptions | scripts/c-c++/os_controlsystem.cpp:150-165 | after `--service-name N --service-port P --checks LIST`, a `--help` or `-h` ends the parse as Help, whatever follows |
| Cli.HelpFrom | scripts/c-c++/os_controlsystem.cpp:150-165 | from any loop index and any options so far, a help flag at a position the loop reads as an option (`FlagAt`: each option with a value skips that value) ends the parse as Help |
| Cli.HelpOnlyFrom | scripts/c-c++/os_controlsystem.cpp:150-165 | conversely, a parse that ends as Help met a help flag at such an option position |
| Cli.HelpExactly | scripts/c-c++/os_controlsystem.cpp:150-165 | the parse is Help if and only if argv holds `--help` or `-h` at an option position |
| Cli.PlainFlagAt | scripts/c-c++/os_controlsystem.cpp:150-165 | arguments that take no value and are not help are stepped over one at a time, so every later index is an option position |
| Cli.HelpAnywhere | scripts/c-c++/os_controlsystem.cpp:152 | a help flag preceded only by arguments that are neither help nor an option with a value ends the parse as Help |
| Cli.HelpCases | scripts/c-c++/os_controlsystem.cpp:150-165 | `prog --help`, `prog -h` and `prog --checks all --help` are Help; `prog --service-name --help` runs with the service named `--help` |
| Cli.ChecksAccumulate | scripts/c-c++/os_controlsystem.cpp:155-163 | comma lists append in order; `--checks all` replaces what came before but not what follows |
| Cli.Normalize | scripts/c-c++/os_controlsystem.cpp:166 | an empty list becomes `all`; a non-empty one is kept |
| Cli.SelectChecks | scripts/c-c++/os_controlsystem.cpp:166-174 | the flag loop computes the specified selection, stopping at `all` |
| Cli.NoChecksSelectsAll | scripts/c-c++/os_controlsystem.cpp:166-174 | no `--checks` selects all three domains |
| Cli.UnknownSelectsNothing | scripts/c-c++/os_controlsystem.cpp:168-174 | a list of unknown names selects no domain |
| Checks.FileContains | scripts/c-c++/os_controlsystem.cpp:30-38 | true iff the file opens and one of its getline lines contains the needle |
| Checks.HasLineIff | scripts/c-c++/os_controlsystem.cpp:30-38 | a line contains the needle iff the text is non-empty, the needle has no newline and the text contains it |
| Checks.TrimTrailing | scripts/c-c++/os_controlsystem.cpp:213 | the pop_back loop strips exactly the maximal tail of '\n', '\r' and ' ' |
| Checks.CheckSysctlKey | scripts/c-c++/os_controlsystem.cpp:205-220 | the line printed for one key, and the key fails iff its verdict is not OK |
| Checks.SysctlOkIff | scripts/c-c++/os_controlsystem.cpp:207-214 | OK iff rc is 0, neither missing marker occurs and the trimmed output equals the expected value exactly |
| Checks.SortedKeysAscending | scripts/c-c++/os_controlsystem.cpp:202 | keys are visited in strictly ascending order, each key of the map once |
| Checks.PickLeast | scripts/c-c++/os_controlsystem.cpp:202 | each round takes the least remaining key, which heads the sorted order |
| Checks.AnyFailsIff | scripts/c-c++/os_controlsystem.cpp:200-221 | the fold of bit 1 over the keys is set iff some key fails |
| Checks.ScanNextKey | scripts/c-c++/os_controlsystem.cpp:202-220 | one iteration of the map loop keeps the scan invariant and removes a key |
| Checks.CheckSysctlMap | scripts/c-c++/os_controlsystem.cpp:200-221 | prints the key lines in ascending key order; fails iff some configured key fails |
| Checks.MapScanFinished | scripts/c-c++/os_controlsystem.cpp:202-221 | when no key remains, the output and flag are those of the whole map |
| Checks.CheckSysctlLegacy | scripts/c-c++/os_controlsystem.cpp:222-230 | the legacy check passes iff the drop-in file exists and a line names either hardened key |
| Checks.CheckSysctl | scripts/c-c++/os_controlsystem.cpp:200-231 | the configured keys when any, the legacy file otherwise |
| Checks.CheckService | scripts/c-c++/os_controlsystem.cpp:233-260 | fails iff the service is not active (rc 0 and "active"), or an exec is configured and the unit file is missing or lacks it |
| Checks.FindPortRule | scripts/c-c++/os_controlsystem.cpp:267-274 | the getline loop finds a line holding the port text and `ALLOW` iff one exists |
| Checks.CheckFirewall | scripts/c-c++/os_controlsystem.cpp:262-281 | passes iff rc is 0, the output holds `Status: active` and some line allows the port |
| Checks.RuleForLongerPort | scripts/c-c++/os_controlsystem.cpp:271 | the port is matched as a substring: a rule for 8080 also passes a check for port 80 |
| ControlSystem.SysctlStep | scripts/c-c++/os_controlsystem.cpp:200-231 | ORs in bit 1 iff sysctl is selected and fails |
| ControlSystem.ServiceStep | scripts/c-c++/os_controlsystem.cpp:233-260 | ORs in bit 2 iff service is selected and fails; repeated failures set the same bit |
| ControlSystem.FirewallStep | scripts/c-c++/os_controlsystem.cpp:262-281 | ORs in bit 4 iff firewall is selected and fails |
| ControlSystem.RunChecks | scripts/c-c++/os_controlsystem.cpp:200-281 | the three domains in order give the Linux mask and report |
| ControlSystem.RunLinux | scripts/c-c++/os_controlsystem.cpp:183-281 | the Linux branch uses the CLI values overridden by the config file when it opens, read with the sysctl scan as written |
| ControlSystem.SettingsFromFile | scripts/c-c++/os_controlsystem.cpp:183-197 | with a written baseline file the Linux checks use its name, port and sysctl pairs and no executable |
| ControlSystem.SettingsEmptySysctlAsWritten | scripts/c-c++/os_controlsystem.cpp:98-127 | with `{"sysctl": {}, "k": "v"}` the Linux checks' sysctl map is exactly `k` → `v`, so `sysctl -n k` is run instead of the legacy check |
| ControlSystem.RunOther | scripts/c-c++/os_controlsystem.cpp:282-296 | elsewhere only a missing `deploy\windows\hardening.ps1` sets a bit (bit 2) |
| ControlSystem.RunSelected | scripts/c-c++/os_controlsystem.cpp:181-301 | the exit code and output of the selected checks on either platform |
| ControlSystem.ControlMain | scripts/c-c++/os_controlsystem.cpp:144-302 | main's exit code and stdout for any arguments, files and command results |
| ControlSystem.MaskBits | scripts/c-c++/os_controlsystem.cpp:181 | the mask lies in 0..7 and each bit is set iff its domain failed |
| ControlSystem.ExitCodeBits | scripts/c-c++/os_controlsystem.cpp:181-301 | the exit code lies in 0..7, is 0 on help, and each bit is set iff its domain was selected and failed |
| ControlSystem.PassedLineIffZero | scripts/c-c++/os_controlsystem.cpp:298-299 | "All requested checks passed." ends the output iff the exit code is 0 |
| ControlSystem.HelpRunsNothing | scripts/c-c++/os_controlsystem.cpp:150-165 | for every argv: main writes nothing to stdout if and only if a help flag stands at an option position, and it then exits 0 |
| JUnitReport.SplitLines | scripts/tests/os_controlsystem_to_junit.py:22 | no line `splitlines` returns holds a line break |
| JUnitReport.TrimLeft | scripts/tests/os_controlsystem_to_junit.py:23 | the left strip is a suffix of its input that starts with a non-blank |
| JUnitReport.StripKeepsPrefix | scripts/tests/os_controlsystem_to_junit.py:23 | `strip` keeps a prefix that starts and ends with non-blanks |
| JUnitReport.BracketlessSysctlIgnored | scripts/tests/os_controlsystem_to_junit.py:27-35 | a `[sysctl:` line with no `]` produces no entry |
| JUnitReport.PutSpec | scripts/tests/os_controlsystem_to_junit.py:34-62 | dict assignment keeps keys unique, overwrites in place, appends a new key at the end and leaves other keys alone |
| JUnitReport.LookupKeys | scripts/tests/os_controlsystem_to_junit.py:21-63 | a key is absent iff no pair carries it |
| JUnitReport.ItemsAt | scripts/tests/os_controlsystem_to_junit.py:22-25 | the i-th item is the classification of the i-th stripped line |
| JUnitReport.ParseOutputLoop | scripts/tests/os_controlsystem_to_junit.py:15-69 | the for loop over lines computes the specified result |
| JUnitReport.CollectLastWins | scripts/tests/os_controlsystem_to_junit.py:21-63 | the dict has unique keys, and each key maps to the entry of the last line with that key |
| JUnitReport.CollectEmptyIff | scripts/tests/os_controlsystem_to_junit.py:21-63 | the dict is empty iff no line is recognised |
| JUnitReport.ClassifyNotParse | scripts/tests/os_controlsystem_to_junit.py:27-63 | every recognised key starts with `s` or `f` |
| JUnitReport.LineEntryNotParse | scripts/tests/os_controlsystem_to_junit.py:22-63 | no line yields the key `parse` |
| JUnitReport.ItemsNotParse | scripts/tests/os_controlsystem_to_junit.py:22-63 | no item carries the key `parse` |
| JUnitReport.FallbackShape | scripts/tests/os_controlsystem_to_junit.py:66-68 | the result is non-empty with unique keys; it is the single failing `parse` entry iff no line is recognised |
| JUnitReport.ParseOutputShape | scripts/tests/os_controlsystem_to_junit.py:15-69 | `parse_output` is never empty, has unique keys, and is `{'parse': failed, text}` iff no line is recognised |
| JUnitReport.ParseOutputLastWins | scripts/tests/os_controlsystem_to_junit.py:21-63 | every key other than `parse` maps to the entry of its last line |
| JUnitReport.ClassifySysctlHead | scripts/tests/os_controlsystem_to_junit.py:27-35 | a line headed `[sysctl:k]` maps to `sysctl:k`, ok iff `OK` occurs and neither `MISMATCH` nor `MISSING` does |
| JUnitReport.ClassifySysctlOk | scripts/tests/os_controlsystem_to_junit.py:27-35 | the checker's OK line, for a key without `]` or either negative marker, reads as a passing `sysctl:key` |
| JUnitReport.ClassifySysctlMissing | scripts/tests/os_controlsystem_to_junit.py:27-35 | the MISSING line reads as a failing `sysctl:key` |
| JUnitReport.ClassifySysctlMismatch | scripts/tests/os_controlsystem_to_junit.py:27-35 | any MISMATCH line reads as a failing `sysctl:key` |
| JUnitReport.SysctlOkReadBack | scripts/tests/os_controlsystem_to_junit.py:22-35 | the checker's printed OK line (key without `]` or a negative marker), stripped, gives a passing entry with the line as output |
| JUnitReport.SysctlMissingReadBack | scripts/tests/os_controlsystem_to_junit.py:22-35 | the printed MISSING line gives a failing entry |
| JUnitReport.SysctlMismatchReadBack | scripts/tests/os_controlsystem_to_junit.py:23-35 | the printed MISMATCH line, taken as one line without its newline, gives a failing entry |
| JUnitReport.SysctlLineReadBack | scripts/tests/os_controlsystem_to_junit.py:23-35 | for a key without `]` (and, for OK, without a negative marker), each printed sysctl line, taken as one line without its newline, reads back under `sysctl:key`, ok iff the verdict was OK |
| JUnitReport.SplitOneLine | scripts/tests/os_controlsystem_to_junit.py:22 | a text without line breaks, then a newline, is one line to `splitlines` |
| JUnitReport.SysctlBodyOneLine | scripts/c-c++/os_controlsystem.cpp:205-221 | the printed sysctl line holds no line break before its newline when key, expected value and sysctl's answer hold none |
| JUnitReport.ParseOneLine | scripts/tests/os_controlsystem_to_junit.py:15-69 | `parse_output` of one recognised line and its newline is exactly that line's entry |
| JUnitReport.SysctlOutputReadBack | scripts/tests/os_controlsystem_to_junit.py:15-69 | round trip over the whole text: `parse_output` of the checker's output for one key is the single entry `sysctl:key`, ok iff the verdict was OK, when key, expected value and sysctl's answer hold no line break |
| JUnitReport.JUnitCounts | scripts/tests/os_controlsystem_to_junit.py:75-96 | `tests` is the number of entries, `failures` the number not ok; the loop writes one testcase per entry plus `raw-output`, and as many `<failure>` elements as `failures` says |
| JUnitReport.FailuresSpec | scripts/tests/os_controlsystem_to_junit.py:76 | failures never exceed tests; 0 iff every entry is ok; all iff none is |
| DBSecurity.AsWrittenAcceptsTrailingNewline | db_security.php:22 | the pattern as written accepts every valid name followed by "\n", which the whitelist rejects |
| DBSecurity.AsWrittenAcceptsANewline | db_security.php:22 | "a\n" passes the pattern as written but is not a whitelisted name |
| DBSecurity.AsWrittenOnlyAddsNewline | db_security.php:22 | without a newline, the pattern as written and the whitelist agree |
| DBSecurity.QuoteIdentifier | db_security.php:29-36 | as written: raises InvalidArgumentException, with its message, iff `isValidIdentifier`'s pattern rejects the name, one trailing newline allowed |
| DBSecurity.QuoteIdentifierIntended | db_security.php:17-36 | with the documented whitelist: raises InvalidArgumentException, with its message, iff the name is not 1 to 64 letters, digits and underscores |
| DBSecurity.QuoteIdentifierNewline | db_security.php:22-35 | as written, "a\n" comes back as backtick, "a\n", backtick; the whitelist version raises |
| DBSecurity.QuoteIdentifierAgrees | db_security.php:22-35 | the two versions agree on every name the whitelist accepts and on every name without a newline |
| DBSecurity.UndoubleDouble | db_security.php:34 | undoubling reverses `str_replace('`', '``', ...)` |
| DBSecurity.DoubleNoBackticks | db_security.php:34 | the doubling changes nothing in a name without backticks |
| DBSecurity.QuoteUnquote | db_security.php:29-36 | every identifier either version quotes reads back as the name it was given |
| DBSecurity.QuoteValid | db_security.php:33-35 | with the whitelist, a valid name comes back as backtick, name, backtick, with only whitelist characters inside |
| DBSecurity.Clamp | db_security.php:47-48 | within [min, max] when min <= max, max when min > max, unchanged when in range |
| DBSecurity.ClampIdempotent | db_security.php:47-48 | clamping twice equals clamping once, whatever the bounds |
| DBSecurity.ClampOneSided | db_security.php:47-48 | with one bound, the value moves to that bound only when beyond it |
| DBSecurity.ToInt | db_security.php:41-50 | booleans give 1/0 whatever the default and bounds; a failed validation gives the unclamped default; a valid int is clamped |
| DBSecurity.Parts | db_security.php:56-61 | one part per parameter, in array order |
| DBSecurity.MaskParamsForLogging | db_security.php:55-63 | the foreach loop builds the parts joined by ", " |
| DBSecurity.MaskIgnoresValues | db_security.php:55-63 | the log text depends only on the keys and on which values are strings |
| DBSecurity.PartShape | db_security.php:58-60 | each part is the key's text (`:` prefix for string keys) followed by `='?'` or `=?` |
| Terminal.CLen | src/terminal.c:41 | `strlen`: the first NUL, with no NUL before it |
| Terminal.TrimNewline | src/terminal.c:40-43 | in place: NULs replace exactly the maximal trailing run of '\n'/'\r'; everything else is unchanged |
| Terminal.TrimmedBufferCStr | src/terminal.c:40-43 | the C string after the trim is the old one without its trailing CR/LF run |
| Terminal.TrimNewlinesEnd | src/terminal.c:42 | the trimmed string does not end in CR or LF |
| Terminal.TrimNewlinesIdempotent | src/terminal.c:40-43 | trimming twice equals trimming once |
| Terminal.CmdIndex | src/terminal.c:45-50 | the first of the first `ncmds` entries with a non-NULL equal name, or none |
| Terminal.FindCmd | src/terminal.c:45-50 | -1 or an index below `ncmds` whose name matches, with no earlier match; -1 iff none matches |
| Terminal.FindCmdIndex | src/terminal.c:45-50 | that contract determines the result: it is the specified first match |
| Terminal.TokensAreWords | src/terminal.c:79-83 | every token is non-empty and free of space and tab |
| Terminal.Take | src/terminal.c:80 | at most the cap, a prefix of the tokens, all of them when they fit |
| Terminal.NextToken | src/terminal.c:79-82 | skips the delimiters, then spans one token |
| Terminal.Tokenize | src/terminal.c:76-83 | argv is the first 16 space/tab tokens; the rest are dropped |
| Terminal.TokensJoin | src/terminal.c:76-83 | round trip: words joined by spaces tokenise back to those words |
| Terminal.StepOf | src/terminal.c:70-97 | a dispatched call has 1 to 16 arguments, a matching command below `ncmds`, and a first token other than exit/quit |
| Terminal.ReadLine | src/terminal.c:62-68 | the line is cut at its NUL and its trailing CR/LF run trimmed |
| Terminal.Classify | src/terminal.c:70-97 | blank lines are skipped; exit/quit stop; unknown names report; known names dispatch |
| Terminal.LastNonZeroIsLast | src/terminal.c:56-101 | the result is 0 iff every call returned 0; otherwise it is the latest non-zero result |
| Terminal.ResultsSnoc | src/terminal.c:93-94 | a call returning r changes the result to r iff r is non-zero |
| Terminal.RunLine | src/terminal.c:58-97 | one turn of the loop keeps the run invariant or stops with the final result |
| Terminal.TerminalRun | src/terminal.c:52-102 | returns the latest non-zero handler result of the calls up to exit/quit or end of input, 0 if none |
| Terminal.ExitStops | src/terminal.c:87-89 | lines after an exit/quit make no calls |
| Terminal.LineTextPlain | src/terminal.c:62-68 | a plain line read with its newline gives back its text |
| Terminal.StepOfWords | src/terminal.c:76-97 | space-joined words dispatch their first word with at most 16 arguments |
| OsTyping.Truncate | os_typing.c:28 | `resize(maxLen)` keeps the first `maxLen` characters |
| OsTyping.KeepPrintable | os_typing.c:29 | `remove_if(iscntrl)` leaves no control character and never lengthens |
| OsTyping.SanitizeInput | os_typing.c:26-31 | the result is the first `maxLen` characters with control characters removed in order: at most `maxLen` long, no control character |
| OsTyping.KeepPrintableAppend | os_typing.c:29 | removal works piecewise over concatenation |
| OsTyping.KeepPrintableClean | os_typing.c:29 | removal changes nothing in a text without control characters |
| OsTyping.SanitizedClean | os_typing.c:26-31 | a short clean input is returned unchanged |
| OsTyping.SanitizedIdempotent | os_typing.c:26-31 | sanitising twice equals sanitising once |
| OsTyping.TruncateBeforeRemove | os_typing.c:28-29 | truncation comes first, so a control character in the first `maxLen` makes the result shorter than `maxLen` |
| OsTyping.OsInfo | os_typing.c:37-40 | defaults "Linux" and "5.11.0-27-generic", replaced by the sanitised argv[1] and argv[2] only when present |

## Left out

- `run_cmd` (scripts/c-c++/os_controlsystem.cpp:41-60) is the oracle `run`. This leaves out `popen`, `pclose`, the `WIFEXITED`/`WEXITSTATUS` normalisation and a failed launch.
- `file_exists` and the `ifstream` reads are the `Files` map. A file's content is fixed for the whole run.
- `usage` writes to stderr and is not modelled. `--help` is modelled as printing nothing to stdout and returning 0.
- The checker's stdout is modelled as one string per run (`ControlSystem.Transcript`). Flushing and interleaving with stderr are not modelled.
- ControlSystem.RunLinux: the config file is read when `stat` finds it. A file that exists but cannot be opened leaves the CLI values, as in the source. Its `[config]` line is printed only when it opens.
- Shell quoting: the commands are strings passed to the oracle. The injection risk of interpolating names is not modelled.
- The checker itself (`LoadConfig`, `RunLinux`, `RunSelected`, `ControlMain`) runs the sysctl scan as written. The corrected scan (`ConfigReader.SysctlPairs`) is stated only in the lemmas of the Findings table.
- DBSecurity.QuoteIdentifier follows the pattern as written. `DBSecurity.QuoteIdentifierIntended` is the whitelist version of the Findings table.
- `make_junit`'s XML tree, escaping, timestamp and file writing are not modelled, and neither is the script's `main` (subprocess, argparse, makedirs). Only the counts are modelled.
- The script decodes the checker's output with `errors='replace'`. The model takes the decoded text as given.
- JUnitReport.SysctlOutputReadBack: feeds the checker's strings, one character per byte, straight to `parse_output`. The script first decodes them as UTF-8 (os_controlsystem_to_junit.py:110, :116), which is the identity only on ASCII. So the lemma describes what the script reads only for keys, expected values and answers that are ASCII. A non-ASCII key reads back under its decoded name.
- JUnitReport.SysctlMismatchReadBack: classifies the printed line as one line. A value holding a line break splits it under `splitlines`: expected `2` with sysctl answering `0\n[sysctl:kernel.x] OK` prints a second line, and that later OK line decides the entry. JUnitReport.SysctlOutputReadBack states the whole-text round trip for values without line breaks.
- JUnitReport.SysctlLineReadBack: takes the printed line as one line, as above.
- JUnitReport.SplitLines: only the absence of line breaks in each line is stated, not a join round trip with the separators.
- `setSecurePDOOptions`, `safePrepareExecute`, `sha1` and `error_log` in db_security.php are database and logging I/O and are not modelled.
- `maskSqlForLogging` in db_security.php is not modelled. The pattern at line 70 leaves the class `[^'\]` unclosed, so it does not compile and `preg_replace` returns null. Line 72 has the same defect with `[^"\]`. The function only feeds the error log.
- DBSecurity.ToInt: `filter_var(..., FILTER_VALIDATE_INT, FILTER_NULL_ON_FAILURE)` is abstracted as the given `Filtered(Option<int>)`. PHP's own integer width is not modelled.
- DBSecurity.MaskParamsForLogging: PHP turns numeric string keys into int keys. The model takes each key as PHP already stores it (`StringKey` or `IntKey`).
- `portable_getline` and stdin are not modelled. The input is a sequence of lines, and the end of the sequence is EOF.
- Prompt printing and the `Unknown command` message in `terminal_run` are not modelled.
- Terminal.TerminalRun: a handler is a function of the call number, the command index and argv. Side effects through `ctx` are not modelled.
- `strtok_r` writes NULs into the line buffer. Tokenising is modelled on values, without that in-place update.
- `printTypes`, `printOSInfo` and the lines after `main` in os_typing.c are not modelled. They are output only, and the trailing lines do not compile.
- `scripts/c-c++/os_controller.cpp`, `src/os_manager.c`, `src/os_checking.c`, `src/os_dbcontrol.c`, `index.php`, `roles/assets/script.js` and the Python testinfra scripts are not part of this model.

## Findings

| source | as written | input that shows it | evidently intended | confidence | as-written member | corrected member |
|---|---|---|---|---|---|---|
| scripts/c-c++/os_controlsystem.cpp:99-127 | after `{` the loop looks for the next quote without first checking for `}` | `{"sysctl": {}, "service_name": "sshd"}` reads `service_name` → `sshd` as a sysctl key, so the legacy check is skipped and `sysctl -n service_name` is run | an empty sysctl object gives an empty map | high (not executed) | ControlSystem.SettingsEmptySysctlAsWritten | ConfigReader.SysctlReadsObject |
| db_security.php:22 | `/^[A-Za-z0-9_]{1,64}$/` without the `D` modifier; PCRE's `$` also matches before a final newline | `"a\n"` is accepted, and `quoteIdentifier` returns it between backticks | 1 to 64 characters, letters, digits and underscore only | high (not executed) | DBSecurity.QuoteIdentifierNewline | DBSecurity.QuoteValid |
