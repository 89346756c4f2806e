/**
 * The input hygiene of os_typing.c: sanitizeInput, which truncates a
 * string to a maximum length and then removes every control character,
 * and main's choice of the operating system name and version it prints.
 */
module OsTyping {

  /** std::iscntrl in the C locale: the codes 0-31 and 127. */
  predicate IsCntrl(c: char) {
    c < ' ' || c == '\U{7F}'
  }

  /** std::string::resize(maxLen) when the string is longer, nothing otherwise. */
  function Truncate(s: string, maxLen: nat): (r: string)
    ensures |r| <= maxLen && |r| <= |s|
    ensures r == s[..|r|]
    ensures |s| <= maxLen ==> r == s
  {
    if |s| > maxLen then s[..maxLen] else s
  }

  /** The characters of `s` that are not control characters, in their order. */
  function KeepPrintable(s: string): (r: string)
    ensures |r| <= |s|
    ensures forall i :: 0 <= i < |r| ==> !IsCntrl(r[i])
    decreases |s|
  {
    if s == [] then []
    else KeepPrintable(s[..|s| - 1]) + (if IsCntrl(s[|s| - 1]) then [] else [s[|s| - 1]])
  }

  /** What sanitizeInput returns: truncation first, then removal. */
  function Sanitized(s: string, maxLen: nat): string {
    KeepPrintable(Truncate(s, maxLen))
  }

  /** The default of sanitizeInput's second parameter. */
  const DefaultMaxLen: nat := 128

  /**
   * sanitizeInput: copy `s`, cut it to `maxLen`, then compact the kept
   * characters to the front in place (std::remove_if) and erase the tail.
   */
  method SanitizeInput(s: string, maxLen: nat) returns (out: string)
    ensures out == Sanitized(s, maxLen)
    ensures |out| <= maxLen
    ensures forall i :: 0 <= i < |out| ==> !IsCntrl(out[i])
  {
    var t := Truncate(s, maxLen);
    var buf := new char[|t|](i requires 0 <= i < |t| => t[i]);
    var w := 0;
    var r := 0;
    while r < buf.Length
      invariant 0 <= w <= r <= buf.Length
      invariant buf[..w] == KeepPrintable(t[..r])
      invariant buf[r..] == t[r..]
    {
      var c := buf[r];
      assert c == t[r];
      KeepPrintableStep(t, r);
      ghost var kept := buf[..w];
      if !IsCntrl(c) {
        buf[w] := c;
        assert buf[..w + 1] == kept + [c];
        w := w + 1;
      }
      assert buf[r + 1..] == t[r + 1..];
      r := r + 1;
    }
    assert t[..r] == t;
    out := buf[..w];
  }

  /** Reading one more character keeps it exactly when it is not a control character. */
  lemma KeepPrintableStep(t: string, r: nat)
    requires r < |t|
    ensures KeepPrintable(t[..r + 1]) == KeepPrintable(t[..r]) + if IsCntrl(t[r]) then [] else [t[r]]
  {
    assert t[..r + 1][..r] == t[..r];
  }

  /** Removal distributes over concatenation. */
  lemma {:induction false} KeepPrintableAppend(a: string, b: string)
    ensures KeepPrintable(a + b) == KeepPrintable(a) + KeepPrintable(b)
    decreases |b|
  {
    if b != [] {
      var b' := b[..|b| - 1];
      assert (a + b)[..|a + b| - 1] == a + b';
      KeepPrintableAppend(a, b');
    } else {
      assert a + b == a;
    }
  }

  /** A string without control characters is kept whole. */
  lemma {:induction false} KeepPrintableClean(s: string)
    requires forall i :: 0 <= i < |s| ==> !IsCntrl(s[i])
    ensures KeepPrintable(s) == s
    decreases |s|
  {
    if s != [] {
      KeepPrintableClean(s[..|s| - 1]);
    }
  }

  /** Short input without control characters comes back unchanged. */
  lemma SanitizedClean(s: string, maxLen: nat)
    requires |s| <= maxLen
    requires forall i :: 0 <= i < |s| ==> !IsCntrl(s[i])
    ensures Sanitized(s, maxLen) == s
  {
    KeepPrintableClean(s);
  }

  /** Sanitising twice is sanitising once. */
  lemma SanitizedIdempotent(s: string, maxLen: nat)
    ensures Sanitized(Sanitized(s, maxLen), maxLen) == Sanitized(s, maxLen)
  {
    var r := Sanitized(s, maxLen);
    SanitizedClean(r, maxLen);
  }

  /**
   * Truncation comes first: a control character among the first `maxLen`
   * characters leaves the result shorter than `maxLen`, however many
   * printable characters follow.
   */
  lemma TruncateBeforeRemove(s: string, maxLen: nat, i: nat)
    requires i < maxLen < |s| && IsCntrl(s[i])
    ensures |Sanitized(s, maxLen)| < maxLen
  {
    var t := s[..maxLen];
    assert t == t[..i] + [s[i]] + t[i + 1..];
    KeepPrintableAppend(t[..i] + [s[i]], t[i + 1..]);
    KeepPrintableAppend(t[..i], [s[i]]);
    assert KeepPrintable([s[i]]) == [];
  }

  /**
   * main's osName and osVersion: "Linux" and "5.11.0-27-generic" unless
   * argv[1] and argv[2] are given, which are sanitised with the default
   * length. `args` is argv, the program name first.
   */
  method OsInfo(args: seq<string>) returns (osName: string, osVersion: string)
    ensures osName == if |args| >= 2 then Sanitized(args[1], DefaultMaxLen) else "Linux"
    ensures osVersion == if |args| >= 3 then Sanitized(args[2], DefaultMaxLen) else "5.11.0-27-generic"
    ensures |osName| <= DefaultMaxLen && |osVersion| <= DefaultMaxLen
    ensures forall i :: 0 <= i < |osName| ==> !IsCntrl(osName[i])
    ensures forall i :: 0 <= i < |osVersion| ==> !IsCntrl(osVersion[i])
  {
    osName := "Linux";
    osVersion := "5.11.0-27-generic";
    if |args| >= 2 {
      osName := SanitizeInput(args[1], DefaultMaxLen);
    }
    if |args| >= 3 {
      osVersion := SanitizeInput(args[2], DefaultMaxLen);
    }
  }
}
