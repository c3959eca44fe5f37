// The command line spawn_worker hands to CreateProcessA: the quoted path of
// the running executable followed by the worker role token, formatted by
// snprintf into a 512-byte buffer.

module Spawn {

  /** sizeof(cmdLine) in spawn_worker. */
  const CmdLineSize: nat := 512
  /** MAX_PATH: GetModuleFileNameA stores at most MAX_PATH - 1 characters. */
  const MaxPath: nat := 260
  /** The argument that selects the worker role in main. */
  const WorkerToken: string := "worker"

  datatype Option<T> = None | Some(value: T)

  /** The text `"\"%s\" worker"` expands to before any truncation. */
  function Expanded(exePath: string): (full: string)
    ensures |full| == |exePath| + 9
  {
    "\"" + exePath + "\" " + WorkerToken
  }

  /**
   * snprintf(cmdLine, sizeof(cmdLine), "\"%s\" worker", exePath): the expansion cut to
   * what fits before the terminating NUL.
   */
  function CommandLine(exePath: string): (r: string)
    ensures |r| < CmdLineSize
    ensures |r| == if |Expanded(exePath)| < CmdLineSize then |Expanded(exePath)| else CmdLineSize - 1
    ensures r == Expanded(exePath)[..|r|]
  {
    var full := Expanded(exePath);
    if |full| < CmdLineSize then full else full[..CmdLineSize - 1]
  }

  /** Index of the first '"' in s at or after `from`, or |s| if there is none. */
  function QuoteFrom(s: string, from: nat): (j: nat)
    requires from <= |s|
    ensures from <= j <= |s|
    ensures j < |s| ==> s[j] == '"'
    ensures forall k :: from <= k < j ==> s[k] != '"'
    decreases |s| - from
  {
    if from == |s| then |s| else if s[from] == '"' then from else QuoteFrom(s, from + 1)
  }

  /**
   * How the child reads this command line back: a quoted program path, one space,
   * then the role argument. None when the line does not have that shape.
   */
  function SplitCommandLine(cmd: string): (parts: Option<(string, string)>)
    ensures parts.Some? ==> NoQuote(parts.value.0) && |parts.value.0| + |parts.value.1| + 3 <= |cmd|
  {
    if |cmd| == 0 || cmd[0] != '"' then None
    else
      var close := QuoteFrom(cmd, 1);
      if close + 1 < |cmd| && cmd[close + 1] == ' '
      then Some((cmd[1..close], cmd[close + 2..]))
      else None
  }

  predicate NoQuote(s: string)
  {
    forall k :: 0 <= k < |s| ==> s[k] != '"'
  }

  /** A path from GetModuleFileNameA always fits: the command line is never truncated. */
  lemma NoTruncation(exePath: string)
    requires |exePath| < MaxPath
    ensures CommandLine(exePath) == "\"" + exePath + "\" worker"
  {
  }

  /**
   * snprintf truncates exactly when the path has 503 characters or more: the expansion
   * adds 9 characters to the path and the buffer keeps 511.
   */
  lemma TruncationThreshold(exePath: string)
    ensures |Expanded(exePath)| == |exePath| + 9
    ensures CommandLine(exePath) == Expanded(exePath) <==> |exePath| < CmdLineSize - 9
  {
    if |exePath| >= CmdLineSize - 9 {
      assert |CommandLine(exePath)| < |Expanded(exePath)|;
    }
  }

  /**
   * From 510 characters on, the cut reaches into the path itself: the closing quote,
   * the space and the role token are all lost (from 503 to 509 only part of the
   * token or separator is cut).
   */
  lemma LongPathTruncated(exePath: string)
    requires |exePath| >= CmdLineSize - 2
    ensures |CommandLine(exePath)| == CmdLineSize - 1
    ensures CommandLine(exePath) == "\"" + exePath[..CmdLineSize - 2]
    ensures SplitCommandLine(CommandLine(exePath)) != Some((exePath, WorkerToken))
  {
    var full := Expanded(exePath);
    assert full[..CmdLineSize - 1] == "\"" + exePath[..CmdLineSize - 2];
    var r := CommandLine(exePath);
    var split := SplitCommandLine(r);
    assert split.Some? ==> |split.value.0| < CmdLineSize - 2;
  }

  /** The child recovers the executable path and the worker token from the command line. */
  lemma CommandLineRoundTrip(exePath: string)
    requires |exePath| < MaxPath && NoQuote(exePath)
    ensures SplitCommandLine(CommandLine(exePath)) == Some((exePath, WorkerToken))
  {
    var cmd := CommandLine(exePath);
    NoTruncation(exePath);
    var close := |exePath| + 1;
    assert cmd[close] == '"';
    assert forall k :: 1 <= k < close ==> cmd[k] == exePath[k - 1];
    assert QuoteFrom(cmd, 1) == close by {
      QuoteFromFirst(cmd, 1, close);
    }
    assert cmd[1..close] == exePath;
    assert cmd[close + 2..] == WorkerToken;
  }

  lemma {:induction false} QuoteFromFirst(s: string, from: nat, j: nat)
    requires from <= j < |s| && s[j] == '"'
    requires forall k :: from <= k < j ==> s[k] != '"'
    ensures QuoteFrom(s, from) == j
    decreases j - from
  {
    if from < j {
      QuoteFromFirst(s, from + 1, j);
    }
  }
}
