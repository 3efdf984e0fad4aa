/** What teardown reports when the recording left no video in the workspace:
    the capture process's error text followed by the tail of its standard
    output. `sep` is the platform line separator. */
module Diagnostics {
  import opened Wrappers
  import opened JavaStrings
  import opened JavaSplit

  /** Each line followed by `sep`. */
  function Terminated(lines: seq<string>, sep: string): string {
    if lines == [] then "" else lines[0] + sep + Terminated(lines[1..], sep)
  }

  /** One or two terminated lines, spelled out. */
  lemma TerminatedShort(a: string, b: string, sep: string)
    ensures Terminated([a], sep) == a + sep
    ensures Terminated([a, b], sep) == a + sep + (b + sep)
  {
    assert [a][1..] == [];
    assert [a, b][1..] == [b];
    assert [b][1..] == [];
  }

  function Min(a: int, b: int): int {
    if a <= b then a else b
  }

  /** The exception the tail indexing raises on an empty split. */
  datatype TailFailure = TailIndexOutOfBounds

  /** The error text extended with the last lines of `out`. The second-to-last
      line is added when `out` splits into more than one line and the last
      line whenever `out` is non-empty; indexing the last line of an empty
      split fails. */
  function DiagnosticReport(err: string, out: string, sep: string): (r: Result<string, TailFailure>)
    requires |sep| > 0
    ensures r.Failure? <==> out != "" && |Split(out, sep)| == 0
    ensures r.Success? ==> |err| <= |r.value| && r.value[..|err|] == err
    ensures r.Success? && out == "" ==> r.value == err
    ensures r.Success? ==>
      var lines := Split(out, sep);
      var added := if out == "" then 0 else Min(2, |lines|);
      r.value == err + Terminated(lines[|lines| - added..], sep)
  {
    var arr := Split(out, sep);
    var withPenultimate := if |arr| > 1 then err + arr[|arr| - 2] + sep else err;
    if |out| > 0 then
      if |arr| == 0 then Failure(TailIndexOutOfBounds)
      else
        var last := arr[|arr| - 1];
        TerminatedShort(last, last, sep);
        if |arr| > 1 then
          var penultimate := arr[|arr| - 2];
          TerminatedShort(penultimate, last, sep);
          assert arr[|arr| - 2..] == [penultimate, last];
          Success(withPenultimate + last + sep)
        else
          assert arr[|arr| - 1..] == [last];
          Success(withPenultimate + last + sep)
    else
      Success(withPenultimate)
  }

  /** The tail indexing fails exactly when standard output is one or more
      line separators and nothing else. */
  lemma ReportFailsIffOnlySeparators(err: string, out: string, sep: string)
    requires |sep| > 0
    ensures DiagnosticReport(err, out, sep).Failure? <==> OnlySeparators(out, sep)
  {
    SplitEmptyIff(out, sep);
    if OnlySeparators(out, sep) {
      var k: nat :| 1 <= k && out == Repeat(sep, k);
      assert out[..|sep|] == sep;
    }
  }

  /** A standard stream of the capture process: not captured (a null
      stream), captured but failing when read, or read to the end. */
  datatype Stream = Missing | Unreadable | Readable(text: string)

  /** What teardown's diagnostic step leaves behind: nothing collected, the
      report logged, or an exception caught and only its message logged. */
  datatype Diagnostics = NotCollected | Reported(report: string) | Swallowed

  /** Diagnostics are collected only when there is a process, both streams
      are captured and the video is missing from the workspace. */
  predicate ShouldCollect(hasProcess: bool, stderr: Stream, stdout: Stream, videoInWorkspace: bool) {
    hasProcess && stderr != Missing && stdout != Missing && !videoInWorkspace
  }

  /** The diagnostic step of teardown. It runs before the quit signal is
      sent and never consults whether the process is alive; no failure in it
      escapes. */
  function Diagnose(hasProcess: bool, stderr: Stream, stdout: Stream, videoInWorkspace: bool, sep: string): (d: Diagnostics)
    requires |sep| > 0
    ensures d.NotCollected? <==> !ShouldCollect(hasProcess, stderr, stdout, videoInWorkspace)
    ensures d.Swallowed? <==>
      ShouldCollect(hasProcess, stderr, stdout, videoInWorkspace)
      && (stderr.Unreadable? || stdout.Unreadable? || OnlySeparators(stdout.text, sep))
    ensures d.Reported? ==> stderr.Readable? && stdout.Readable?
    ensures d.Reported? ==> |stderr.text| <= |d.report| && d.report[..|stderr.text|] == stderr.text
    ensures d.Reported? ==> DiagnosticReport(stderr.text, stdout.text, sep) == Success(d.report)
  {
    if !ShouldCollect(hasProcess, stderr, stdout, videoInWorkspace) then NotCollected
    else if stderr.Unreadable? || stdout.Unreadable? then Swallowed
    else
      ReportFailsIffOnlySeparators(stderr.text, stdout.text, sep);
      match DiagnosticReport(stderr.text, stdout.text, sep)
      case Success(report) => Reported(report)
      case Failure(_) => Swallowed
  }
}
