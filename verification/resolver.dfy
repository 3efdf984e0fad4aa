/** Output-path fallback and command-line assembly done when the build is set
    up. Macro substitution is a parameter: `substitute` is what the host's
    environment resolution does to a non-null String. */
module Resolver {
  import opened Wrappers
  import opened JavaStrings

  /** The unresolved-placeholder marker, in any letter case. */
  ghost predicate MentionsNull(path: string) {
    OccursIn(ToLower(path), "null")
  }

  /** The fallback path `<build number>.mp4` never carries the marker: none of
      its characters lower-cases to 'n'. */
  lemma FallbackNeverMentionsNull(buildNumber: nat)
    ensures !MentionsNull(Decimal(buildNumber) + ".mp4")
  {
    var digits := Decimal(buildNumber);
    var s := digits + ".mp4";
    var low := ToLower(s);
    forall i | 0 <= i < |low| ensures low[i] != 'n' {
      if i < |digits| {
        assert s[i] == digits[i];
      } else {
        assert s[i] == ".mp4"[i - |digits|];
      }
    }
    forall i | 0 <= i && i + 4 <= |low| ensures !OccursAt(low, "null", i) {
      assert low[i..i + 4][0] == low[i];
    }
  }

  /** The output path the recorder writes to: `resolved` is the substituted
      output-path template (null when the template was null). */
  function ResolveOutPath(resolved: Option<string>, buildNumber: nat): (path: string)
    ensures resolved.None? || MentionsNull(resolved.value) ==> path == Decimal(buildNumber) + ".mp4"
    ensures resolved.Some? && !MentionsNull(resolved.value) ==> path == resolved.value
    ensures !MentionsNull(path)
  {
    if resolved.None? || Contains(ToLower(resolved.value), "null") then
      FallbackNeverMentionsNull(buildNumber);
      Decimal(buildNumber) + ".mp4"
    else
      resolved.value
  }

  /** Resolving a resolved path again keeps it. */
  lemma ResolveOutPathIdempotent(resolved: Option<string>, buildNumber: nat)
    ensures ResolveOutPath(Some(ResolveOutPath(resolved, buildNumber)), buildNumber)
         == ResolveOutPath(resolved, buildNumber)
  {
  }

  /** The command line handed to the tokenizer: the substituted command (a
      null one reads "null"), one space, then the output path. */
  function AssembleCommand(command: Option<string>, path: string): (line: string)
    ensures |line| == |Str(command)| + 1 + |path|
    ensures line[..|Str(command)|] == Str(command)
    ensures line[|Str(command)|] == ' '
    ensures line[|line| - |path|..] == path
    ensures line[|line| - |path| - 1..] == " " + path
  {
    var line := Str(command) + " " + path;
    assert line[|line| - |path| - 1..] == " " + path;
    line
  }

  /** A path without spaces is the last space-separated word of the command
      line, whatever the command was. */
  lemma AssembledPathIsLastWord(command: Option<string>, path: string)
    requires ' ' !in path
    ensures AfterLast(AssembleCommand(command, path), ' ') == path
  {
    assert AssembleCommand(command, path) == Str(command) + [' '] + path;
    AfterLastAppend(Str(command), ' ', path);
  }
}
