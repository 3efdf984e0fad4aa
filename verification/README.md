# Screen recorder build wrapper — a Dafny model

The screen recorder is a Jenkins build wrapper. Before a build step runs, it
starts an `ffmpeg` screen capture. After the step, it stops the capture,
archives the video and writes a small HTML page that plays it. This project
models the wrapper's decision and string rules as pure Dafny functions and
proves what they guarantee:

- **Configuration.** A null fail-on-error flag is stored as true. A null or
  empty capture command falls back to the descriptor's default.
- **Command resolution.** An output path that is null, or that mentions
  "null" in any letter case, becomes `<build number>.mp4`. The path is
  appended to the command after one space.
- **Content-security-policy widening.** A check-then-append adds
  `;media-src 'self';` to the host's directory-browser policy.
- **Viewer page.** A fixed HTML template gets the video name inserted as its
  title and its `src`.
- **Diagnostics.** When the video is missing, the error text is logged
  together with the last lines of standard output. This follows Java's
  `String.split` exactly, including the failure on output that is only line
  separators. That failure is caught and swallowed.
- **Teardown.** A live process gets the quit key, then is archived. The
  workspace copy is deleted only when its archived length matches. A dead or
  missing process gets the manual-run advice, and the fail-on-error flag
  decides the result.

Modules:

- `Wrappers`: `Option`, which also stands for a nullable Java reference, and `Result`.
- `JavaStrings`: `indexOf`/`contains`, ASCII `toLowerCase`, `Integer.toString`, `File.getName`, and Java's `null` string conversion.
- `JavaSplit`: `String.split` with a literal separator.
- `Config`: the settings and the rules for their defaults.
- `Resolver`: the output-path fallback and command assembly.
- `CspPolicy`: the policy widening.
- `Viewer`: the HTML template and its parser.
- `Diagnostics`: the stdout tail and the drain step.
- `Finalizer`: delete-on-equal-length.
- `BuildWrapper`: set-up, teardown and the scenarios.

In these places the code behaves differently from what one might expect,
and the model follows the code:

- The last standard-output line is appended whenever standard output is
  non-empty, not only when it has more than one line.
- Teardown succeeds whenever the process is alive. It archives without
  checking that the video exists.
- An empty output path is kept. Only a null path, or one containing "null",
  falls back to `<build number>.mp4`.
- Diagnostics are read before the quit signal is sent. The video's presence is
  tested then, and the length check runs on the workspace as it is after the
  quit signal and the archive call; the model keeps these two observations
  apart.

## Model

| member | source | states |
|---|---|---|
| `Config.StoredFailFlag` | src/main/java/org/jenkinsci/plugins/screenrecorder/ScreenRecorderBuildWrapper.java:94-100 | a null request stores true; any other value is stored unchanged |
| `Config.StoredFailFlagStable` | src/main/java/org/jenkinsci/plugins/screenrecorder/ScreenRecorderBuildWrapper.java:78-100 | storing the flag read back from the getter leaves it unchanged |
| `Config.Configure` | src/main/java/org/jenkinsci/plugins/screenrecorder/ScreenRecorderBuildWrapper.java:62-76 | the constructor keeps the command, stores the flag by the setter's rule, and starts from the default output template |
| `Config.EffectiveCommand` | src/main/java/org/jenkinsci/plugins/screenrecorder/ScreenRecorderBuildWrapper.java:264-272 | a null or empty configured command yields the descriptor default; any other yields the configured command unchanged; a non-empty default makes the result non-empty |
| `Config.EffectiveCommandStable` | src/main/java/org/jenkinsci/plugins/screenrecorder/ScreenRecorderBuildWrapper.java:264-272 | configuring the effective command as the job's command changes nothing |
| `Config.Nullify` | src/main/java/org/jenkinsci/plugins/screenrecorder/ScreenRecorderBuildWrapper.java:111 | a null or empty String becomes null, a non-empty String passes through unchanged, and a non-null result is never empty |
| `Config.FactoryDefaultNeverNull` | src/main/java/org/jenkinsci/plugins/screenrecorder/ScreenRecorderBuildWrapper.java:282 | with the shipped default command, the command given to macro substitution is never null |
| `JavaStrings.IndexOf` | src/main/java/org/jenkinsci/plugins/screenrecorder/ScreenRecorderBuildWrapper.java:138 | the result is the leftmost occurrence; it is absent exactly when the substring occurs nowhere |
| `JavaStrings.Contains` | src/main/java/org/jenkinsci/plugins/screenrecorder/ScreenRecorderBuildWrapper.java:123 | true exactly when the substring occurs somewhere |
| `JavaStrings.Decimal` | src/main/java/org/jenkinsci/plugins/screenrecorder/ScreenRecorderBuildWrapper.java:125 | the build number is rendered as a non-empty string of digits with no leading zero |
| `JavaStrings.DecimalRoundTrip` | src/main/java/org/jenkinsci/plugins/screenrecorder/ScreenRecorderBuildWrapper.java:125 | reading the rendered build number back gives the number |
| `JavaStrings.DecimalInjective` | src/main/java/org/jenkinsci/plugins/screenrecorder/ScreenRecorderBuildWrapper.java:125 | different build numbers give different fallback names |
| `JavaStrings.FileName` | src/main/java/org/jenkinsci/plugins/screenrecorder/ScreenRecorderBuildWrapper.java:223 | the name is the part of the path after the last slash, once trailing slashes are dropped: it contains no slash and is either that whole path or preceded in it by a slash; a path without a slash is its own name |
| `JavaStrings.FileNameOfChild` | src/main/java/org/jenkinsci/plugins/screenrecorder/ScreenRecorderBuildWrapper.java:223 | the name of `dir/name` is `name` |
| `JavaStrings.AfterLastAppend` | src/main/java/org/jenkinsci/plugins/screenrecorder/ScreenRecorderBuildWrapper.java:223 | whatever precedes the last separator, the part after it is recovered |
| `JavaSplit.SplitAll` | src/main/java/org/jenkinsci/plugins/screenrecorder/ScreenRecorderBuildWrapper.java:181 | the result has at least one piece, and no piece contains the separator |
| `JavaSplit.JoinSplitAll` | src/main/java/org/jenkinsci/plugins/screenrecorder/ScreenRecorderBuildWrapper.java:181 | joining the pieces with the separator gives the split string back |
| `JavaSplit.Split` | src/main/java/org/jenkinsci/plugins/screenrecorder/ScreenRecorderBuildWrapper.java:181 | `""` splits to `[""]`; otherwise the result is all pieces with the trailing empty ones dropped, and the last element is non-empty |
| `JavaSplit.SplitEmptyIff` | src/main/java/org/jenkinsci/plugins/screenrecorder/ScreenRecorderBuildWrapper.java:181-188 | the split has no element at all exactly when the output is one or more separators and nothing else |
| `JavaSplit.SplitAllRepeat` | src/main/java/org/jenkinsci/plugins/screenrecorder/ScreenRecorderBuildWrapper.java:181 | a run of k separators cuts into k + 1 empty pieces |
| `JavaSplit.JoinAllEmpty` | src/main/java/org/jenkinsci/plugins/screenrecorder/ScreenRecorderBuildWrapper.java:181 | joining n empty pieces gives n - 1 separators |
| `Resolver.FallbackNeverMentionsNull` | src/main/java/org/jenkinsci/plugins/screenrecorder/ScreenRecorderBuildWrapper.java:123-127 | the fallback `<build number>.mp4` never mentions "null" in any case |
| `Resolver.ResolveOutPath` | src/main/java/org/jenkinsci/plugins/screenrecorder/ScreenRecorderBuildWrapper.java:123-127 | a null path, or one mentioning "null" in any case, becomes `<build number>.mp4`; any other path is kept; the result never mentions "null" |
| `Resolver.ResolveOutPathIdempotent` | src/main/java/org/jenkinsci/plugins/screenrecorder/ScreenRecorderBuildWrapper.java:123-127 | resolving a resolved path again keeps it |
| `Resolver.AssembleCommand` | src/main/java/org/jenkinsci/plugins/screenrecorder/ScreenRecorderBuildWrapper.java:130 | the command line starts with the command (a null one reads "null"), then one space, then ends with the path |
| `Resolver.AssembledPathIsLastWord` | src/main/java/org/jenkinsci/plugins/screenrecorder/ScreenRecorderBuildWrapper.java:130-133 | a path without spaces is the last space-separated word of the command line |
| `CspPolicy.WidenCsp` | src/main/java/org/jenkinsci/plugins/screenrecorder/ScreenRecorderBuildWrapper.java:137-144 | the result mentions media-src and extends the old policy; an old policy with media-src is kept, any other gets `;media-src 'self';` appended |
| `CspPolicy.WidenCspIdempotent` | src/main/java/org/jenkinsci/plugins/screenrecorder/ScreenRecorderBuildWrapper.java:137-144 | widening twice is widening once |
| `Viewer.Fill` | src/main/java/org/jenkinsci/plugins/screenrecorder/ScreenRecorderBuildWrapper.java:252-257 | the template's fixed parts, the title and the src sit at their fixed offsets |
| `Viewer.Unfill` | src/main/java/org/jenkinsci/plugins/screenrecorder/ScreenRecorderBuildWrapper.java:252-257 | a recovered title and src rebuild exactly the given document |
| `Viewer.UnfillFill` | src/main/java/org/jenkinsci/plugins/screenrecorder/ScreenRecorderBuildWrapper.java:252-257 | a title that cannot start the middle part is recovered with the src |
| `Viewer.ViewerHtml` | src/main/java/org/jenkinsci/plugins/screenrecorder/ScreenRecorderBuildWrapper.java:250-257 | the page has the fixed head, the title verbatim, the fixed middle, the src verbatim and the fixed tail, and it declares `default-src 'self'; script-src 'self'` |
| `Viewer.ParseViewer` | src/main/java/org/jenkinsci/plugins/screenrecorder/ScreenRecorderBuildWrapper.java:250-257 | a parsed page is exactly the page built from the recovered title and src |
| `Viewer.ViewerRoundTrip` | src/main/java/org/jenkinsci/plugins/screenrecorder/ScreenRecorderBuildWrapper.java:250-257 | a title without '<' and any src are recovered from the page |
| `Diagnostics.DiagnosticReport` | src/main/java/org/jenkinsci/plugins/screenrecorder/ScreenRecorderBuildWrapper.java:181-189 | the error text is a prefix of the report; empty stdout adds nothing; otherwise the last min(2, lines) lines are added, each ending in the separator; indexing fails exactly on a non-empty stdout with an empty split |
| `Diagnostics.ReportFailsIffOnlySeparators` | src/main/java/org/jenkinsci/plugins/screenrecorder/ScreenRecorderBuildWrapper.java:181-189 | the tail indexing fails exactly when stdout is one or more separators and nothing else |
| `Diagnostics.Diagnose` | src/main/java/org/jenkinsci/plugins/screenrecorder/ScreenRecorderBuildWrapper.java:171-196 | collected only with a process, both streams captured and no video in the workspace; a read failure or a separators-only stdout is swallowed; a report starts with the error text and is exactly the successful tail report of the two streams |
| `Finalizer.DeleteIfArchived` | src/main/java/org/jenkinsci/plugins/screenrecorder/ScreenRecorderBuildWrapper.java:214-218 | the video is gone exactly when the lengths are equal; unequal lengths leave the workspace unchanged; no other file changes |
| `Finalizer.DeleteIfArchivedIdempotent` | src/main/java/org/jenkinsci/plugins/screenrecorder/ScreenRecorderBuildWrapper.java:215-217 | running the check again deletes nothing more |
| `BuildWrapper.SubstitutedCommand` | src/main/java/org/jenkinsci/plugins/screenrecorder/ScreenRecorderBuildWrapper.java:111-112 | null exactly when the effective command is null or empty; a non-empty configured command is substituted as is; otherwise a non-empty default is substituted |
| `BuildWrapper.SetUp` | src/main/java/org/jenkinsci/plugins/screenrecorder/ScreenRecorderBuildWrapper.java:104-155 | fails exactly when the launch fails and fail-on-error is set; the policy is widened only after a successful launch; the command line is the substituted command (a null one reads "null"), a space and the resolved path, which never mentions "null" |
| `BuildWrapper.ManualRunAdvice` | src/main/java/org/jenkinsci/plugins/screenrecorder/ScreenRecorderBuildWrapper.java:231-233 | the advice is the fixed prefix, the substituted command (a null one reads "null") and the fixed suffix |
| `BuildWrapper.Teardown` | src/main/java/org/jenkinsci/plugins/screenrecorder/ScreenRecorderBuildWrapper.java:164-246 | the result is true when the process exists and is alive, else the negated flag; only a live process gets `q` + separator, the archive check and the viewer; only a dead or missing one gets the advice and keeps the workspace |
| `BuildWrapper.DiagnosticsIgnoreLiveness` | src/main/java/org/jenkinsci/plugins/screenrecorder/ScreenRecorderBuildWrapper.java:171-204 | the diagnostic step never consults liveness; liveness, tested after it, decides only the branch that follows |
| `BuildWrapper.ResultIgnoresArtifact` | src/main/java/org/jenkinsci/plugins/screenrecorder/ScreenRecorderBuildWrapper.java:204-245 | the returned value does not depend on the streams, the workspace or the archive |
| `BuildWrapper.ViewerNamesArchivedVideo` | src/main/java/org/jenkinsci/plugins/screenrecorder/ScreenRecorderBuildWrapper.java:212-223 | when recording into `<dir>/<artifact name>`, the viewer's title and src are the archived artifact's name |
| `BuildWrapper.LaunchFailureTolerated` | src/main/java/org/jenkinsci/plugins/screenrecorder/ScreenRecorderBuildWrapper.java:148-155 | with fail-on-error off, a failed launch still sets up, leaves the policy alone, and teardown passes with the advice |
| `BuildWrapper.VerifiedArchiveDeletesWorkspaceCopy` | src/main/java/org/jenkinsci/plugins/screenrecorder/ScreenRecorderBuildWrapper.java:204-227 | a live recording whose video was present before the quit signal, with equal archived and workspace lengths afterwards, collects no diagnostics, loses its workspace copy, gets a viewer and passes |
| `BuildWrapper.DeadProcessFailsJob` | src/main/java/org/jenkinsci/plugins/screenrecorder/ScreenRecorderBuildWrapper.java:229-239 | a dead process with fail-on-error on fails the job, sends no quit signal and leaves the workspace as it was |

## Left out

- Process launching, `Proc` liveness, the write of the quit line, and reading the streams are process I/O. Their outcomes are inputs: `launchSucceeds`, and the `hasProcess`, `videoBeforeQuit`, `stderr`, `stdout`, `alive` and `workspace` fields of `TeardownInput`, each as observed at the point where the source looks.
- Reading a stream to its end blocks while the capture process keeps it open, so diagnostics collected from a live process stall teardown until the process closes its streams. The model treats each read as returning a value, and `alive` is the liveness observed after the reads; the stall itself is not modelled.
- The fixed sleeps before launch and after the quit signal are timing only.
- The artifact manager's archive call is a host service. The artifact store as the archive leaves it is an input map.
- Exceptions that the archive, length, delete or page-writing calls throw are not modelled. They propagate out of teardown.
- An exception from the workspace existence check is not modelled. The source catches and logs it like a read failure.
- Descriptor lookup, `configure`/`save` persistence, console logging and the build-log hyperlink are host services. The hyperlink's timestamp label uses the clock.
- `Util.replaceMacro` is the parameter `substitute`, applied only to non-null Strings.
- `QuotedStringTokenizer` is not modelled. The command line is the string handed to it.
- The process-wide policy property is global mutable state. Its value is an input and an output of `SetUp`.
- Writing the HTML file is I/O. Only the page text is modelled.
- The streams are closed in a `finally` block: the first reader is closed twice and the second is never closed. This is resource handling and is not modelled.
- The process handle is an instance field that a failed launch does not reset. A later build could see an earlier build's process. Teardown's `hasProcess` is an input, so either case can be expressed.
- Build numbers are Java `int`s. They are modelled as `nat`, because they are never negative.
- Resolver.ResolveOutPath: the case-insensitive "null" test lower-cases ASCII letters only. Non-ASCII and locale-specific case mappings are not modelled.
- JavaSplit.Split: the separator is a literal string. This holds for the platform line separators, which contain no regular-expression metacharacters. General regular expressions are not modelled.
- JavaStrings.FileName: models `File.getName` for Unix paths only, with trailing slashes dropped. Windows path prefixes and separators are not modelled.
