/** The screen recorder's build wrapper: set-up before the build step and
    teardown after it. Launching and signalling the capture process, reading
    its streams and archiving happen outside the model; their outcomes are
    inputs (`launchSucceeds`, `TeardownInput`). */
module BuildWrapper {
  import opened Wrappers
  import opened JavaStrings
  import opened Config
  import opened Resolver
  import opened CspPolicy
  import opened Viewer
  import opened Diagnostics
  import opened Finalizer

  /** What set-up leaves for teardown: the command line handed to the
      launcher, the output path, whether the process started, and the
      content-security-policy value afterwards. */
  datatype Recording = Recording(commandLine: string, outFilePath: string, started: bool, csp: string)

  /** The launch exception, rethrown when the job is to fail on errors. */
  datatype SetUpFailure = LaunchFailed

  /** The configured command after the default, `Util.nullify` and macro
      substitution; null when no command is configured anywhere. */
  function SubstitutedCommand(settings: Settings, defaultCommand: Option<string>, substitute: string -> string): (c: Option<string>)
    ensures c.None? <==> IsNullOrEmpty(EffectiveCommand(settings.ffmpegCommand, defaultCommand))
    ensures !IsNullOrEmpty(settings.ffmpegCommand) ==> c == Some(substitute(settings.ffmpegCommand.value))
    ensures IsNullOrEmpty(settings.ffmpegCommand) && !IsNullOrEmpty(defaultCommand) ==>
      c == Some(substitute(defaultCommand.value))
  {
    MapOption(Nullify(EffectiveCommand(settings.ffmpegCommand, defaultCommand)), substitute)
  }

  /** Set-up: resolve the output path, assemble the command line, launch, and
      on a successful launch widen the content-security-policy. */
  function SetUp(
    settings: Settings, defaultCommand: Option<string>, substitute: string -> string,
    buildNumber: nat, launchSucceeds: bool, csp: string): (r: Result<Recording, SetUpFailure>)
    ensures r.Failure? <==> !launchSucceeds && settings.failJobIfFailed
    ensures r.Success? ==> r.value.started == launchSucceeds
    ensures r.Success? && launchSucceeds ==> r.value.csp == WidenCsp(csp)
    ensures r.Success? && !launchSucceeds ==> r.value.csp == csp
    ensures r.Success? ==>
      r.value.outFilePath == ResolveOutPath(MapOption(settings.outVideoFileName, substitute), buildNumber)
    ensures r.Success? ==> !MentionsNull(r.value.outFilePath)
    ensures r.Success? ==>
      var line := r.value.commandLine;
      var path := r.value.outFilePath;
      |line| > |path| && line[|line| - |path| - 1..] == " " + path
    ensures r.Success? && !IsNullOrEmpty(settings.ffmpegCommand) ==>
      r.value.commandLine == substitute(settings.ffmpegCommand.value) + " " + r.value.outFilePath
    ensures r.Success? ==>
      r.value.commandLine == Str(SubstitutedCommand(settings, defaultCommand, substitute)) + " " + r.value.outFilePath
  {
    var command := SubstitutedCommand(settings, defaultCommand, substitute);
    var path := ResolveOutPath(MapOption(settings.outVideoFileName, substitute), buildNumber);
    var line := AssembleCommand(command, path);
    if launchSucceeds then Success(Recording(line, path, true, WidenCsp(csp)))
    else if settings.failJobIfFailed then Failure(LaunchFailed)
    else Success(Recording(line, path, false, csp))
  }

  /** What teardown observes, each at the moment the source looks:
      whether there is a process handle; whether the video exists in the
      workspace when the diagnostic step tests it, before the quit signal;
      the two output streams as that step reads them; whether the process is
      alive at the liveness test, after that step; and, after the quit signal,
      the wait and the archive call, the workspace and the artifact store as
      the length check sees them. */
  datatype TeardownInput = TeardownInput(
    hasProcess: bool,
    videoBeforeQuit: bool,
    stderr: Stream,
    stdout: Stream,
    alive: bool,
    workspace: map<string, nat>,
    archived: map<string, nat>)

  /** What teardown does: its diagnostics, the text written to the process's
      standard input, the workspace afterwards, the viewer page written, the
      manual-run advice logged, and the value returned to the host. */
  datatype TeardownOutcome = TeardownOutcome(
    diagnostics: Diagnostics,
    stdinWritten: Option<string>,
    workspace: map<string, nat>,
    viewer: Option<string>,
    advice: Option<string>,
    result: bool)

  /** The quit key of the capture tool's interactive console. */
  const QuitKey := "q"

  const AdvicePrefix := "ScreenRecorder: video recording failed, try to run '"
  const AdviceSuffix := "' on the command line, in the target system"

  /** The log line naming the command to try by hand. */
  function ManualRunAdvice(command: Option<string>): (line: string)
    ensures |line| == |AdvicePrefix| + |Str(command)| + |AdviceSuffix|
    ensures line[..|AdvicePrefix|] == AdvicePrefix && line[|line| - |AdviceSuffix|..] == AdviceSuffix
    ensures line[|AdvicePrefix|..|AdvicePrefix| + |Str(command)|] == Str(command)
  {
    AdvicePrefix + Str(command) + AdviceSuffix
  }

  /** The process exists and is alive when teardown looks at it. */
  predicate Live(t: TeardownInput) {
    t.hasProcess && t.alive
  }

  /** Teardown: diagnostics first, then, for a live process, the quit signal,
      archiving and the viewer page; otherwise the advice and the policy
      gate. `artifactName` is the substituted `${JOB_NAME}_${BUILD_NUMBER}.mp4`,
      `outFilePath` the path set-up chose, `command` the substituted command
      and `sep` the platform line separator. */
  function Teardown(
    t: TeardownInput, failJobIfFailed: bool, artifactName: string, outFilePath: string,
    command: Option<string>, sep: string): (o: TeardownOutcome)
    requires |sep| > 0
    ensures o.diagnostics == Diagnose(t.hasProcess, t.stderr, t.stdout, t.videoBeforeQuit, sep)
    ensures o.result <==> Live(t) || !failJobIfFailed
    ensures o.stdinWritten.Some? <==> Live(t)
    ensures Live(t) ==> o.stdinWritten == Some(QuitKey + sep)
    ensures Live(t) ==> o.workspace == DeleteIfArchived(t.workspace, t.archived, artifactName)
    ensures !Live(t) ==> o.workspace == t.workspace
    ensures o.viewer.Some? <==> Live(t)
    ensures Live(t) ==> o.viewer == Some(ViewerHtml(FileName(outFilePath), FileName(outFilePath)))
    ensures o.advice.Some? <==> !Live(t)
    ensures !Live(t) ==> o.advice == Some(ManualRunAdvice(command))
  {
    var diagnostics := Diagnose(t.hasProcess, t.stderr, t.stdout, t.videoBeforeQuit, sep);
    if Live(t) then
      var name := FileName(outFilePath);
      TeardownOutcome(
        diagnostics, Some(QuitKey + sep),
        DeleteIfArchived(t.workspace, t.archived, artifactName),
        Some(ViewerHtml(name, name)), None, true)
    else
      TeardownOutcome(diagnostics, None, t.workspace, None, Some(ManualRunAdvice(command)), !failJobIfFailed)
  }

  /** The diagnostic step never consults liveness: the liveness that decides
      the outcome is observed after it, so it does not change the
      diagnostics. */
  lemma DiagnosticsIgnoreLiveness(
    t: TeardownInput, failJobIfFailed: bool, artifactName: string, outFilePath: string,
    command: Option<string>, sep: string)
    requires |sep| > 0
    ensures Teardown(t.(alive := true), failJobIfFailed, artifactName, outFilePath, command, sep).diagnostics
         == Teardown(t.(alive := false), failJobIfFailed, artifactName, outFilePath, command, sep).diagnostics
  {
  }

  /** The value returned to the host depends on liveness and the flag only:
      not on the streams, the workspace or the archive. */
  lemma ResultIgnoresArtifact(
    t: TeardownInput, u: TeardownInput, failJobIfFailed: bool, artifactName: string,
    outFilePath: string, command: Option<string>, sep: string)
    requires |sep| > 0
    requires t.hasProcess == u.hasProcess && t.alive == u.alive
    ensures Teardown(t, failJobIfFailed, artifactName, outFilePath, command, sep).result
         == Teardown(u, failJobIfFailed, artifactName, outFilePath, command, sep).result
  {
  }

  /** The viewer page names the archived video when set-up recorded into
      `<directory>/<artifact name>`, as the default output template does. */
  lemma ViewerNamesArchivedVideo(
    t: TeardownInput, failJobIfFailed: bool, directory: string, artifactName: string,
    command: Option<string>, sep: string)
    requires |sep| > 0
    requires Live(t)
    requires '/' !in artifactName && '<' !in artifactName && artifactName != ""
    ensures
      var o := Teardown(t, failJobIfFailed, artifactName, directory + "/" + artifactName, command, sep);
      o.viewer.Some? && ParseViewer(o.viewer.value) == Some((artifactName, artifactName))
  {
    FileNameOfChild(directory, artifactName);
    ViewerRoundTrip(artifactName, artifactName);
  }

  /** A capture command that fails to launch, with fail-on-error off: set-up
      carries on without a process, and teardown reports success together
      with the command to try by hand. */
  lemma LaunchFailureTolerated(
    settings: Settings, defaultCommand: Option<string>, substitute: string -> string,
    buildNumber: nat, csp: string, t: TeardownInput, artifactName: string, sep: string)
    requires |sep| > 0
    requires !settings.failJobIfFailed
    requires !t.hasProcess
    ensures SetUp(settings, defaultCommand, substitute, buildNumber, false, csp).Success?
    ensures
      var rec := SetUp(settings, defaultCommand, substitute, buildNumber, false, csp).value;
      var command := SubstitutedCommand(settings, defaultCommand, substitute);
      var o := Teardown(t, false, artifactName, rec.outFilePath, command, sep);
      && !rec.started
      && rec.csp == csp
      && o.result
      && o.diagnostics == NotCollected
      && o.advice == Some(ManualRunAdvice(command))
  {
  }

  /** A live recording whose video was in the workspace before the quit
      signal and whose archived copy has the workspace copy's length: no
      diagnostics are collected, the workspace copy is deleted, the viewer is
      written and the job passes. */
  lemma VerifiedArchiveDeletesWorkspaceCopy(
    t: TeardownInput, failJobIfFailed: bool, artifactName: string, outFilePath: string,
    command: Option<string>, sep: string)
    requires |sep| > 0
    requires Live(t) && t.videoBeforeQuit
    requires artifactName in t.workspace && artifactName in t.archived
    requires t.workspace[artifactName] == t.archived[artifactName]
    ensures
      var o := Teardown(t, failJobIfFailed, artifactName, outFilePath, command, sep);
      && artifactName !in o.workspace
      && o.viewer.Some?
      && o.diagnostics == NotCollected
      && o.result
  {
  }

  /** A process that died before teardown, with fail-on-error on: the job
      fails, no quit signal is sent and the workspace is left as it is. */
  lemma DeadProcessFailsJob(
    t: TeardownInput, artifactName: string, outFilePath: string, command: Option<string>, sep: string)
    requires |sep| > 0
    requires t.hasProcess && !t.alive
    requires t.stderr.Readable? && t.stdout.Readable? && !t.videoBeforeQuit
    ensures
      var o := Teardown(t, true, artifactName, outFilePath, command, sep);
      && !o.result
      && o.stdinWritten.None?
      && o.workspace == t.workspace
      && !o.diagnostics.NotCollected?
  {
  }
}
