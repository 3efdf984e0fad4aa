/** The per-job and global settings of the screen recorder and the rules that
    turn the configured values into the ones the recorder uses. A Java
    reference that may be null is an `Option`. */
module Config {
  import opened Wrappers

  /** The global default capture command shipped with the descriptor. */
  const FactoryDefaultCommand := "ffmpeg -video_size 1920x1080 -framerate 25 -f x11grab -i :0.0"

  /** The initial output-path template, before macro substitution. */
  const DefaultOutVideoFileName := "${WORKSPACE}/${JOB_NAME}_${BUILD_NUMBER}.mp4"

  /** Per-job settings: the configured capture command, the fail-on-error
      flag and the output-path template. */
  datatype Settings = Settings(
    ffmpegCommand: Option<string>,
    failJobIfFailed: bool,
    outVideoFileName: Option<string>)

  /** The value `setFailJobIfFailed` stores: a null request means true. */
  function StoredFailFlag(requested: Option<bool>): (stored: bool)
    ensures requested.None? ==> stored
    ensures requested.Some? ==> stored == requested.value
  {
    match requested
    case None => true
    case Some(b) => b
  }

  /** Storing the value read back from the getter changes nothing. */
  lemma StoredFailFlagStable(requested: Option<bool>)
    ensures StoredFailFlag(Some(StoredFailFlag(requested))) == StoredFailFlag(requested)
  {
  }

  /** The settings the data-bound constructor creates. */
  function Configure(ffmpegCommand: Option<string>, failJobIfFailed: Option<bool>): (s: Settings)
    ensures s.ffmpegCommand == ffmpegCommand
    ensures s.failJobIfFailed == StoredFailFlag(failJobIfFailed)
    ensures s.outVideoFileName == Some(DefaultOutVideoFileName)
  {
    Settings(ffmpegCommand, StoredFailFlag(failJobIfFailed), Some(DefaultOutVideoFileName))
  }

  /** A null or empty String. */
  predicate IsNullOrEmpty(s: Option<string>) {
    s.None? || s.value == ""
  }

  /** `getFfmpegCommand`: the configured command, or the descriptor's default
      when the configured one is null or empty. */
  function EffectiveCommand(configured: Option<string>, defaultCommand: Option<string>): (r: Option<string>)
    ensures IsNullOrEmpty(configured) ==> r == defaultCommand
    ensures !IsNullOrEmpty(configured) ==> r == configured
    ensures !IsNullOrEmpty(defaultCommand) ==> !IsNullOrEmpty(r)
  {
    if IsNullOrEmpty(configured) then defaultCommand else configured
  }

  /** Configuring the effective command as the job's command changes nothing. */
  lemma EffectiveCommandStable(configured: Option<string>, defaultCommand: Option<string>)
    ensures EffectiveCommand(EffectiveCommand(configured, defaultCommand), defaultCommand)
         == EffectiveCommand(configured, defaultCommand)
  {
  }

  /** `Util.nullify`: an empty String becomes null. */
  function Nullify(s: Option<string>): (r: Option<string>)
    ensures r.Some? ==> r.value != ""
    ensures IsNullOrEmpty(s) ==> r.None?
    ensures !IsNullOrEmpty(s) ==> r == s
  {
    if IsNullOrEmpty(s) then None else s
  }

  /** With the shipped default, the command handed to macro substitution is
      never null. */
  lemma FactoryDefaultNeverNull(configured: Option<string>)
    ensures Nullify(EffectiveCommand(configured, Some(FactoryDefaultCommand))).Some?
  {
  }
}
