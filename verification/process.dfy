/**
 * One external conversion command and its lifecycle: the `ConversionProcess`
 * flags (started, finished, paused), the command line built by placeholder
 * substitution, and the return code derived from the exit status.
 */
module Process {
  import opened Wrappers
  import opened PyString

  /** The values of `sys.platform` the code distinguishes. */
  datatype Platform = Win32 | Cygwin | OtherPlatform

  /** The options of the `command` configuration section. */
  datatype CommandConfig = CommandConfig(
    convertorExeWin: string,
    convertorExeUnix: string,
    inputFileAlias: string,
    outputFileAlias: string,
    convertorArgs: string,
    subtitleFileAlias: string,
    subtitleParams: string,
    subtitleParamsAlias: string)

  /** Python truthiness of an optional path: None and '' are both false. */
  predicate IsGiven(path: Option<string>)
  {
    path.Some? && path.value != []
  }

  /** What the subtitle-parameters placeholder expands to. */
  function SubtitleParams(config: CommandConfig, subFile: Option<string>): string
  {
    if IsGiven(subFile) then Replace(config.subtitleParams, config.subtitleFileAlias, subFile.value)
    else []
  }

  /**
   * `extend_command_by_sub`: every occurrence of the subtitle-parameters
   * placeholder becomes the subtitle parameters (with the subtitle path
   * substituted) or, without a subtitle file, the empty string.
   */
  function ExtendCommandBySub(config: CommandConfig, subFile: Option<string>, command: string): (r: string)
    ensures config.subtitleParamsAlias != [] ==>
              r == Join(SubtitleParams(config, subFile), Split(command, config.subtitleParamsAlias))
    ensures config.subtitleParamsAlias != [] && !Occurs(command, config.subtitleParamsAlias) ==> r == command
  {
    ReplaceSummary(command, config.subtitleParamsAlias, SubtitleParams(config, subFile));
    Replace(command, config.subtitleParamsAlias, SubtitleParams(config, subFile))
  }

  /** The two facts about `Replace` the command builder relies on. */
  lemma ReplaceSummary(s: string, pat: string, rep: string)
    ensures pat != [] ==> Replace(s, pat, rep) == Join(rep, Split(s, pat))
    ensures pat != [] && !Occurs(s, pat) ==> Replace(s, pat, rep) == s
  {
    if pat != [] {
      ReplaceIsJoinOfSplit(s, pat, rep);
      if !Occurs(s, pat) {
        ReplaceAbsent(s, pat, rep);
      }
    }
  }

  /** The executable configured for the platform. */
  function ConvertorExe(config: CommandConfig, platform: Platform): string
  {
    if platform == Win32 || platform == Cygwin then config.convertorExeWin else config.convertorExeUnix
  }

  /**
   * `get_conversion_command`: the platform's executable, a space, and the
   * argument template with the input placeholder, then the output
   * placeholder, then the subtitle placeholder substituted.
   */
  function GetConversionCommand(config: CommandConfig, platform: Platform,
                                inputFile: string, subFile: Option<string>, outputFile: string): (r: string)
    ensures |r| > |ConvertorExe(config, platform)|
    ensures r[..|ConvertorExe(config, platform)| + 1] == ConvertorExe(config, platform) + " "
  {
    var withInput := Replace(config.convertorArgs, config.inputFileAlias, inputFile);
    var withOutput := Replace(withInput, config.outputFileAlias, outputFile);
    var args := ExtendCommandBySub(config, subFile, withOutput);
    var exe := ConvertorExe(config, platform);
    assert (exe + " " + args)[..|exe| + 1] == exe + " ";
    exe + " " + args
  }

  /** A template that mentions none of the placeholders is passed to the executable as it is. */
  lemma TemplateWithoutPlaceholders(config: CommandConfig, platform: Platform,
                                    inputFile: string, subFile: Option<string>, outputFile: string)
    requires config.inputFileAlias != [] && !Occurs(config.convertorArgs, config.inputFileAlias)
    requires config.outputFileAlias != [] && !Occurs(config.convertorArgs, config.outputFileAlias)
    requires config.subtitleParamsAlias != [] && !Occurs(config.convertorArgs, config.subtitleParamsAlias)
    ensures GetConversionCommand(config, platform, inputFile, subFile, outputFile)
            == ConvertorExe(config, platform) + " " + config.convertorArgs
  {
    ReplaceAbsent(config.convertorArgs, config.inputFileAlias, inputFile);
    ReplaceAbsent(config.convertorArgs, config.outputFileAlias, outputFile);
  }

  /**
   * With a template that is exactly the input placeholder, the command runs
   * the input path, provided the path itself mentions no later placeholder
   * (substitution is sequential, so a placeholder inside the input path is
   * expanded too).
   */
  lemma InputPlaceholderOnly(config: CommandConfig, platform: Platform,
                             inputFile: string, subFile: Option<string>, outputFile: string)
    requires config.inputFileAlias != [] && config.convertorArgs == config.inputFileAlias
    requires config.outputFileAlias != [] && !Occurs(inputFile, config.outputFileAlias)
    requires config.subtitleParamsAlias != [] && !Occurs(inputFile, config.subtitleParamsAlias)
    ensures GetConversionCommand(config, platform, inputFile, subFile, outputFile)
            == ConvertorExe(config, platform) + " " + inputFile
  {
    var a := config.inputFileAlias;
    assert a[..|a|] == a && a[|a|..] == [];
    assert Replace(a, a, inputFile) == inputFile + Replace([], a, inputFile);
    assert Replace(a, a, inputFile) == inputFile;
    ReplaceAbsent(inputFile, config.outputFileAlias, outputFile);
    assert ExtendCommandBySub(config, subFile, inputFile) == inputFile;
  }

  /** The twisted exit reasons `process_exited` accepts. */
  datatype ExitStatus =
    | ProcessDone
    | ProcessTerminated(exitCode: Option<int>, signal: Option<int>)

  /**
   * The return code `process_exited` records: 0 for a clean exit, the exit
   * code when there is one, otherwise the negated signal; None where the
   * source raises ValueError('Unknown exit status').
   */
  function ReturnCodeOf(status: ExitStatus): (rc: Option<int>)
    ensures rc.None? <==> status == ProcessTerminated(None, None)
    ensures status.ProcessDone? ==> rc == Some(0)
    ensures status.ProcessTerminated? && status.exitCode.Some? ==> rc == status.exitCode
    ensures status.ProcessTerminated? && status.exitCode.None? && status.signal.Some? ==>
              rc == Some(-status.signal.value)
  {
    match status
    case ProcessDone => Some(0)
    case ProcessTerminated(code, signal) =>
      if code.Some? then code
      else if signal.Some? then Some(-signal.value)
      else None
  }

  /** The state of one of the two temporary capture files. */
  datatype LogState = NotOpened | Open | Closed

  /** How `process_exited` ended. */
  datatype ExitOutcome = Exited | UnknownExitStatus | DecodeFailed

  /** Spawned and not yet reported as exited: its completion is still pending. */
  predicate Pending(p: ConversionProcess)
    reads p
  {
    p.started && !p.finished && p.returncode.None?
  }

  class ConversionProcess {
    const inputFile: string
    const subFile: Option<string>
    const outputFile: string
    const logStdout: bool
    const config: CommandConfig
    const platform: Platform

    var started: bool
    var finished: bool
    var paused: bool
    /** The completion deferred was cancelled by `terminate`. */
    var deferredCancelled: bool
    var pid: Option<int>
    var returncode: Option<int>
    var stderr: Option<string>
    var stdout: Option<string>
    /** The command line handed to the spawner. */
    var command: Option<string>
    var stdoutLog: LogState
    var stderrLog: LogState

    constructor(inputFile: string, subFile: Option<string>, outputFile: string, logStdout: bool,
                config: CommandConfig, platform: Platform)
      ensures this.inputFile == inputFile && this.subFile == subFile && this.outputFile == outputFile
      ensures this.logStdout == logStdout && this.config == config && this.platform == platform
      ensures !started && !finished && !paused && !deferredCancelled
      ensures pid == None && returncode == None && stderr == None && stdout == None && command == None
      ensures stdoutLog == NotOpened && stderrLog == NotOpened
    {
      this.inputFile, this.subFile, this.outputFile := inputFile, subFile, outputFile;
      this.logStdout, this.config, this.platform := logStdout, config, platform;
      started, finished, paused, deferredCancelled := false, false, false, false;
      pid, returncode, stderr, stdout, command := None, None, None, None, None;
      stdoutLog, stderrLog := NotOpened, NotOpened;
    }

    /**
     * `run`: may be called once; builds the command, opens both capture
     * files, spawns the child (whose pid the operating system supplies)
     * and marks the process started.
     */
    method Run(spawnedPid: int)
      requires !started
      modifies this
      ensures started && pid == Some(spawnedPid)
      ensures command == Some(GetConversionCommand(config, platform, inputFile, subFile, outputFile))
      ensures stdoutLog == Open && stderrLog == Open
      ensures finished == old(finished) && paused == old(paused) && deferredCancelled == old(deferredCancelled)
      ensures returncode == old(returncode) && stderr == old(stderr) && stdout == old(stdout)
    {
      command := Some(GetConversionCommand(config, platform, inputFile, subFile, outputFile));
      stdoutLog := Open;
      stderrLog := Open;
      pid := Some(spawnedPid);
      started := true;
    }

    /**
     * `terminate`: nothing once finished, nothing when the operating system
     * says the child has already exited; otherwise the completion deferred is
     * cancelled, whose errback `process_exited` marks the process finished
     * and re-raises the cancellation before its try block, so the return code
     * stays unset and the capture files stay open.
     */
    method Terminate(exitedAlready: bool)
      requires started
      modifies this
      ensures old(finished) || exitedAlready ==> unchanged(this)
      ensures !old(finished) && !exitedAlready ==> deferredCancelled && finished
      ensures started && paused == old(paused) && pid == old(pid) && returncode == old(returncode)
      ensures stdoutLog == old(stdoutLog) && stderrLog == old(stderrLog)
      ensures stderr == old(stderr) && stdout == old(stdout) && command == old(command)
    {
      if finished {
        return;
      }
      if exitedAlready {
        return;
      }
      deferredCancelled := true;
      finished := true;
    }

    /**
     * `pause`: suspends the child when the process lookup finds it alive;
     * only then is the process marked paused.
     */
    method Pause(found: bool)
      requires started && !finished && !paused
      modifies this
      ensures paused == found
      ensures started && !finished && deferredCancelled == old(deferredCancelled) && pid == old(pid)
      ensures returncode == old(returncode) && command == old(command)
      ensures stdoutLog == old(stdoutLog) && stderrLog == old(stderrLog)
      ensures stderr == old(stderr) && stdout == old(stdout)
    {
      if found {
        paused := true;
      }
    }

    /** `resume`: clears the paused flag whether or not the child is still found. */
    method Resume()
      requires started && !finished && paused
      modifies this
      ensures !paused
      ensures started && !finished && deferredCancelled == old(deferredCancelled) && pid == old(pid)
      ensures returncode == old(returncode) && command == old(command)
      ensures stdoutLog == old(stdoutLog) && stderrLog == old(stderrLog)
      ensures stderr == old(stderr) && stdout == old(stdout)
    {
      paused := false;
    }

    /**
     * `process_exited` for a normal exit report: marks the process finished,
     * records the return code, reads the captured stderr (and stdout when
     * requested; None stands for a decoding error) and closes both capture
     * files on every path.
     */
    method ProcessExited(status: ExitStatus, stderrText: Option<string>, stdoutText: Option<string>)
      returns (outcome: ExitOutcome)
      requires started && !finished
      modifies this
      ensures finished && started
      ensures stdoutLog == Closed && stderrLog == Closed
      ensures returncode == (if ReturnCodeOf(status).Some? then ReturnCodeOf(status) else old(returncode))
      ensures outcome == UnknownExitStatus <==> ReturnCodeOf(status).None?
      ensures outcome == UnknownExitStatus ==> stderr == old(stderr) && stdout == old(stdout)
      ensures outcome != UnknownExitStatus ==> stderr == (if stderrText.Some? then stderrText else old(stderr))
      ensures outcome == Exited <==>
                ReturnCodeOf(status).Some? && stderrText.Some? && (logStdout ==> stdoutText.Some?)
      ensures outcome == Exited && logStdout ==> stdout == stdoutText
      ensures !logStdout ==> stdout == old(stdout)
      ensures paused == old(paused) && pid == old(pid) && deferredCancelled == old(deferredCancelled)
      ensures command == old(command)
    {
      finished := true;
      var rc := ReturnCodeOf(status);
      if rc.None? {
        outcome := UnknownExitStatus;
      } else {
        returncode := rc;
        if stderrText.None? {
          outcome := DecodeFailed;
        } else {
          stderr := stderrText;
          if logStdout && stdoutText.None? {
            outcome := DecodeFailed;
          } else {
            if logStdout {
              stdout := stdoutText;
            }
            outcome := Exited;
          }
        }
      }
      stdoutLog := Closed;
      stderrLog := Closed;
    }
  }
}
