/**
 * The older command-line front end (`src/video_convertor.py`): a factory
 * that refuses a configuration missing any of six keys, and a convertor
 * object that builds one command by placeholder substitution, launches it
 * at most once at a time and answers questions about it from the
 * operating system's `poll()` report.
 */
module Legacy {
  import opened Wrappers
  import opened PyString
  import Process

  /** A configuration as read from the file: option name to value. */
  type Config = map<string, string>

  const InputFileAlias: string := "input_file_alias"
  const OutputFileAlias: string := "output_file_alias"
  const ConvertCommand: string := "convert_command"
  const SubtitleParamsAlias: string := "subtitle_params_alias"
  const SubtitleParams: string := "subtitle_params"
  const SubtitleFileAlias: string := "subtitle_file_alias"

  /** The keys the factory demands, in the order it checks them. */
  const RequiredKeys: seq<string> :=
    [InputFileAlias, OutputFileAlias, ConvertCommand, SubtitleParamsAlias, SubtitleParams, SubtitleFileAlias]

  /** Why loading a configuration failed: the key reported in the error message. */
  datatype ConfigError = MissingKey(key: string)

  predicate HasRequiredKeys(config: Config)
  {
    InputFileAlias in config && OutputFileAlias in config && ConvertCommand in config &&
    SubtitleParamsAlias in config && SubtitleParams in config && SubtitleFileAlias in config
  }

  /** The list and the predicate name the same six keys. */
  lemma RequiredKeysListed(config: Config)
    ensures HasRequiredKeys(config) <==> forall i :: 0 <= i < |RequiredKeys| ==> RequiredKeys[i] in config
  {
    assert RequiredKeys[0] == InputFileAlias && RequiredKeys[1] == OutputFileAlias;
    assert RequiredKeys[2] == ConvertCommand && RequiredKeys[3] == SubtitleParamsAlias;
    assert RequiredKeys[4] == SubtitleParams && RequiredKeys[5] == SubtitleFileAlias;
  }

  /**
   * `VideoConvertorFactory.__loadConfig`: the keys are checked one after the
   * other and the first absent one is reported; a configuration holding all
   * of them is kept as it is.
   */
  method LoadConfig(config: Config) returns (r: Result<Config, ConfigError>)
    ensures r.Ok? <==> HasRequiredKeys(config)
    ensures r.Ok? ==> r.value == config
    ensures r.Err? ==> exists i :: 0 <= i < |RequiredKeys| && r.error == MissingKey(RequiredKeys[i]) &&
                                  RequiredKeys[i] !in config &&
                                  forall j :: 0 <= j < i ==> RequiredKeys[j] in config
  {
    RequiredKeysListed(config);
    r := Ok(config);
    var i := 0;
    while i < |RequiredKeys| && r.Ok?
      invariant 0 <= i <= |RequiredKeys|
      invariant forall j :: 0 <= j < i ==> RequiredKeys[j] in config
      invariant r.Ok? ==> r.value == config
      invariant r.Err? ==> i < |RequiredKeys| && r.error == MissingKey(RequiredKeys[i]) && RequiredKeys[i] !in config
      decreases |RequiredKeys| - i, r.Ok?
    {
      if RequiredKeys[i] !in config {
        r := Err(MissingKey(RequiredKeys[i]));
      } else {
        i := i + 1;
      }
    }
  }

  /**
   * `__extendCmdBySub`: the subtitle-parameters placeholder becomes the
   * subtitle parameters with the subtitle path substituted, or the empty
   * string when no subtitle file is given.
   */
  function ExtendCmdBySub(config: Config, subFile: Option<string>, command: string): string
    requires HasRequiredKeys(config)
  {
    var subParams :=
      if Process.IsGiven(subFile) then Replace(config[SubtitleParams], config[SubtitleFileAlias], subFile.value)
      else [];
    Replace(command, config[SubtitleParamsAlias], subParams)
  }

  /** The command `process` launches: input placeholder, then output placeholder, then subtitles. */
  function Command(config: Config, inputFile: string, subFile: Option<string>, outputFile: string): string
    requires HasRequiredKeys(config)
  {
    var withInput := Replace(config[ConvertCommand], config[InputFileAlias], inputFile);
    var withOutput := Replace(withInput, config[OutputFileAlias], outputFile);
    ExtendCmdBySub(config, subFile, withOutput)
  }

  /** The same options seen as the `command` section `ConversionProcess` reads. */
  function AsCommandConfig(config: Config, exeWin: string, exeUnix: string): Process.CommandConfig
    requires HasRequiredKeys(config)
  {
    Process.CommandConfig(exeWin, exeUnix, config[InputFileAlias], config[OutputFileAlias],
                          config[ConvertCommand], config[SubtitleFileAlias], config[SubtitleParams],
                          config[SubtitleParamsAlias])
  }

  /**
   * The legacy builder applies the same substitution rule as
   * `ConversionProcess.get_conversion_command`: its command is exactly the
   * argument part that follows the executable and the space there.
   */
  lemma SameRuleAsConversionProcess(config: Config, exeWin: string, exeUnix: string, platform: Process.Platform,
                                    inputFile: string, subFile: Option<string>, outputFile: string)
    requires HasRequiredKeys(config)
    ensures var cc := AsCommandConfig(config, exeWin, exeUnix);
            var full := Process.GetConversionCommand(cc, platform, inputFile, subFile, outputFile);
            var exe := Process.ConvertorExe(cc, platform);
            |full| > |exe| && full[|exe| + 1..] == Command(config, inputFile, subFile, outputFile)
  {
    var cc := AsCommandConfig(config, exeWin, exeUnix);
    var exe := Process.ConvertorExe(cc, platform);
    var withInput := Replace(cc.convertorArgs, cc.inputFileAlias, inputFile);
    var withOutput := Replace(withInput, cc.outputFileAlias, outputFile);
    var args := Process.ExtendCommandBySub(cc, subFile, withOutput);
    assert Process.SubtitleParams(cc, subFile) ==
           (if Process.IsGiven(subFile) then Replace(config[SubtitleParams], config[SubtitleFileAlias], subFile.value)
            else []);
    assert args == ExtendCmdBySub(config, subFile, withOutput);
    assert (exe + " " + args)[|exe| + 1..] == args;
  }

  /** Without a subtitle file the configured subtitle parameters play no part in the command. */
  lemma SubtitleParamsUnusedWithoutSubtitles(config: Config, params: string,
                                             inputFile: string, subFile: Option<string>, outputFile: string)
    requires HasRequiredKeys(config) && !Process.IsGiven(subFile)
    ensures HasRequiredKeys(config[SubtitleParams := params])
    ensures Command(config[SubtitleParams := params], inputFile, subFile, outputFile)
            == Command(config, inputFile, subFile, outputFile)
  {
    var c2 := config[SubtitleParams := params];
    assert c2[ConvertCommand] == config[ConvertCommand];
    assert c2[InputFileAlias] == config[InputFileAlias];
    assert c2[OutputFileAlias] == config[OutputFileAlias];
    assert c2[SubtitleParamsAlias] == config[SubtitleParamsAlias];
  }

  /**
   * A template that mentions none of the (non-empty) placeholders is run as
   * it is, whatever the file names.
   */
  lemma TemplateWithoutAliases(config: Config, inputFile: string, subFile: Option<string>, outputFile: string)
    requires HasRequiredKeys(config)
    requires config[InputFileAlias] != [] && !Occurs(config[ConvertCommand], config[InputFileAlias])
    requires config[OutputFileAlias] != [] && !Occurs(config[ConvertCommand], config[OutputFileAlias])
    requires config[SubtitleParamsAlias] != [] && !Occurs(config[ConvertCommand], config[SubtitleParamsAlias])
    ensures Command(config, inputFile, subFile, outputFile) == config[ConvertCommand]
  {
    var t := config[ConvertCommand];
    ReplaceAbsent(t, config[InputFileAlias], inputFile);
    ReplaceAbsent(t, config[OutputFileAlias], outputFile);
    var subParams :=
      if Process.IsGiven(subFile) then Replace(config[SubtitleParams], config[SubtitleFileAlias], subFile.value)
      else [];
    ReplaceAbsent(t, config[SubtitleParamsAlias], subParams);
  }

  /** The launched external program, identified by its command line. */
  datatype Launched = Launched(command: string)

  /**
   * `VideoConvertor`: one conversion job. `process` is the launched program,
   * if any; `terminateRequests` counts the termination signals sent to it.
   * What `poll()` reports (None while the program runs, its return code
   * afterwards) is given to each method by the caller.
   */
  class VideoConvertor {
    const config: Config
    const inputFile: string
    const subFile: Option<string>
    const outputFile: string
    var process: Option<Launched>
    var terminateRequests: nat

    /** `createInstance`: the factory hands over the configuration it checked. */
    constructor (config: Config, inputFile: string, subFile: Option<string>, outputFile: string)
      requires HasRequiredKeys(config)
      ensures this.config == config && this.inputFile == inputFile
      ensures this.subFile == subFile && this.outputFile == outputFile
      ensures process == None && terminateRequests == 0
    {
      this.config := config;
      this.inputFile := inputFile;
      this.subFile := subFile;
      this.outputFile := outputFile;
      process := None;
      terminateRequests := 0;
    }

    /**
     * `process`: allowed only before the first launch or once the previous
     * program has finished (`polled` is its report); launches the built
     * command.
     */
    method Process(polled: Option<int>)
      requires HasRequiredKeys(config)
      requires process.None? || polled.Some?
      modifies this
      ensures process == Some(Launched(Command(config, inputFile, subFile, outputFile)))
      ensures terminateRequests == old(terminateRequests)
    {
      var command := Replace(config[ConvertCommand], config[InputFileAlias], inputFile);
      command := Replace(command, config[OutputFileAlias], outputFile);
      command := ExtendCmdBySub(config, subFile, command);
      process := Some(Launched(command));
    }

    /** `isProcessing`: the launched program has not reported a return code yet. */
    method IsProcessing(polled: Option<int>) returns (processing: bool)
      requires process.Some?
      ensures processing <==> polled.None?
    {
      processing := polled == None;
    }

    /** `getReturnCode`: the return code, or None while the program still runs. */
    method GetReturnCode(polled: Option<int>) returns (rc: Option<int>)
      requires process.Some?
      ensures rc.Some? <==> polled.Some?
      ensures rc.Some? ==> rc.value == polled.value
    {
      rc := polled;
    }

    /** `cancelProcess`: a termination signal is sent only while the program runs. */
    method CancelProcess(polled: Option<int>)
      requires process.Some?
      modifies this
      ensures process == old(process)
      ensures terminateRequests == old(terminateRequests) + (if polled.None? then 1 else 0)
    {
      var processing := IsProcessing(polled);
      if processing {
        terminateRequests := terminateRequests + 1;
      }
    }
  }
}
