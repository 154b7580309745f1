/**
 * One run of the `wtf` binary (`main`, src/main.rs:81-141) over an abstract
 * environment: the command-line words and flag, the API key as read from the
 * environment, the network, the JSON decoder, the line typed at the prompt and
 * what running a shell command yields are all given. The run produces the
 * externally visible effects in order and how the process ends.
 */
module Cli {
  import opened Wrappers
  import opened Text
  import opened Gemini
  import opened ShellQuote
  import opened Confirm
  import opened Process

  datatype Environment = Environment(
    words: seq<string>,                          // `args.prompt`
    raw: bool,                                   // `--raw`
    apiKey: Option<string>,                      // `env::var("GEMINI_API_KEY")`
    systemPrompt: string,                        // `SYSTEM_PROMPT`
    post: (string, GeminiRequest) -> Exchange,   // the HTTP round trip, given key and body
    parse: string -> Option<GeminiResponse>,     // `serde_json::from_str`
    line: Option<string>,                        // `read_line`; `None` when reading stdin fails
    run: string -> Spawn)                        // `sh -c <command>` run to completion

  datatype Effect =
    | PrintCommand(command: string)      // raw mode: the command alone on stdout
    | ShowSuggestion(command: string)    // the "Suggested command" block and the prompt
    | Shell(script: string)              // one `sh -c script` child

  datatype AppError = MissingApiKey | Api(error: ApiError) | StdinFailed | ExecFailed

  /** `main` returned `Ok`, returned `Err`, or called `std::process::exit`. */
  datatype Outcome = Completed | Failed(error: AppError) | Exit(code: int)

  /**
   * The status the process ends with: `Err` from `main` is reported with
   * status 1, a call of `std::process::exit` with the low 8 bits of its code.
   */
  function ProcessExitCode(o: Outcome): (r: int)
    ensures 0 <= r <= 255
    ensures o.Completed? ==> r == 0
    ensures o.Failed? ==> r != 0
    ensures o.Exit? && 0 <= o.code <= 255 ==> r == o.code
  {
    match o
    case Completed => 0
    case Failed(_) => 1
    case Exit(c) => ReportedStatus(c)
  }

  /** The text `get_command_from_gemini` receives as the prompt. */
  function Prompt(env: Environment): string {
    Join(env.words)
  }

  /** What the model was asked, given that a key is present. */
  function Generated(env: Environment): Result<string, ApiError>
    requires env.apiKey.Some?
  {
    CommandFromGemini(env.apiKey.value, Prompt(env), env.systemPrompt, env.post, env.parse)
  }

  /** A run that reached a command, and the command after `trim`. */
  predicate HasCommand(env: Environment) {
    env.apiKey.Some? && Generated(env).Success?
  }

  function Command(env: Environment): string
    requires HasCommand(env)
  {
    Trim(Generated(env).value)
  }

  /**
   * What follows the answer to the confirmation prompt for `command`, once
   * classified (src/main.rs:109-138): the script of the one `sh -c` child
   * started, which is the command itself on a "yes" and the clipboard line
   * otherwise, and how the run ends.
   */
  method Answer(command: string, choice: Choice, run: string -> Spawn) returns (script: string, outcome: Outcome)
    ensures match choice
      case Execute =>
        && script == command
        && (run(command).SpawnFailed? ==> outcome == Failed(ExecFailed))
        && (run(command).Ran? && Succeeded(run(command).status) ==> outcome == Completed)
        && (run(command).Ran? && !Succeeded(run(command).status) ==> outcome == Exit(FailureExitCode(run(command).status)))
      case _ =>
        script == ClipboardScript(command) && outcome == Completed
    ensures script == command ==> choice == Execute
    ensures ProcessExitCode(outcome) == 0 <==> outcome == Completed
  {
    match choice {
      case Execute =>
        script := command;
        var spawned := run(command);
        if spawned.SpawnFailed? {
          outcome := Failed(ExecFailed);
        } else if !Succeeded(spawned.status) {
          outcome := Exit(FailureExitCode(spawned.status));
        } else {
          outcome := Completed;
        }
      case CopyForEdit =>
        // the clipboard child's status is ignored
        script := ClipboardScript(command);
        outcome := Completed;
      case Cancel =>
        script := ClipboardScript(command);
        outcome := Completed;
    }
  }

  /**
   * The interactive part of a run (src/main.rs:98-138): show `command`, read
   * the answer `line` (`None` when reading fails) and act on it.
   */
  method Interactive(command: string, line: Option<string>, run: string -> Spawn) returns (effects: seq<Effect>, outcome: Outcome)
    ensures |effects| >= 1 && effects[0] == ShowSuggestion(command)
    ensures line.None? ==> |effects| == 1 && outcome == Failed(StdinFailed)
    ensures line.Some? ==>
      match Classify(line.value)
      case Execute =>
        && effects == [ShowSuggestion(command), Shell(command)]
        && (run(command).SpawnFailed? ==> outcome == Failed(ExecFailed))
        && (run(command).Ran? && Succeeded(run(command).status) ==> outcome == Completed)
        && (run(command).Ran? && !Succeeded(run(command).status) ==> outcome == Exit(FailureExitCode(run(command).status)))
      case _ =>
        effects == [ShowSuggestion(command), Shell(ClipboardScript(command))] && outcome == Completed
    ensures forall k :: 0 <= k < |effects| && effects[k].Shell? ==> k == 1
    ensures Shell(command) in effects ==> line.Some? && Classify(line.value) == Execute
    ensures ProcessExitCode(outcome) == 0 <==> outcome == Completed
  {
    if line.None? {
      return [ShowSuggestion(command)], Failed(StdinFailed);
    }
    var script;
    script, outcome := Answer(command, Classify(line.value), run);
    effects := [ShowSuggestion(command), Shell(script)];
  }

  method RunOnce(env: Environment) returns (effects: seq<Effect>, outcome: Outcome)
    // Nothing happens before a key and a command are in hand.
    ensures env.apiKey.None? ==> effects == [] && outcome == Failed(MissingApiKey)
    ensures env.apiKey.Some? && Generated(env).Failure? ==> effects == [] && outcome == Failed(Api(Generated(env).error))
    // Raw mode prints the trimmed command and nothing else.
    ensures HasCommand(env) && env.raw ==> effects == [PrintCommand(Command(env))] && outcome == Completed
    // Interactive mode shows the command, then acts on the answer.
    ensures HasCommand(env) && !env.raw ==> |effects| >= 1 && effects[0] == ShowSuggestion(Command(env))
    ensures HasCommand(env) && !env.raw && env.line.None? ==> |effects| == 1 && outcome == Failed(StdinFailed)
    ensures HasCommand(env) && !env.raw && env.line.Some? ==>
      var c := Command(env);
      match Classify(env.line.value)
      case Execute =>
        && effects == [ShowSuggestion(c), Shell(c)]
        && (env.run(c).SpawnFailed? ==> outcome == Failed(ExecFailed))
        && (env.run(c).Ran? && Succeeded(env.run(c).status) ==> outcome == Completed)
        && (env.run(c).Ran? && !Succeeded(env.run(c).status) ==> outcome == Exit(FailureExitCode(env.run(c).status)))
      case _ =>
        effects == [ShowSuggestion(c), Shell(ClipboardScript(c))] && outcome == Completed
    // At most one child is started, and the command itself only on a confirmed "yes".
    ensures forall k :: 0 <= k < |effects| && effects[k].Shell? ==> k == 1
    ensures HasCommand(env) && Shell(Command(env)) in effects
        ==> !env.raw && env.line.Some? && Classify(env.line.value) == Execute
    // The process reports success exactly when the run completed.
    ensures ProcessExitCode(outcome) == 0 <==> outcome == Completed
  {
    if env.apiKey.None? {
      return [], Failed(MissingApiKey);
    }
    // the exchange for the prompt words joined with single spaces
    var generated := Generated(env);
    if generated.Failure? {
      return [], Failed(Api(generated.error));
    }
    var command := Command(env);
    if env.raw {
      return [PrintCommand(command)], Completed;
    }
    effects, outcome := Interactive(command, env.line, env.run);
  }
}
