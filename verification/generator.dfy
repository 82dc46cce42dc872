/** The decisions `main` makes on its own: where the payload comes from, the
    interactive output override, the empty-payload exit, and the final output
    path. Parsed options and everything read from outside are parameters. */
module Generator {
  import opened Optional
  import opened PyStr
  import opened PosixPath
  import opened OutputPath
  import opened OverrideScan

  /** The four error-correction levels, lowest to highest redundancy; what they
      mean is the QR library's business. */
  datatype Level = L | M | Q | H

  /** The parsed command-line options other than the positional argument. */
  datatype Options = Options(
    output: string,
    boxSize: int,
    border: int,
    fillColor: string,
    backColor: string,
    errorCorrection: Level)

  const Defaults: Options := Options("qrcode.png", 10, 4, "black", "white", M)

  const StdinMarker: string := "-"

  /** What the process reads from outside: the positional argument (absent or
      given), whether stdin is a terminal, all of stdin, the line typed at the
      prompt, and what `shlex.split` makes of that line once stripped
      (`None` when it raises `ValueError`). */
  datatype Environment = Environment(
    argument: Option<string>,
    stdinIsTty: bool,
    stdinText: string,
    promptLine: string,
    lexed: Option<seq<string>>)

  datatype Source = FromArgument | FromStdin | FromPrompt

  /** Lines 49-56: a non-empty argument other than `-` is the payload; otherwise
      stdin is read when `-` was given or stdin is not a terminal; otherwise the
      user is prompted. An empty argument counts as absent. */
  function SelectSource(argument: Option<string>, stdinIsTty: bool): (src: Source)
    ensures src == FromArgument <==> argument.Some? && argument.value != [] && argument.value != StdinMarker
    ensures src == FromPrompt <==> stdinIsTty && argument in {None, Some([])}
    ensures src == FromStdin <==> argument == Some(StdinMarker) || (!stdinIsTty && argument in {None, Some([])})
  {
    if argument.Some? && argument.value != [] && argument.value != StdinMarker then FromArgument
    else if argument == Some(StdinMarker) || !stdinIsTty then FromStdin
    else FromPrompt
  }

  /** The payload and the (not yet normalised) output name. */
  datatype Request = Request(data: string, output: string)

  /** Lines 79-82: the tokens of the prompt line, falling back to a whitespace
      split when the lexer rejects the line. */
  function PromptTokens(raw: string, lexed: Option<seq<string>>): (parts: seq<string>)
    ensures lexed.None? ==> forall k :: 0 <= k < |parts| ==> IsWord(parts[k])
  {
    if lexed.Some? then lexed.value else Split(raw)
  }

  /** The scan recorded an override that is a non-empty string, the only kind
      the `if output_override:` test at line 106 accepts. */
  predicate Overridden(parts: seq<string>) {
    var ov := LastOverride(Steps(parts));
    ov.Some? && ov.value != []
  }

  /** Lines 84-110: scan the prompt tokens; a non-empty override replaces the
      output name and the payload becomes the remaining tokens joined by single
      spaces; otherwise the whole stripped line stays the payload. */
  function ApplyPrompt(raw: string, parts: seq<string>, output: string): (req: Request)
    ensures !Overridden(parts) ==> req == Request(raw, output)
    ensures Overridden(parts) ==>
      && Some(req.output) == LastOverride(Steps(parts))
      && req.output != []
      && req.data == Strip(JoinSpaced(Kept(Steps(parts))))
  {
    if |parts| == 0 then Request(raw, output)
    else
      var ss := Steps(parts);
      var ov := LastOverride(ss);
      if ov.Some? && ov.value != [] then Request(Strip(JoinSpaced(Kept(ss))), ov.value)
      else Request(raw, output)
  }

  /** Lines 48-110: the payload and output name before the empty check. */
  function Resolve(opts: Options, env: Environment): (req: Request)
    ensures SelectSource(env.argument, env.stdinIsTty) != FromPrompt ==> req.output == opts.output
    ensures SelectSource(env.argument, env.stdinIsTty) == FromStdin ==> req.data == Strip(env.stdinText)
  {
    match SelectSource(env.argument, env.stdinIsTty)
    case FromArgument => Request(env.argument.value, opts.output)
    case FromStdin => Request(Strip(env.stdinText), opts.output)
    case FromPrompt =>
      var raw := Strip(env.promptLine);
      ApplyPrompt(raw, PromptTokens(raw, env.lexed), opts.output)
  }

  /** How the run ends: `sys.exit(1)` on an empty payload, or the QR library is
      asked to render `data` with `opts` into `opts.output` once `dir` exists. */
  datatype Outcome = Exit(status: int) | Render(data: string, opts: Options, dir: string)

  /** Lines 48-128 of `main`. */
  function Run(opts: Options, env: Environment): (o: Outcome)
    ensures o.Exit? <==> Resolve(opts, env).data == []
    ensures o.Exit? ==> o.status == 1
    ensures o.Render? ==> o.data == Resolve(opts, env).data
    ensures o.Render? ==> o.dir != [] && Dirname(o.opts.output) == o.dir
    ensures o.Render? ==> o.opts == opts.(output := o.opts.output)
    ensures o.Render? ==> o.opts.output == NormalizeOutput(Resolve(opts, env).output).path
  {
    var req := Resolve(opts, env);
    if req.data == [] then Exit(1)
    else
      var t := NormalizeOutput(req.output);
      Render(req.data, opts.(output := t.path), t.dir)
  }

  /** A non-empty argument other than `-` is the payload verbatim, and nothing
      read from stdin or the prompt changes the outcome. */
  lemma ArgumentUsedVerbatim(opts: Options, env: Environment, other: Environment)
    requires env.argument.Some? && env.argument.value != [] && env.argument.value != StdinMarker
    requires other.argument == env.argument
    ensures Run(opts, env).Render? && Run(opts, env).data == env.argument.value
    ensures Run(opts, other) == Run(opts, env)
  {
  }

  /** Input from stdin is stripped; the output option is kept as given. */
  lemma StdinIsStripped(opts: Options, env: Environment)
    requires env.argument == Some(StdinMarker) || (!env.stdinIsTty && env.argument in {None, Some([])})
    ensures Resolve(opts, env) == Request(Strip(env.stdinText), opts.output)
  {
  }

  /** A stdin of only whitespace, on either path that reads stdin, is an empty
      payload and ends the run with status 1. */
  lemma BlankStdinExits(opts: Options, env: Environment)
    requires SelectSource(env.argument, env.stdinIsTty) == FromStdin
    requires forall k :: 0 <= k < |env.stdinText| ==> IsSpace(env.stdinText[k])
    ensures Run(opts, env) == Exit(1)
  {
    StripSlice(env.stdinText);
  }

  /** At the prompt, a line without a usable override is the payload as
      typed (stripped), and the output option stays as given. */
  lemma PromptWithoutOverride(opts: Options, env: Environment)
    requires SelectSource(env.argument, env.stdinIsTty) == FromPrompt
    requires !Overridden(PromptTokens(Strip(env.promptLine), env.lexed))
    ensures Resolve(opts, env) == Request(Strip(env.promptLine), opts.output)
  {
  }

  /** At the prompt, a line whose scan records a non-empty override writes to
      the last override, and the payload is the kept tokens joined by single
      spaces and stripped. */
  lemma PromptWithOverride(opts: Options, env: Environment)
    requires SelectSource(env.argument, env.stdinIsTty) == FromPrompt
    requires Overridden(PromptTokens(Strip(env.promptLine), env.lexed))
    ensures var ss := Steps(PromptTokens(Strip(env.promptLine), env.lexed));
      Resolve(opts, env) == Request(Strip(JoinSpaced(Kept(ss))), LastOverride(ss).value)
  {
  }
}
