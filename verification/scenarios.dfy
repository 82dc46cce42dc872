/** Whole runs of the generator, one per documented behaviour of the command. */
module Scenarios {
  import opened Optional
  import opened PyStr
  import opened PosixPath
  import opened OutputPath
  import opened OverrideScan
  import opened Generator

  /** The default directory joined with the default output name. */
  lemma DefaultPathSpelled()
    ensures DefaultDir + [Sep] + "qrcode.png" == "generated_png/qrcode.png"
  {
  }

  /** A name with a dot after a non-dot character and no directory keeps its
      name and lands under the default directory. */
  lemma NamedFileUnderDefaultDir(name: string, i: int, j: int)
    requires Sep !in name
    requires 0 <= i < j < |name| && name[i] != ExtSep && name[j] == ExtSep
    ensures NormalizeOutput(name) == Target(DefaultDir + [Sep] + name, DefaultDir)
  {
    BasenameWhole(name);
    DottedWitness(name, i, j);
  }

  /** With all defaults and a payload argument, the image goes to
      `generated_png/qrcode.png`. */
  lemma DefaultsWriteIntoGeneratedPng(env: Environment)
    requires env.argument.Some? && env.argument.value != [] && env.argument.value != StdinMarker
    ensures Run(Defaults, env)
      == Render(env.argument.value, Defaults.(output := "generated_png/qrcode.png"), "generated_png")
  {
    assert Resolve(Defaults, env) == Request(env.argument.value, "qrcode.png");
    NamedFileUnderDefaultDir("qrcode.png", 0, 6);
    DefaultPathSpelled();
  }

  /** Typing words followed by `-o NAME` or `--output NAME` at the prompt
      encodes the words, joined by single spaces, into NAME; with no words
      the payload is empty and the run exits with status 1. This holds both
      when the lexer splits the line and when it fails and the line is split
      on whitespace. */
  lemma PromptWordsThenOverride(opts: Options, env: Environment, words: seq<string>, flag: string, name: string)
    requires env.argument in {None, Some([])} && env.stdinIsTty
    requires IsFlag(flag) && name != []
    requires forall k :: 0 <= k < |words| ==> IsWord(words[k]) && Plain(words[k])
    requires
      || env.lexed == Some(words + [flag, name])
      || (env.lexed == None && IsWord(name) && Strip(env.promptLine) == JoinSpaced(words + [flag, name]))
    ensures words == [] ==> Run(opts, env) == Exit(1)
    ensures words != [] ==>
      Run(opts, env) == Render(JoinSpaced(words), opts.(output := NormalizeOutput(name).path), NormalizeOutput(name).dir)
  {
    var raw := Strip(env.promptLine);
    var parts := words + [flag, name];
    if env.lexed.None? {
      FlagIsWord(flag);
      SplitOfWords(words, flag, name);
    }
    assert PromptTokens(raw, env.lexed) == parts;
    WordsThenFlagValue(words, flag, name);
    StripJoinedWords(words);
    assert Resolve(opts, env) == Request(JoinSpaced(words), name);
    if words != [] {
      JoinSpacedEnds(words);
    }
  }

  /** The whitespace split gives back the words of a line joined by spaces. */
  lemma SplitOfWords(words: seq<string>, flag: string, name: string)
    requires forall k :: 0 <= k < |words| ==> IsWord(words[k])
    requires IsWord(flag) && IsWord(name)
    ensures Split(JoinSpaced(words + [flag, name])) == words + [flag, name]
  {
    var more := [flag, name];
    assert forall k :: 0 <= k < |more| ==> IsWord(more[k]);
    SplitJoinAppend(words, more);
  }

  /** A final `--output=` records the empty string, which the override test
      rejects: earlier overrides are discarded, the whole stripped line is the
      payload and the output option applies as given. */
  lemma PromptEmptyInlineLast(opts: Options, env: Environment, ss: seq<Step>)
    requires env.argument in {None, Some([])} && env.stdinIsTty
    requires forall k :: 0 <= k < |ss| ==> StepOk(ss[k], false)
    requires env.lexed == Some(Tokens(ss) + [InlinePrefix])
    requires Strip(env.promptLine) != []
    ensures Run(opts, env)
      == Render(Strip(env.promptLine), opts.(output := NormalizeOutput(opts.output).path), NormalizeOutput(opts.output).dir)
  {
    EmptyInlineLast(ss);
    PromptWithoutOverride(opts, env);
  }

  /** A `-o` or `--output` with nothing after it is payload text, not an
      override: the override recorded before it, if any, still decides. */
  lemma PromptTrailingFlag(opts: Options, env: Environment, ss: seq<Step>, flag: string)
    requires env.argument in {None, Some([])} && env.stdinIsTty
    requires IsFlag(flag)
    requires forall k :: 0 <= k < |ss| ==> StepOk(ss[k], false)
    requires env.lexed == Some(Tokens(ss) + [flag])
    ensures Resolve(opts, env).output
      == (var ov := LastOverride(ss); if ov.Some? && ov.value != [] then ov.value else opts.output)
    ensures LastOverride(ss) == None ==> Resolve(opts, env).data == Strip(env.promptLine)
  {
    TrailingFlagStays(ss, flag);
  }
}
