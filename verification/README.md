# QR code generator — the decisions the script makes itself

`qr-code-generator.py` is a command-line tool. It encodes a text or URL into a
QR code image. The QR encoding, the rendering and the file write belong to the
`qrcode` library. What the script decides on its own is this:

- where the payload comes from: the positional argument, stdin, or an
  interactive prompt;
- how an interactive line may carry its own `-o NAME`, `--output NAME` or
  `--output=NAME` override, which is removed from the payload;
- that an empty payload ends the run with status 1;
- how the output name is normalised: `.png` is appended when `os.path.splitext`
  finds no extension, and a name without a directory is placed under
  `generated_png/`.

This project models those decisions in Dafny as pure functions over strings
and sequences, and proves what they guarantee.

Modules, in dependency order:

- `Optional`: Python's `None`-or-value.
- `PyStr`: the `str` methods the script relies on, namely `isspace`,
  `strip()`, `split()` without arguments, `" ".join`, `startswith`,
  `split("=", 1)` and `rfind`.
- `PosixPath`: `os.path.splitext`, `dirname` and `join`, with `/` as the only
  separator.
- `OutputPath`: `ensure_extension` and the default-directory rule.
- `OverrideScan`: the interactive override scanner. It is specified as a
  segmentation of the tokens into steps: a kept token, a flag with its value,
  or a `--output=VALUE` token. The `while` loop of the script is mirrored
  statement for statement by `ScanOverrides` and proved to compute that
  specification.
- `Generator`: source selection, the prompt override and the outcome of a
  run. The outcome is either `Exit(1)`, or a `Render` holding the payload, the
  options with the normalised output path, and the directory to create.
- `Scenarios`: whole runs, stated for all inputs of a shape. Examples are
  "words then `-o NAME` at the prompt" and "a final `--output=`".

Everything the script reads from outside is a field of `Environment`:

- the positional argument;
- whether stdin is a terminal;
- the text of stdin;
- the line typed at the prompt;
- the result of `shlex.split` on the stripped line, where `None` stands for
  the `ValueError` it raises.

Behaviour worth knowing, all modelled as written:

- An empty positional argument counts as absent, so the run falls back to
  stdin or the prompt.
- A final `--output=` records the empty string as the override. The
  `if output_override:` test then rejects it, which discards any earlier
  `-o NAME` on the same line. The whole stripped line is then the payload.
- A trailing `-o` or `--output` with nothing after it stays in the payload.
- `ensure_extension` is idempotent exactly when the final path component
  holds a character other than a dot. For `""`, `dir/` or `..`, the
  appended `.png` reads as a hidden-file name, not an extension, so a second
  application appends it again.

## Model

| member | source | states |
|---|---|---|
| PyStr.RFind | qr-code-generator.py:18 | the index of the last occurrence of a character, or -1 when it does not occur; no occurrence follows it |
| PyStr.StripSlice | qr-code-generator.py:55 | `strip()` returns a slice of the input with only whitespace outside it and no whitespace at its own ends; it is empty exactly when the input is all whitespace |
| PyStr.Strip | qr-code-generator.py:55 | `strip()` is no longer than its input and has no whitespace at either end |
| PyStr.StripIdempotent | qr-code-generator.py:73 | `strip()` is idempotent: stripping a stripped string changes nothing |
| PyStr.Split | qr-code-generator.py:82 | every item of the whitespace split is a non-empty run of non-whitespace characters |
| PyStr.SplitExactly | qr-code-generator.py:82 | `split()` returns a list of words exactly when the input is those words, in order, with whitespace between neighbours and possibly at the ends; no other list has that shape |
| PyStr.SplitJoin | qr-code-generator.py:82 | splitting words joined by single spaces gives back exactly those words |
| PyStr.SplitJoinAppend | qr-code-generator.py:82 | two runs of words joined as one line split back into both runs |
| PyStr.JoinSpacedWeave | qr-code-generator.py:110 | `" ".join` is the items in order with exactly one space between neighbours and nothing at either end |
| PyStr.JoinSpacedEnds | qr-code-generator.py:110 | words joined by single spaces begin with the first word's first character and end with the last word's last character |
| PyStr.StripJoinedWords | qr-code-generator.py:110 | the `.strip()` after `" ".join` leaves a join of whitespace-free words unchanged |
| PosixPath.SplitExt | qr-code-generator.py:18 | root and extension concatenate back to the path |
| PosixPath.ExtensionShape | qr-code-generator.py:18 | a non-empty extension is one dot followed by characters that are neither dots nor separators |
| PosixPath.HasExtensionIff | qr-code-generator.py:18-19 | `splitext` finds an extension exactly when the final component has a non-dot character followed later by a dot |
| PosixPath.Dirname | qr-code-generator.py:122-123 | the directory is empty exactly when the path has no separator; it is a prefix of the path that reaches up to the final component except for a run of separators; it ends in a separator only when it consists of separators, and then it is everything before the final component |
| PosixPath.JoinUnder | qr-code-generator.py:125 | joining a plain directory and a plain name puts one separator between them, and `dirname` of the result is the directory |
| PosixPath.JoinPath | qr-code-generator.py:125 | `os.path.join` of a plain name onto a directory without a trailing separator puts exactly one separator between them |
| PosixPath.DirnameUnder | qr-code-generator.py:122 | `dirname` of a name under a plain directory is that directory |
| OutputPath.EnsureExtension | qr-code-generator.py:13-21 | a name whose final component has an extension is returned unchanged; any other name gets exactly the default extension appended |
| OutputPath.DottedAppend | qr-code-generator.py:19-20 | after appending a dot-led suffix, the name has an extension exactly when it had a non-dot character |
| OutputPath.EnsureExtensionIdempotent | qr-code-generator.py:18-21 | applying `ensure_extension` twice equals applying it once, exactly when the final component holds a non-dot character |
| OutputPath.EnsureExtensionUnder | qr-code-generator.py:18-21 | only the final component decides: a name under a directory is extended exactly as the name alone |
| OutputPath.NormalizeOutput | qr-code-generator.py:117-125 | the directory to create is non-empty and is `dirname` of the path; a name with a separator keeps its path; a bare name goes under `generated_png/` |
| OutputPath.NormalizeOutputIdempotent | qr-code-generator.py:117-125 | normalising a normalised path changes nothing, exactly when the final component holds a non-dot character |
| OutputPath.DirectoryIsKept | qr-code-generator.py:119-125 | a name under any directory part, relative or absolute, keeps that directory part; only the file name may gain `.png`; for a one-component directory that directory is the one to create |
| OverrideScan.InlineValue | qr-code-generator.py:95-96 | for a `--output=` token, the text after the first `=` is the text after the prefix, and prefix plus value rebuilds the token |
| OverrideScan.FrontStep | qr-code-generator.py:90-104 | one pass of the loop consumes one or two tokens, exactly the tokens of the step it records; a flag is kept only when no token follows it |
| OverrideScan.Steps | qr-code-generator.py:89-104 | the scan's steps consume exactly the input tokens, in order, and every step is one the loop can take at its position |
| OverrideScan.StepsOfTokens | qr-code-generator.py:89-104 | scanning the tokens of any well-formed step sequence finds exactly those steps again |
| OverrideScan.KeptAppend | qr-code-generator.py:103 | the kept tokens of two step runs are those of the first run followed by those of the second |
| OverrideScan.LastOverrideAppend | qr-code-generator.py:91-101 | an override in a later run of steps replaces any earlier one |
| OverrideScan.KeptIsSubsequence | qr-code-generator.py:103 | the kept tokens are a subsequence of the input, in their original order, and never more numerous |
| OverrideScan.NoOverrideKeepsAll | qr-code-generator.py:89-104 | no override is recorded exactly when every token is kept |
| OverrideScan.ScanConcat | qr-code-generator.py:91-101 | scanning two well-formed runs back to back keeps both runs' tokens in order, and the second run's override wins |
| OverrideScan.AppendStep | qr-code-generator.py:89-104 | one final step after steps that may stand anywhere is found again by the scan, after those steps |
| OverrideScan.TrailingFlagStays | qr-code-generator.py:91-104 | a `-o` or `--output` with no token after it is kept as payload and leaves the override as it was |
| OverrideScan.EmptyInlineLast | qr-code-generator.py:95-97 | a final `--output=` records the empty string as the override, whatever came before, and keeps nothing |
| OverrideScan.PlainTokens | qr-code-generator.py:103-104 | tokens that are neither flags nor `--output=` tokens are all kept, in order, and record no override |
| OverrideScan.WordsThenFlagValue | qr-code-generator.py:91-104 | plain words followed by a flag and a value: the words are kept and the value is the override |
| OverrideScan.ScanAt | qr-code-generator.py:90-104 | the step at an index is chosen by the tests in the loop's order: `-o` with a following token, the `--output=` prefix, `--output` with a following token, otherwise the token is kept |
| OverrideScan.ScanAdvance | qr-code-generator.py:89-104 | one pass of the loop body keeps the kept list and the override consistent with the specification of the whole scan |
| OverrideScan.ScanOverrides | qr-code-generator.py:84-104 | the loop's kept list and override are exactly the kept tokens and the last override of the specified segmentation |
| Generator.SelectSource | qr-code-generator.py:49-55 | the argument is used exactly when it is non-empty and not `-`; stdin exactly when it is `-`, or when it is absent or empty and stdin is not a terminal; the prompt otherwise |
| Generator.PromptTokens | qr-code-generator.py:79-82 | when the lexer fails, every token of the fallback split is a whitespace-free word |
| Generator.ApplyPrompt | qr-code-generator.py:84-110 | without a non-empty override the stripped line and the output option stay; with one, the output becomes the last override and the payload the kept tokens joined by single spaces and stripped |
| Generator.Resolve | qr-code-generator.py:48-110 | outside the prompt the output option is kept, and stdin input is stripped |
| Generator.Run | qr-code-generator.py:112-125 | the run exits with status 1 exactly when the resolved payload is empty; otherwise it renders that payload with the options unchanged except the output, which is the normalised path, and a non-empty directory that is its `dirname` |
| Generator.ArgumentUsedVerbatim | qr-code-generator.py:49-51 | a non-empty argument other than `-` is the payload verbatim, and stdin and the prompt do not affect the outcome |
| Generator.StdinIsStripped | qr-code-generator.py:54-55 | input read from stdin is stripped and the output option is kept |
| Generator.BlankStdinExits | qr-code-generator.py:112-114 | a stdin of only whitespace, read because of `-` or because stdin is not a terminal, ends the run with status 1 |
| Generator.PromptWithOverride | qr-code-generator.py:106-110 | at the prompt, a non-empty last override becomes the output name and the payload is the kept tokens joined by single spaces and stripped |
| Generator.PromptWithoutOverride | qr-code-generator.py:106-110 | at the prompt, a line without a non-empty override is the payload as stripped, and the output option is kept |
| Scenarios.NamedFileUnderDefaultDir | qr-code-generator.py:122-125 | a bare name with an extension keeps its name and is placed under `generated_png/` |
| Scenarios.DefaultsWriteIntoGeneratedPng | qr-code-generator.py:117-125 | with all defaults and a payload argument, the image goes to `generated_png/qrcode.png` |
| Scenarios.SplitOfWords | qr-code-generator.py:82 | the fallback split of words, a flag and a name joined by spaces gives back those tokens |
| Scenarios.PromptWordsThenOverride | qr-code-generator.py:79-114 | words then `-o NAME` or `--output NAME` at the prompt render the words, joined by single spaces, into NAME normalised, whether or not the lexer accepted the line; with no words the run exits with status 1 |
| Scenarios.PromptEmptyInlineLast | qr-code-generator.py:95-110 | a final `--output=` discards earlier overrides: the whole stripped line is rendered into the output option as normalised |
| Scenarios.PromptTrailingFlag | qr-code-generator.py:99-110 | a trailing flag does not change the output: the override recorded before it decides, and without one the payload is the whole stripped line |

## Left out

- The `qrcode` library (lines 6-10 and 130-152): the import check, the
  error-correction constants, QR encoding, rendering, `img.save`, and the
  exit on a save failure. `Level` is a four-way enumeration without meaning.
  A `Render` outcome stands for everything from line 128 on.
- argparse (lines 36-46): the parsed options are an `Options` value, and
  `Defaults` holds argparse's defaults.
- `shlex.split` (line 80): its quoting rules are not modelled. Its result on
  the stripped line is the `lexed` field of `Environment`, and `None` stands
  for its `ValueError`. The fallback `raw.split()` is modelled.
- Terminal and file I/O: `isatty`, `sys.stdin.read`, `input` and the hint
  `print`s of lines 62-67 become `Environment` fields or are omitted.
  `os.makedirs` (line 128) is represented by the `dir` of a `Render`.
- The messages printed at lines 113, 151 and 154.
- Windows path rules for `splitext`, `dirname` and `join`; only `/` is a
  separator.
- `str.isspace` follows Python's whitespace table for code points; other
  Unicode properties are not modelled.
- PyStr.Split: its own contract states only that every item is a word; what
  the items are is stated by `PyStr.SplitExactly`.
- PosixPath.JoinPath: states only the case the script reaches, where the name
  has no leading `/` and the directory is a non-empty name without a trailing
  `/`. The other two branches are in the body but not in the contract.
