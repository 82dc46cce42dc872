/** The scanner `main` runs over the tokens of an interactive input line: it
    removes `-o NAME`, `--output NAME` and `--output=NAME` from the payload and
    remembers the last NAME it saw. */
module OverrideScan {
  import opened Optional
  import opened PyStr

  const ShortFlag: string := "-o"
  const LongFlag: string := "--output"
  const InlinePrefix: string := "--output="

  /** One move of the scanner: a kept payload token, a flag that took the
      next token as its value, or a single `--output=VALUE` token. */
  datatype Step = Keep(token: string) | FlagValue(flag: string, value: string) | Inline(value: string)

  /** The tokens a step consumed. */
  function StepTokens(s: Step): seq<string> {
    match s
    case Keep(t) => [t]
    case FlagValue(f, v) => [f, v]
    case Inline(v) => [InlinePrefix + v]
  }

  function Tokens(ss: seq<Step>): seq<string>
    decreases |ss|
  {
    if |ss| == 0 then [] else StepTokens(ss[0]) + Tokens(ss[1..])
  }

  /** The override value a step records, if any. */
  function Override(s: Step): Option<string> {
    match s
    case Keep(_) => None
    case FlagValue(_, v) => Some(v)
    case Inline(v) => Some(v)
  }

  /** The tokens that stay in the payload, in order. */
  function Kept(ss: seq<Step>): seq<string>
    decreases |ss|
  {
    if |ss| == 0 then []
    else if ss[0].Keep? then [ss[0].token] + Kept(ss[1..])
    else Kept(ss[1..])
  }

  /** The value of the override variable after all steps: each override step
      overwrites it, so the last one wins. */
  function LastOverride(ss: seq<Step>): Option<string>
    decreases |ss|
  {
    if |ss| == 0 then None else Later(Override(ss[0]), LastOverride(ss[1..]))
  }

  predicate IsFlag(t: string) {
    t == ShortFlag || t == LongFlag
  }

  /** Both flags are single words. */
  lemma FlagIsWord(flag: string)
    requires IsFlag(flag)
    ensures IsWord(flag)
  {
    var short, long := ShortFlag, LongFlag;
    assert !IsSpace(short[0]) && !IsSpace(short[1]);
    assert forall k :: 0 <= k < |long| ==> !IsSpace(long[k]);
  }

  /** A step the scanner can produce at a position; `last` says whether it is
      the final step. A flag is kept only when no token follows it, and a
      `--output=` token is never kept. */
  ghost predicate StepOk(s: Step, last: bool) {
    match s
    case Keep(t) => !StartsWith(t, InlinePrefix) && (IsFlag(t) ==> last)
    case FlagValue(f, _) => IsFlag(f)
    case Inline(_) => true
  }

  ghost predicate WellFormed(ss: seq<Step>) {
    forall k :: 0 <= k < |ss| ==> StepOk(ss[k], k == |ss| - 1)
  }

  /** The value of `tok.split("=", 1)[1]` for a token that starts with `--output=`. */
  lemma InlineValue(tok: string)
    requires StartsWith(tok, InlinePrefix)
    ensures '=' in tok && AfterFirst(tok, '=') == tok[|InlinePrefix|..]
    ensures InlinePrefix + AfterFirst(tok, '=') == tok
  {
    assert tok[8] == InlinePrefix[8];
    assert forall k :: 0 <= k < 8 ==> tok[k] == InlinePrefix[k];
    var i := FirstIndex(tok, '=');
    assert i == 8;
    assert tok == tok[..9] + tok[9..];
  }

  /** One pass of the loop body at lines 90-104: the step taken at the first
      of `parts` and how many tokens it consumes. The tests run in the
      source's order: `-o` with a following token, the `--output=` prefix,
      `--output` with a following token, and otherwise the token is kept. */
  function FrontStep(parts: seq<string>): (r: (Step, nat))
    requires |parts| > 0
    ensures 1 <= r.1 <= 2 && r.1 <= |parts|
    ensures StepTokens(r.0) == parts[..r.1]
    ensures StepOk(r.0, r.1 == |parts|)
  {
    var tok := parts[0];
    if tok == ShortFlag && 1 < |parts| then
      (FlagValue(tok, parts[1]), 2)
    else if StartsWith(tok, InlinePrefix) then
      InlineValue(tok);
      (Inline(AfterFirst(tok, '=')), 1)
    else if tok == LongFlag && 1 < |parts| then
      (FlagValue(tok, parts[1]), 2)
    else
      (Keep(tok), 1)
  }

  /** How the loop at lines 89-104 of the script segments `parts`, step by step. */
  function Steps(parts: seq<string>): (ss: seq<Step>)
    ensures Tokens(ss) == parts
    ensures WellFormed(ss)
    decreases |parts|
  {
    if |parts| == 0 then []
    else
      var front := FrontStep(parts);
      var rest := Steps(parts[front.1..]);
      Prepend(front.0, rest, parts, front.1);
      [front.0] + rest
  }

  /** One more step in front of a well-formed scan of the remaining tokens. */
  lemma Prepend(s: Step, rest: seq<Step>, parts: seq<string>, n: nat)
    requires n <= |parts| && StepTokens(s) == parts[..n]
    requires Tokens(rest) == parts[n..]
    requires WellFormed(rest)
    requires StepOk(s, n == |parts|)
    ensures Tokens([s] + rest) == parts
    ensures WellFormed([s] + rest)
  {
    var ss := [s] + rest;
    if n < |parts| {
      assert rest != [];
    }
    assert ss[1..] == rest;
    assert parts == parts[..n] + parts[n..];
    forall k | 0 <= k < |ss| ensures StepOk(ss[k], k == |ss| - 1) {
      if k > 0 {
        assert ss[k] == rest[k - 1];
      }
    }
  }

  /** Every well-formed step sequence is what the scanner makes of its own
      tokens: together with the first postcondition of `Steps`, scanning is a
      bijection between token lists and well-formed step sequences. */
  lemma {:induction false} StepsOfTokens(ss: seq<Step>)
    requires WellFormed(ss)
    ensures Steps(Tokens(ss)) == ss
    decreases |ss|
  {
    if |ss| > 0 {
      var rest := ss[1..];
      assert WellFormed(rest) by {
        forall k | 0 <= k < |rest| ensures StepOk(rest[k], k == |rest| - 1) {
          assert rest[k] == ss[k + 1];
        }
      }
      StepsOfTokens(rest);
      var parts := Tokens(ss);
      assert StepOk(ss[0], |ss| == 1);
      match ss[0]
      case Keep(t) =>
        assert parts == [t] + Tokens(rest);
        assert parts[1..] == Tokens(rest);
        if IsFlag(t) {
          assert Tokens(rest) == [];
        }
      case FlagValue(f, v) =>
        assert parts == [f, v] + Tokens(rest);
        assert parts[2..] == Tokens(rest);
        assert !StartsWith(f, InlinePrefix);
      case Inline(v) =>
        var tok := InlinePrefix + v;
        assert parts == [tok] + Tokens(rest);
        assert parts[1..] == Tokens(rest);
        assert tok[..|InlinePrefix|] == InlinePrefix;
        assert tok != ShortFlag && tok != LongFlag;
        InlineValue(tok);
        assert tok[|InlinePrefix|..] == v;
    }
  }

  lemma {:induction false} KeptAppend(a: seq<Step>, b: seq<Step>)
    ensures Kept(a + b) == Kept(a) + Kept(b)
    decreases |a|
  {
    if |a| > 0 {
      assert (a + b)[1..] == a[1..] + b;
      KeptAppend(a[1..], b);
    } else {
      assert a + b == b;
    }
  }

  /** Scanning more steps can only replace the override, never restore an
      earlier one: the later part decides whenever it holds an override. */
  lemma {:induction false} LastOverrideAppend(a: seq<Step>, b: seq<Step>)
    ensures LastOverride(a + b) == Later(LastOverride(a), LastOverride(b))
    decreases |a|
  {
    if |a| > 0 {
      assert (a + b)[1..] == a[1..] + b;
      LastOverrideAppend(a[1..], b);
    } else {
      assert a + b == b;
    }
  }

  /** `sub` is `s` with some elements removed, the rest in their order. */
  ghost predicate Subsequence(sub: seq<string>, s: seq<string>)
    decreases |s|
  {
    if |sub| == 0 then true
    else if |s| == 0 then false
    else (sub[0] == s[0] && Subsequence(sub[1..], s[1..])) || Subsequence(sub, s[1..])
  }

  lemma {:induction false} SubsequenceOfAppend(sub: seq<string>, s: seq<string>, pre: seq<string>)
    requires Subsequence(sub, s)
    ensures Subsequence(sub, pre + s)
    decreases |pre|
  {
    if |pre| > 0 {
      SubsequenceOfAppend(sub, s, pre[1..]);
      assert (pre + s)[1..] == pre[1..] + s;
      if |sub| > 0 {
        assert Subsequence(sub, (pre + s)[1..]);
      }
    } else {
      assert pre + s == s;
    }
  }

  /** The payload tokens keep their original relative order, so there are
      never more of them than there were tokens. */
  lemma {:induction false} KeptIsSubsequence(parts: seq<string>)
    ensures Subsequence(Kept(Steps(parts)), parts)
    ensures |Kept(Steps(parts))| <= |parts|
    decreases |parts|
  {
    if |parts| > 0 {
      var ss := Steps(parts);
      var n := |StepTokens(ss[0])|;
      assert parts == StepTokens(ss[0]) + Tokens(ss[1..]);
      assert parts[n..] == Tokens(ss[1..]);
      StepsOfTokens(ss[1..]) by {
        forall k | 0 <= k < |ss[1..]| ensures StepOk(ss[1..][k], k == |ss[1..]| - 1) {
          assert ss[1..][k] == ss[k + 1];
        }
      }
      KeptIsSubsequence(parts[n..]);
      var rest := Kept(ss[1..]);
      if ss[0].Keep? {
        assert Kept(ss) == [parts[0]] + rest;
        assert ([parts[0]] + rest)[1..] == rest;
      } else {
        assert Kept(ss) == rest;
        SubsequenceOfAppend(rest, parts[n..], parts[..n]);
        assert parts[..n] + parts[n..] == parts;
      }
    }
  }

  /** No override was recorded exactly when every token stayed in the payload. */
  lemma {:induction false} NoOverrideKeepsAll(parts: seq<string>)
    ensures LastOverride(Steps(parts)) == None <==> Kept(Steps(parts)) == parts
    decreases |parts|
  {
    if |parts| > 0 {
      var ss := Steps(parts);
      var n := |StepTokens(ss[0])|;
      assert parts == StepTokens(ss[0]) + Tokens(ss[1..]);
      assert parts[n..] == Tokens(ss[1..]);
      assert Steps(parts[n..]) == ss[1..] by {
        StepsOfTokens(ss[1..]) by {
          forall k | 0 <= k < |ss[1..]| ensures StepOk(ss[1..][k], k == |ss[1..]| - 1) {
            assert ss[1..][k] == ss[k + 1];
          }
        }
      }
      NoOverrideKeepsAll(parts[n..]);
      KeptIsSubsequence(parts[n..]);
      if !ss[0].Keep? {
        assert |Kept(ss)| < |parts|;
      }
    }
  }

  lemma {:induction false} TokensAppend(a: seq<Step>, b: seq<Step>)
    ensures Tokens(a + b) == Tokens(a) + Tokens(b)
    decreases |a|
  {
    if |a| > 0 {
      assert (a + b)[1..] == a[1..] + b;
      TokensAppend(a[1..], b);
    } else {
      assert a + b == b;
    }
  }

  /** Steps that may stand anywhere, followed by one final step: the scan
      finds exactly those steps again. */
  lemma AppendStep(pre: seq<Step>, s: Step)
    requires forall k :: 0 <= k < |pre| ==> StepOk(pre[k], false)
    requires StepOk(s, true)
    ensures Steps(Tokens(pre) + StepTokens(s)) == pre + [s]
    ensures Kept(Steps(Tokens(pre) + StepTokens(s))) == Kept(pre) + Kept([s])
    ensures LastOverride(Steps(Tokens(pre) + StepTokens(s))) == Later(LastOverride(pre), Override(s))
  {
    var ss := pre + [s];
    assert WellFormed(ss) by {
      forall k | 0 <= k < |ss| ensures StepOk(ss[k], k == |ss| - 1) {
        if k < |pre| {
          assert ss[k] == pre[k];
        }
      }
    }
    assert Tokens([s]) == StepTokens(s);
    ScanConcat(pre, [s]);
  }

  /** A flag with no token after it is not an override: it stays in the
      payload and leaves the recorded override as it was. */
  lemma TrailingFlagStays(pre: seq<Step>, flag: string)
    requires IsFlag(flag)
    requires forall k :: 0 <= k < |pre| ==> StepOk(pre[k], false)
    ensures Steps(Tokens(pre) + [flag]) == pre + [Keep(flag)]
    ensures Kept(Steps(Tokens(pre) + [flag])) == Kept(pre) + [flag]
    ensures LastOverride(Steps(Tokens(pre) + [flag])) == LastOverride(pre)
  {
    assert !StartsWith(flag, InlinePrefix);
    AppendStep(pre, Keep(flag));
  }

  /** A final `--output=` records the empty string as the override, whatever
      came before it, and adds nothing to the payload. */
  lemma EmptyInlineLast(pre: seq<Step>)
    requires forall k :: 0 <= k < |pre| ==> StepOk(pre[k], false)
    ensures Kept(Steps(Tokens(pre) + [InlinePrefix])) == Kept(pre)
    ensures LastOverride(Steps(Tokens(pre) + [InlinePrefix])) == Some([])
  {
    assert StepTokens(Inline([])) == [InlinePrefix] by {
      var prefix := InlinePrefix;
      assert prefix + [] == prefix;
    }
    AppendStep(pre, Inline([]));
  }

  /** Scanning the tokens of two well-formed groups of steps one after the
      other: the kept tokens are those of the first group then the second,
      and an override in the second group replaces any from the first. */
  lemma ScanConcat(s1: seq<Step>, s2: seq<Step>)
    requires WellFormed(s1 + s2)
    ensures Steps(Tokens(s1) + Tokens(s2)) == s1 + s2
    ensures Kept(Steps(Tokens(s1) + Tokens(s2))) == Kept(s1) + Kept(s2)
    ensures LastOverride(Steps(Tokens(s1) + Tokens(s2))) == Later(LastOverride(s1), LastOverride(s2))
  {
    TokensAppend(s1, s2);
    StepsOfTokens(s1 + s2);
    KeptAppend(s1, s2);
    LastOverrideAppend(s1, s2);
  }

  /** A token that is neither a flag nor an `--output=` token. */
  predicate Plain(t: string) {
    !IsFlag(t) && !StartsWith(t, InlinePrefix)
  }

  /** Each token kept as it is. */
  function Keeps(ts: seq<string>): (ss: seq<Step>)
    ensures |ss| == |ts|
    ensures forall k :: 0 <= k < |ts| ==> ss[k] == Keep(ts[k])
  {
    seq(|ts|, k requires 0 <= k < |ts| => Keep(ts[k]))
  }

  /** Plain tokens are all kept, in order, and record no override. */
  lemma {:induction false} PlainTokens(ts: seq<string>)
    requires forall k :: 0 <= k < |ts| ==> Plain(ts[k])
    ensures Tokens(Keeps(ts)) == ts
    ensures Kept(Keeps(ts)) == ts
    ensures LastOverride(Keeps(ts)) == None
    ensures forall k :: 0 <= k < |ts| ==> StepOk(Keeps(ts)[k], false)
    decreases |ts|
  {
    if |ts| > 0 {
      var ss := Keeps(ts);
      assert ss[1..] == Keeps(ts[1..]);
      PlainTokens(ts[1..]);
      assert ts == [ts[0]] + ts[1..];
    }
  }

  /** Plain words followed by a flag and its value: the words are the
      payload and the value is the override. */
  lemma WordsThenFlagValue(words: seq<string>, flag: string, name: string)
    requires IsFlag(flag)
    requires forall k :: 0 <= k < |words| ==> Plain(words[k])
    ensures Kept(Steps(words + [flag, name])) == words
    ensures LastOverride(Steps(words + [flag, name])) == Some(name)
  {
    PlainTokens(words);
    assert StepTokens(FlagValue(flag, name)) == [flag, name];
    AppendStep(Keeps(words), FlagValue(flag, name));
  }

  /** The scan of `parts` from index `i` on: the step at `i`, then the scan
      from wherever that step leaves the index. */
  lemma ScanAt(parts: seq<string>, i: int)
    requires 0 <= i < |parts|
    ensures var front := FrontStep(parts[i..]);
      && Steps(parts[i..]) == [front.0] + Steps(parts[i + front.1..])
      && front == (
        if parts[i] == ShortFlag && i + 1 < |parts| then (FlagValue(parts[i], parts[i + 1]), 2)
        else if StartsWith(parts[i], InlinePrefix) then (Inline(parts[i][|InlinePrefix|..]), 1)
        else if parts[i] == LongFlag && i + 1 < |parts| then (FlagValue(parts[i], parts[i + 1]), 2)
        else (Keep(parts[i]), 1))
  {
    StepsAt(parts, i);
    assert parts[i..][0] == parts[i];
    if StartsWith(parts[i], InlinePrefix) {
      InlineValue(parts[i]);
    }
  }

  /** The scan from index `i` takes one step, then scans the rest. */
  lemma StepsAt(parts: seq<string>, i: int)
    requires 0 <= i < |parts|
    ensures var front := FrontStep(parts[i..]);
      Steps(parts[i..]) == [front.0] + Steps(parts[i + front.1..])
  {
    var front := FrontStep(parts[i..]);
    assert parts[i..][front.1..] == parts[i + front.1..];
  }

  /** The loop state after the scan has reached index `i`: what remains to be
      scanned accounts exactly for the rest of the kept tokens and the override. */
  ghost predicate Scanned(parts: seq<string>, i: int, kept: seq<string>, override: Option<string>) {
    && 0 <= i <= |parts|
    && Kept(Steps(parts)) == kept + Kept(Steps(parts[i..]))
    && LastOverride(Steps(parts)) == Later(override, LastOverride(Steps(parts[i..])))
  }

  /** One pass of the loop body keeps the loop state consistent. */
  lemma ScanAdvance(parts: seq<string>, i: int, kept: seq<string>, override: Option<string>)
    requires Scanned(parts, i, kept, override) && i < |parts|
    ensures var front := FrontStep(parts[i..]);
      Scanned(parts, i + front.1,
        if front.0.Keep? then kept + [front.0.token] else kept,
        Later(override, Override(front.0)))
  {
    var front := FrontStep(parts[i..]);
    StepsAt(parts, i);
    AdvanceOne(Steps(parts), Steps(parts[i..]), front.0, Steps(parts[i + front.1..]), kept, override);
  }

  /** The loop state algebra: taking step `s` off the front of what remains. */
  lemma AdvanceOne(all: seq<Step>, here: seq<Step>, s: Step, rest: seq<Step>, kept: seq<string>, override: Option<string>)
    requires here == [s] + rest
    requires Kept(all) == kept + Kept(here)
    requires LastOverride(all) == Later(override, LastOverride(here))
    ensures Kept(all) == (if s.Keep? then kept + [s.token] else kept) + Kept(rest)
    ensures LastOverride(all) == Later(Later(override, Override(s)), LastOverride(rest))
  {
    var step := if s.Keep? then [s.token] else [];
    ConsStep(s, rest);
    assert kept + (step + Kept(rest)) == (kept + step) + Kept(rest);
    LaterAssociative(override, Override(s), LastOverride(rest));
  }

  /** What one step in front adds to the kept tokens and the override. */
  lemma ConsStep(s: Step, rest: seq<Step>)
    ensures Kept([s] + rest) == (if s.Keep? then [s.token] else []) + Kept(rest)
    ensures LastOverride([s] + rest) == Later(Override(s), LastOverride(rest))
  {
    assert ([s] + rest)[1..] == rest;
  }

  /** The loop at lines 84-104 of the script, statement for statement: the
      index moves by one or two, each override form overwrites
      `output_override`, every other token is appended to the kept list. */
  method ScanOverrides(parts: seq<string>) returns (newParts: seq<string>, outputOverride: Option<string>)
    ensures newParts == Kept(Steps(parts))
    ensures outputOverride == LastOverride(Steps(parts))
  {
    newParts := [];
    outputOverride := None;
    var i := 0;
    while i < |parts|
      invariant Scanned(parts, i, newParts, outputOverride)
      decreases |parts| - i
    {
      var tok := parts[i];
      ScanAt(parts, i);
      ScanAdvance(parts, i, newParts, outputOverride);
      if tok == ShortFlag && i + 1 < |parts| {
        outputOverride := Some(parts[i + 1]);
        i := i + 2;
        continue;
      }
      if StartsWith(tok, InlinePrefix) {
        InlineValue(tok);
        outputOverride := Some(AfterFirst(tok, '='));
        i := i + 1;
        continue;
      }
      if tok == LongFlag && i + 1 < |parts| {
        outputOverride := Some(parts[i + 1]);
        i := i + 2;
        continue;
      }
      newParts := newParts + [tok];
      i := i + 1;
    }
    assert parts[i..] == [];
  }
}
