/** The Python `str` built-ins the generator relies on: `isspace`, `strip()`,
    `split()`, `" ".join`, `startswith`, `rfind` and `split(sep, 1)`. */
module PyStr {

  /** `c.isspace()`: the ASCII whitespace characters, the information
      separators U+001C..U+001F, and the Unicode space and line separators. */
  predicate IsSpace(c: char) {
    var n := c as int;
    || 9 <= n <= 13
    || 28 <= n <= 32
    || n == 0x85 || n == 0xA0 || n == 0x1680
    || 0x2000 <= n <= 0x200A
    || n == 0x2028 || n == 0x2029 || n == 0x202F || n == 0x205F || n == 0x3000
  }

  predicate StartsWith(s: string, prefix: string) {
    |prefix| <= |s| && s[..|prefix|] == prefix
  }

  /** A word as `split()` produces it: non-empty, no whitespace inside. */
  ghost predicate IsWord(w: string) {
    |w| > 0 && forall k :: 0 <= k < |w| ==> !IsSpace(w[k])
  }

  /** `s.rfind(c)`: the index of the last occurrence of `c`, or -1. */
  function RFind(s: string, c: char): (r: int)
    ensures -1 <= r < |s|
    ensures 0 <= r ==> s[r] == c
    ensures forall k :: r < k < |s| ==> s[k] != c
    decreases |s|
  {
    if |s| == 0 then -1
    else if s[|s| - 1] == c then |s| - 1
    else RFind(s[..|s| - 1], c)
  }

  /** The last occurrence is determined by the string: any index that holds
      `c` with no `c` after it is what `rfind` returns. */
  lemma RFindIsLast(s: string, c: char, i: int)
    requires -1 <= i < |s|
    requires 0 <= i ==> s[i] == c
    requires forall k :: i < k < |s| ==> s[k] != c
    ensures RFind(s, c) == i
  {
  }

  /** Appending text that does not contain `c` leaves its last occurrence where it was. */
  lemma RFindAppend(s: string, t: string, c: char)
    requires c !in t
    ensures RFind(s + t, c) == RFind(s, c)
  {
    var r := RFind(s, c);
    forall k | r < k < |s + t|
      ensures (s + t)[k] != c
    {
      if k < |s| {
        assert (s + t)[k] == s[k];
      } else {
        assert (s + t)[k] == t[k - |s|];
      }
    }
    if 0 <= r {
      assert (s + t)[r] == s[r];
    }
    RFindIsLast(s + t, c, r);
  }

  /** The index of the first occurrence of `c`, which must occur. */
  function FirstIndex(s: string, c: char): (i: nat)
    requires c in s
    ensures i < |s| && s[i] == c
    ensures forall k :: 0 <= k < i ==> s[k] != c
    decreases |s|
  {
    if s[0] == c then 0 else 1 + FirstIndex(s[1..], c)
  }

  /** `s.split(sep, 1)[1]` for a one-character separator that occurs in `s`:
      everything after its first occurrence. */
  function AfterFirst(s: string, sep: char): (r: string)
    requires sep in s
    ensures |r| < |s|
  {
    s[FirstIndex(s, sep) + 1..]
  }

  /** Number of leading whitespace characters. */
  function LeadingSpace(s: string): (n: nat)
    ensures n <= |s|
    ensures forall k :: 0 <= k < n ==> IsSpace(s[k])
    ensures n < |s| ==> !IsSpace(s[n])
    decreases |s|
  {
    if |s| == 0 || !IsSpace(s[0]) then 0 else 1 + LeadingSpace(s[1..])
  }

  /** Index where the trailing whitespace run begins. */
  function TrailingSpaceStart(s: string): (n: nat)
    ensures n <= |s|
    ensures forall k :: n <= k < |s| ==> IsSpace(s[k])
    ensures 0 < n ==> !IsSpace(s[n - 1])
    decreases |s|
  {
    if |s| == 0 || !IsSpace(s[|s| - 1]) then |s| else TrailingSpaceStart(s[..|s| - 1])
  }

  /** `r` is `s` with whitespace removed from both ends and nothing else:
      a slice of `s` with only whitespace outside it, and no whitespace at its own ends. */
  ghost predicate StrippedFrom(r: string, s: string) {
    exists i, j :: 0 <= i <= j <= |s| && r == s[i..j]
      && (forall k :: 0 <= k < i ==> IsSpace(s[k]))
      && (forall k :: j <= k < |s| ==> IsSpace(s[k]))
      && (i < j ==> !IsSpace(s[i]) && !IsSpace(s[j - 1]))
  }

  /** `s.strip()` with no argument. */
  function Strip(s: string): (r: string)
    ensures |r| <= |s|
    ensures |r| > 0 ==> !IsSpace(r[0]) && !IsSpace(r[|r| - 1])
  {
    var t := s[LeadingSpace(s)..];
    t[..TrailingSpaceStart(t)]
  }

  /** What `strip()` removes is whitespace, from the two ends only; it is
      empty exactly when `s` is all whitespace. */
  lemma StripSlice(s: string)
    ensures StrippedFrom(Strip(s), s)
    ensures Strip(s) == [] <==> forall k :: 0 <= k < |s| ==> IsSpace(s[k])
  {
    var i := LeadingSpace(s);
    var t := s[i..];
    var n := TrailingSpaceStart(t);
    var j := i + n;
    assert Strip(s) == s[i..j];
    forall k | j <= k < |s| ensures IsSpace(s[k]) {
      assert s[k] == t[k - i];
    }
    if i < j {
      assert s[j - 1] == t[n - 1];
    }
  }

  /** A string that already has no whitespace at either end is left alone. */
  lemma StripTrimmed(s: string)
    requires |s| > 0 ==> !IsSpace(s[0]) && !IsSpace(s[|s| - 1])
    ensures Strip(s) == s
  {
    assert LeadingSpace(s) == 0;
    assert s[0..] == s;
    assert TrailingSpaceStart(s) == |s|;
  }

  /** `strip()` is idempotent. */
  lemma StripIdempotent(s: string)
    ensures Strip(Strip(s)) == Strip(s)
  {
    StripTrimmed(Strip(s));
  }

  /** Length of the word at the front of `s`. */
  function WordLength(s: string): (n: nat)
    requires |s| > 0 && !IsSpace(s[0])
    ensures 1 <= n <= |s|
    ensures forall k :: 0 <= k < n ==> !IsSpace(s[k])
    ensures n < |s| ==> IsSpace(s[n])
    decreases |s|
  {
    if |s| == 1 || IsSpace(s[1]) then 1 else 1 + WordLength(s[1..])
  }

  /** `s.split()` with no argument: the maximal runs of non-whitespace, in order. */
  function Split(s: string): (ws: seq<string>)
    ensures forall k :: 0 <= k < |ws| ==> IsWord(ws[k])
    decreases |s|
  {
    if |s| == 0 then []
    else if IsSpace(s[0]) then Split(s[1..])
    else
      var n := WordLength(s);
      [s[..n]] + Split(s[n..])
  }

  /** `" ".join(ts)`. */
  function JoinSpaced(ts: seq<string>): (r: string)
    decreases |ts|
  {
    if |ts| == 0 then ""
    else if |ts| == 1 then ts[0]
    else ts[0] + " " + JoinSpaced(ts[1..])
  }

  ghost predicate AllSpace(g: string) {
    forall k :: 0 <= k < |g| ==> IsSpace(g[k])
  }

  /** `gaps[0] + ws[0] + gaps[1] + ... + ws[n - 1] + gaps[n]`. */
  function Weave(gaps: seq<string>, ws: seq<string>): string
    requires |gaps| == |ws| + 1
    decreases |ws|
  {
    if |ws| == 0 then gaps[0] else gaps[0] + ws[0] + Weave(gaps[1..], ws[1..])
  }

  /** Whitespace gaps around `n` words: the two outer gaps may be empty, the
      `n - 1` inner ones may not. */
  ghost predicate SpaceGaps(gaps: seq<string>, n: nat) {
    && |gaps| == n + 1
    && (forall k :: 0 <= k < |gaps| ==> AllSpace(gaps[k]))
    && (forall k :: 0 < k < n ==> |gaps[k]| > 0)
  }

  /** `s` is the words `ws`, in order, separated and surrounded by whitespace. */
  ghost predicate SpacedWords(s: string, ws: seq<string>) {
    && (forall k :: 0 <= k < |ws| ==> IsWord(ws[k]))
    && exists gaps :: SpaceGaps(gaps, |ws|) && s == Weave(gaps, ws)
  }

  /** `split()` returns exactly the words that make up `s` between whitespace:
      no other list of words has that shape. */
  lemma SplitExactly(s: string, ws: seq<string>)
    ensures Split(s) == ws <==> SpacedWords(s, ws)
  {
    SplitIsSpacedWords(s);
    if SpacedWords(s, ws) {
      var gaps :| SpaceGaps(gaps, |ws|) && s == Weave(gaps, ws);
      SplitWeave(gaps, ws);
    }
  }

  lemma {:induction false} SplitIsSpacedWords(s: string)
    ensures SpacedWords(s, Split(s))
    decreases |s|
  {
    if |s| == 0 {
      var gaps: seq<string> := [""];
      assert SpaceGaps(gaps, 0) && s == Weave(gaps, []);
    } else if IsSpace(s[0]) {
      SplitIsSpacedWords(s[1..]);
      SpacedAfterSpace(s[0], s[1..], Split(s[1..]));
      assert s == [s[0]] + s[1..];
    } else {
      var n := WordLength(s);
      SplitIsSpacedWords(s[n..]);
      SpacedAfterWord(s[..n], s[n..], Split(s[n..]));
      assert s == s[..n] + s[n..];
    }
  }

  /** One more whitespace character in front keeps the words. */
  lemma SpacedAfterSpace(c: char, x: string, ws: seq<string>)
    requires IsSpace(c) && SpacedWords(x, ws)
    ensures SpacedWords([c] + x, ws)
  {
    var g :| SpaceGaps(g, |ws|) && x == Weave(g, ws);
    var gaps := [[c] + g[0]] + g[1..];
    WeaveFrontGap([c], g, ws);
    assert SpaceGaps(gaps, |ws|) by {
      forall k | 0 <= k < |gaps| ensures AllSpace(gaps[k]) {
        if k > 0 {
          assert gaps[k] == g[k];
        }
      }
    }
  }

  /** A word in front of whitespace (or of nothing) is one more word. */
  lemma SpacedAfterWord(w: string, rest: string, ws: seq<string>)
    requires IsWord(w) && SpacedWords(rest, ws)
    requires |rest| > 0 ==> IsSpace(rest[0])
    requires rest == [] ==> ws == []
    ensures SpacedWords(w + rest, [w] + ws)
  {
    var g :| SpaceGaps(g, |ws|) && rest == Weave(g, ws);
    if |ws| > 0 {
      FirstGapNonEmpty(g, ws);
    }
    var gaps := [""] + g;
    var all := [w] + ws;
    assert gaps[1..] == g && all[1..] == ws && all[0] == w;
    assert w + rest == Weave(gaps, all);
    assert SpaceGaps(gaps, |all|) by {
      forall k | 0 <= k < |gaps| ensures AllSpace(gaps[k]) && (0 < k < |all| ==> |gaps[k]| > 0) {
        if k > 0 {
          assert gaps[k] == g[k - 1];
        }
      }
    }
    assert forall k :: 0 <= k < |all| ==> IsWord(all[k]) by {
      forall k | 0 <= k < |all| ensures IsWord(all[k]) {
        if k > 0 {
          assert all[k] == ws[k - 1];
        }
      }
    }
  }

  /** A weave that starts with whitespace has a non-empty first gap. */
  lemma FirstGapNonEmpty(gaps: seq<string>, ws: seq<string>)
    requires |gaps| == |ws| + 1 && |ws| > 0 && IsWord(ws[0])
    requires |Weave(gaps, ws)| > 0 && IsSpace(Weave(gaps, ws)[0])
    ensures |gaps[0]| > 0
  {
    assert Weave(gaps, ws) == gaps[0] + ws[0] + Weave(gaps[1..], ws[1..]);
  }

  /** Extra text at the front of the first gap comes first in the weave. */
  lemma WeaveFrontGap(a: string, gaps: seq<string>, ws: seq<string>)
    requires |gaps| == |ws| + 1
    ensures Weave([a + gaps[0]] + gaps[1..], ws) == a + Weave(gaps, ws)
  {
    var g2 := [a + gaps[0]] + gaps[1..];
    assert g2[0] == a + gaps[0] && g2[1..] == gaps[1..];
  }

  lemma {:induction false} SplitWeave(gaps: seq<string>, ws: seq<string>)
    requires SpaceGaps(gaps, |ws|)
    requires forall k :: 0 <= k < |ws| ==> IsWord(ws[k])
    ensures Split(Weave(gaps, ws)) == ws
    decreases |ws|
  {
    if |ws| == 0 {
      SplitSpacesThen(gaps[0], "");
      assert gaps[0] + "" == gaps[0];
    } else {
      var rest := Weave(gaps[1..], ws[1..]);
      assert Weave(gaps, ws) == gaps[0] + (ws[0] + rest);
      SplitSpacesThen(gaps[0], ws[0] + rest);
      if |ws| > 1 {
        assert rest == gaps[1] + ws[1] + Weave(gaps[2..], ws[2..]);
        assert |gaps[1]| > 0 && AllSpace(gaps[1]);
        assert rest[0] == gaps[1][0];
      } else {
        assert rest == gaps[1] && AllSpace(gaps[1]);
      }
      SplitWordThen(ws[0], rest);
      assert SpaceGaps(gaps[1..], |ws| - 1) by {
        forall k | 0 <= k < |gaps[1..]| ensures AllSpace(gaps[1..][k]) {
          assert gaps[1..][k] == gaps[k + 1];
        }
        forall k | 0 < k < |ws| - 1 ensures |gaps[1..][k]| > 0 {
          assert gaps[1..][k] == gaps[k + 1];
        }
      }
      assert forall k :: 0 <= k < |ws[1..]| ==> ws[1..][k] == ws[k + 1];
      SplitWeave(gaps[1..], ws[1..]);
      assert ws == [ws[0]] + ws[1..];
    }
  }

  /** Leading whitespace does not show in the split, however long. */
  lemma {:induction false} SplitSpacesThen(g: string, x: string)
    requires AllSpace(g)
    ensures Split(g + x) == Split(x)
    decreases |g|
  {
    if |g| == 0 {
      assert g + x == x;
    } else {
      assert (g + x)[0] == g[0] && IsSpace(g[0]);
      assert (g + x)[1..] == g[1..] + x;
      assert AllSpace(g[1..]) by {
        forall k | 0 <= k < |g[1..]| ensures IsSpace(g[1..][k]) {
          assert g[1..][k] == g[k + 1];
        }
      }
      SplitSpacesThen(g[1..], x);
    }
  }

  /** The gaps of a single-space join: empty at both ends, one space inside. */
  function SingleSpaces(n: nat): (gaps: seq<string>)
    ensures |gaps| == n + 1
  {
    seq(n + 1, k requires 0 <= k <= n => if k == 0 || k == n then "" else " ")
  }

  /** `" ".join(ts)` is the items in order, exactly one space between
      neighbours and nothing at either end. */
  lemma {:induction false} JoinSpacedWeave(ts: seq<string>)
    ensures JoinSpaced(ts) == Weave(SingleSpaces(|ts|), ts)
    decreases |ts|
  {
    var n := |ts|;
    var gaps := SingleSpaces(n);
    if n == 1 {
      assert gaps[0] == "" && gaps[1..] == [""] && ts[1..] == [];
      assert Weave(gaps[1..], ts[1..]) == "";
      assert Weave(gaps, ts) == "" + ts[0] + "";
    } else if n > 1 {
      JoinSpacedWeave(ts[1..]);
      var inner := SingleSpaces(n - 1);
      var space: string := " ";
      assert inner[0] == "" && space + inner[0] == space;
      assert forall k :: 1 <= k < |inner| ==> gaps[1..][k] == gaps[k + 1] == inner[k];
      assert gaps[1..] == [space + inner[0]] + inner[1..];
      WeaveFrontGap(" ", inner, ts[1..]);
      assert Weave(gaps, ts) == "" + ts[0] + (" " + JoinSpaced(ts[1..]));
    }
  }

  /** Splitting a space-joined list of words gives the words back. */
  lemma {:induction false} SplitJoin(ws: seq<string>)
    requires forall k :: 0 <= k < |ws| ==> IsWord(ws[k])
    ensures Split(JoinSpaced(ws)) == ws
    decreases |ws|
  {
    if |ws| == 1 {
      SplitWordThen(ws[0], []);
      assert ws[0] + [] == ws[0];
    } else if |ws| > 1 {
      var tail := JoinSpaced(ws[1..]);
      assert JoinSpaced(ws) == ws[0] + (" " + tail);
      SplitWordThen(ws[0], " " + tail);
      SplitSpaceThen(tail);
      assert forall k :: 0 <= k < |ws[1..]| ==> ws[1..][k] == ws[k + 1];
      SplitJoin(ws[1..]);
      assert ws == [ws[0]] + ws[1..];
    }
  }

  /** Two runs of words joined as one line split back into both runs. */
  lemma SplitJoinAppend(ws: seq<string>, more: seq<string>)
    requires forall k :: 0 <= k < |ws| ==> IsWord(ws[k])
    requires forall k :: 0 <= k < |more| ==> IsWord(more[k])
    ensures Split(JoinSpaced(ws + more)) == ws + more
  {
    var all := ws + more;
    forall k | 0 <= k < |all| ensures IsWord(all[k]) {
      if k < |ws| {
        assert all[k] == ws[k];
      } else {
        assert all[k] == more[k - |ws|];
      }
    }
    SplitJoin(all);
  }

  /** Words joined by single spaces begin and end with a word character. */
  lemma {:induction false} JoinSpacedEnds(ws: seq<string>)
    requires |ws| > 0
    requires forall k :: 0 <= k < |ws| ==> IsWord(ws[k])
    ensures var j := JoinSpaced(ws); var last := ws[|ws| - 1];
      |ws[0]| > 0 && |last| > 0 && |j| > 0 &&
      j[0] == ws[0][0] && j[|j| - 1] == last[|last| - 1]
    decreases |ws|
  {
    assert IsWord(ws[0]) && IsWord(ws[|ws| - 1]);
    if |ws| > 1 {
      var tail := JoinSpaced(ws[1..]);
      assert IsWord(ws[1..][0]) && ws[1..][|ws| - 2] == ws[|ws| - 1];
      assert forall k :: 0 <= k < |ws[1..]| ==> ws[1..][k] == ws[k + 1];
      JoinSpacedEnds(ws[1..]);
      assert JoinSpaced(ws) == ws[0] + (" " + tail);
    }
  }

  /** `strip()` leaves words joined by single spaces as they are. */
  lemma StripJoinedWords(ws: seq<string>)
    requires forall k :: 0 <= k < |ws| ==> IsWord(ws[k])
    ensures Strip(JoinSpaced(ws)) == JoinSpaced(ws)
  {
    if |ws| > 0 {
      JoinSpacedEnds(ws);
      var first, last := ws[0], ws[|ws| - 1];
      assert IsWord(first) && IsWord(last);
      assert |first| > 0 && |last| > 0;
      assert !IsSpace(first[0]) && !IsSpace(last[|last| - 1]);
    }
    StripTrimmed(JoinSpaced(ws));
  }

  /** A word followed by whitespace or nothing is the first item of the split. */
  lemma SplitWordThen(w: string, rest: string)
    requires IsWord(w)
    requires |rest| > 0 ==> IsSpace(rest[0])
    ensures Split(w + rest) == [w] + Split(rest)
  {
    var s := w + rest;
    assert s[0] == w[0];
    WordLengthOf(s, |w|);
    assert s[..|w|] == w;
    assert s[|w|..] == rest;
  }

  /** Leading whitespace does not show in the split. */
  lemma SplitSpaceThen(x: string)
    ensures Split(" " + x) == Split(x)
  {
    assert (" " + x)[1..] == x;
  }

  /** A run of non-whitespace ending at whitespace or at the end is the front word. */
  lemma WordLengthOf(s: string, n: nat)
    requires 1 <= n <= |s|
    requires forall k :: 0 <= k < n ==> !IsSpace(s[k])
    requires n < |s| ==> IsSpace(s[n])
    ensures WordLength(s) == n
  {
  }
}
