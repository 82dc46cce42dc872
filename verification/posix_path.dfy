/** The POSIX flavour of Python's `os.path` functions the generator calls:
    `splitext`, `dirname` and `join`, with `/` as the only separator. */
module PosixPath {
  import opened PyStr

  const Sep: char := '/'
  const ExtSep: char := '.'

  /** The final path component: everything after the last separator. */
  function Basename(p: string): (b: string)
    ensures Sep !in b
    ensures |b| <= |p|
  {
    var i := RFind(p, Sep) + 1;
    assert forall k :: 0 <= k < |p[i..]| ==> p[i..][k] == p[i + k];
    p[i..]
  }

  /** A separator-free suffix belongs to the final component. */
  lemma BasenameAppend(p: string, t: string)
    requires Sep !in t
    ensures Basename(p + t) == Basename(p) + t
  {
    RFindAppend(p, t, Sep);
    var i := RFind(p, Sep) + 1;
    assert (p + t)[i..] == p[i..] + t;
  }

  /** A path without a separator is its own final component. */
  lemma BasenameWhole(p: string)
    requires Sep !in p
    ensures Basename(p) == p
  {
    RFindIsLast(p, Sep, -1);
  }

  /** Everything after a directory prefix that ends in a separator. */
  lemma BasenameUnder(dir: string, name: string)
    requires Sep !in name
    ensures Basename(dir + [Sep] + name) == name
  {
    var p := dir + [Sep] + name;
    assert p[|dir|] == Sep;
    forall k | |dir| < k < |p| ensures p[k] != Sep {
      assert p[k] == name[k - |dir| - 1];
    }
    RFindIsLast(p, Sep, |dir|);
    assert p[|dir| + 1..] == name;
  }

  /** Some character other than a dot. */
  ghost predicate HasNonDot(name: string) {
    exists k :: 0 <= k < |name| && name[k] != ExtSep
  }

  /** A non-dot character followed, somewhere later, by a dot: the shape of
      a file name that POSIX `splitext` credits with an extension (leading
      dots mark a hidden file, not an extension). */
  ghost predicate DottedName(name: string) {
    exists i, j :: 0 <= i < j < |name| && name[i] != ExtSep && name[j] == ExtSep
  }

  /** Every character of `p` from `lo` up to (not including) `hi` is a dot. */
  predicate DotsBetween(p: string, lo: int, hi: int)
    requires 0 <= lo <= hi <= |p|
  {
    forall k :: lo <= k < hi ==> p[k] == ExtSep
  }

  /** `os.path.splitext(p)`: the extension runs from the last dot of the
      final component to the end, provided a non-dot character precedes
      that dot within the component; otherwise it is empty. */
  function SplitExt(p: string): (parts: (string, string))
    ensures parts.0 + parts.1 == p
  {
    var sepIndex := RFind(p, Sep);
    var dotIndex := RFind(p, ExtSep);
    if dotIndex > sepIndex && !DotsBetween(p, sepIndex + 1, dotIndex) then
      (p[..dotIndex], p[dotIndex..])
    else
      (p, [])
  }

  /** A non-empty extension is one dot followed by neither a dot nor a separator. */
  lemma ExtensionShape(p: string)
    ensures var ext := SplitExt(p).1;
      ext != [] ==> ext[0] == ExtSep && Sep !in ext && ExtSep !in ext[1..]
  {
    var ext := SplitExt(p).1;
    if ext == [] {
      return;
    }
    var sepIndex := RFind(p, Sep);
    var dotIndex := RFind(p, ExtSep);
    assert ext == p[dotIndex..];
    forall m | 0 <= m < |ext| ensures ext[m] != Sep && (m > 0 ==> ext[m] != ExtSep) {
      assert ext[m] == p[dotIndex + m];
    }
    assert forall m :: 0 <= m < |ext[1..]| ==> ext[1..][m] == ext[m + 1];
  }

  /** `splitext` finds an extension exactly when the final component has a
      non-dot character followed later by a dot. */
  lemma HasExtensionIff(p: string)
    ensures SplitExt(p).1 != [] <==> DottedName(Basename(p))
  {
    if SplitExt(p).1 != [] {
      ExtensionIsDotted(p);
    }
    if DottedName(Basename(p)) {
      DottedHasExtension(p);
    }
  }

  lemma ExtensionIsDotted(p: string)
    requires SplitExt(p).1 != []
    ensures DottedName(Basename(p))
  {
    var sepIndex := RFind(p, Sep);
    var dotIndex := RFind(p, ExtSep);
    assert dotIndex > sepIndex && !DotsBetween(p, sepIndex + 1, dotIndex);
    var k :| sepIndex + 1 <= k < dotIndex && p[k] != ExtSep;
    DottedAt(p, k, dotIndex);
  }

  /** A non-dot and a later dot after the last separator make the final
      component a dotted name. */
  lemma DottedAt(p: string, i: int, j: int)
    requires RFind(p, Sep) < i < j < |p|
    requires p[i] != ExtSep && p[j] == ExtSep
    ensures DottedName(Basename(p))
  {
    var start := RFind(p, Sep) + 1;
    var b := Basename(p);
    assert b == p[start..];
    assert b[i - start] == p[i];
    assert b[j - start] == p[j];
    DottedWitness(b, i - start, j - start);
  }

  lemma DottedWitness(name: string, i: int, j: int)
    requires 0 <= i < j < |name| && name[i] != ExtSep && name[j] == ExtSep
    ensures DottedName(name)
  {
  }

  lemma DottedHasExtension(p: string)
    requires DottedName(Basename(p))
    ensures SplitExt(p).1 != []
  {
    var sepIndex := RFind(p, Sep);
    var dotIndex := RFind(p, ExtSep);
    var b := Basename(p);
    assert b == p[sepIndex + 1..];
    var i, j :| 0 <= i < j < |b| && b[i] != ExtSep && b[j] == ExtSep;
    assert p[sepIndex + 1 + j] == b[j];
    assert p[sepIndex + 1 + i] == b[i];
    assert sepIndex + 1 + j <= dotIndex;
    assert !DotsBetween(p, sepIndex + 1, dotIndex);
  }

  /** A name with an extension has a non-dot character. */
  lemma DottedHasNonDot(name: string)
    requires DottedName(name)
    ensures HasNonDot(name)
  {
  }

  /** `s.rstrip(c)`: `s` without its trailing run of `c`. */
  function RStripChar(s: string, c: char): (r: string)
    ensures |r| <= |s| && r == s[..|r|]
    ensures forall k :: |r| <= k < |s| ==> s[k] == c
    ensures |r| > 0 ==> r[|r| - 1] != c
    decreases |s|
  {
    if |s| == 0 || s[|s| - 1] != c then s else RStripChar(s[..|s| - 1], c)
  }

  predicate AllSeparators(s: string) {
    forall k :: 0 <= k < |s| ==> s[k] == Sep
  }

  /** `os.path.dirname(p)`: the text up to and including the last separator,
      with trailing separators removed unless it consists only of them. */
  function Dirname(p: string): (d: string)
    ensures d == [] <==> Sep !in p
    ensures |d| <= |p| && d == p[..|d|]
    ensures Sep in p && !AllSeparators(d) ==> d[|d| - 1] != Sep
    ensures |d| <= |p| - |Basename(p)| && AllSeparators(p[|d|..|p| - |Basename(p)|])
    ensures AllSeparators(d) ==> d == p[..|p| - |Basename(p)|]
  {
    var i := RFind(p, Sep) + 1;
    assert |Basename(p)| == |p| - i;
    var head := p[..i];
    if head != [] && !AllSeparators(head) then
      var r := RStripChar(head, Sep);
      SeparatorsBetween(p, |r|, i);
      r
    else
      assert head == [] ==> Sep !in p;
      assert head != [] ==> head[|head| - 1] == Sep;
      assert p[i..i] == [];
      head
  }

  /** Separators from `lo` up to `hi` make a slice of separators. */
  lemma SeparatorsBetween(p: string, lo: int, hi: int)
    requires 0 <= lo <= hi <= |p|
    requires forall k :: lo <= k < hi ==> p[k] == Sep
    ensures AllSeparators(p[lo..hi])
  {
    assert forall m :: 0 <= m < hi - lo ==> p[lo..hi][m] == p[lo + m];
  }

  /** The directory of a name placed under a plain directory name is that directory. */
  lemma DirnameUnder(dir: string, name: string)
    requires dir != [] && Sep !in dir
    requires Sep !in name
    ensures Dirname(dir + [Sep] + name) == dir
  {
    var p := dir + [Sep] + name;
    forall k | |dir| < k < |p| ensures p[k] != Sep {
      assert p[k] == name[k - |dir| - 1];
    }
    RFindIsLast(p, Sep, |dir|);
    var head := p[..|dir| + 1];
    assert head == dir + [Sep];
    assert head[0] == dir[0] && dir[0] != Sep;
    var r := RStripChar(head, Sep);
    assert r == RStripChar(dir, Sep);
    assert dir[|dir| - 1] != Sep;
  }

  /** Joining a plain directory name and a plain file name puts one
      separator between them, and `dirname` recovers the directory. */
  lemma JoinUnder(dir: string, name: string)
    requires dir != [] && Sep !in dir
    requires Sep !in name
    ensures JoinPath(dir, name) == dir + [Sep] + name
    ensures Dirname(JoinPath(dir, name)) == dir
  {
    assert dir[|dir| - 1] != Sep;
    DirnameUnder(dir, name);
  }

  /** `os.path.join(a, b)` for two components. */
  function JoinPath(a: string, b: string): (r: string)
    ensures !StartsWith(b, [Sep]) && a != [] && a[|a| - 1] != Sep ==> r == a + [Sep] + b
  {
    if StartsWith(b, [Sep]) then b
    else if a == [] || a[|a| - 1] == Sep then a + b
    else a + [Sep] + b
  }
}
