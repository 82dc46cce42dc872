/** Normalisation of the output file name: `ensure_extension` and the
    default-directory rule that follows it in `main`. */
module OutputPath {
  import opened PyStr
  import opened PosixPath

  const DefaultExt: string := ".png"
  const DefaultDir: string := "generated_png"

  /** An extension as `splitext` would report it: a leading dot, no separator,
      no further dot. */
  ghost predicate ExtensionShaped(ext: string) {
    |ext| > 0 && ext[0] == ExtSep && Sep !in ext && ExtSep !in ext[1..]
  }

  /** `ensure_extension(filename, default_ext)`: keep a name that already has an
      extension, otherwise append `defaultExt`. */
  function EnsureExtension(filename: string, defaultExt: string): (r: string)
    ensures DottedName(Basename(filename)) ==> r == filename
    ensures !DottedName(Basename(filename)) ==> r == filename + defaultExt
  {
    HasExtensionIff(filename);
    var ext := SplitExt(filename).1;
    if ext == [] then filename + defaultExt else filename
  }

  /** A final component of only dots (or none at all) with an extension-shaped
      suffix still has no extension. */
  lemma DottedAppend(name: string, ext: string)
    requires ExtensionShaped(ext)
    ensures DottedName(name + ext) <==> HasNonDot(name)
  {
    var s := name + ext;
    if HasNonDot(name) {
      var k :| 0 <= k < |name| && name[k] != ExtSep;
      assert s[k] == name[k];
      assert s[|name|] == ext[0];
      DottedWitness(s, k, |name|);
    }
    if DottedName(s) {
      var i, j :| 0 <= i < j < |s| && s[i] != ExtSep && s[j] == ExtSep;
      assert s[i] == name[i];
    }
  }

  /** `ensure_extension` is idempotent exactly when the final component of the
      name holds some character other than a dot. For an empty name, or one such as
      `dir/` or `..`, the appended suffix reads as a hidden-file name, not an
      extension, and a second application appends it again. */
  lemma {:induction false} EnsureExtensionIdempotent(filename: string, defaultExt: string)
    requires ExtensionShaped(defaultExt)
    ensures EnsureExtension(EnsureExtension(filename, defaultExt), defaultExt) == EnsureExtension(filename, defaultExt)
        <==> HasNonDot(Basename(filename))
  {
    var b := Basename(filename);
    if DottedName(b) {
      DottedHasNonDot(b);
    } else {
      BasenameAppend(filename, defaultExt);
      DottedAppend(b, defaultExt);
      var once := filename + defaultExt;
      if !HasNonDot(b) {
        assert |once + defaultExt| > |once|;
      }
    }
  }

  /** Only the final component decides: a name under a directory gets the
      same treatment as the name alone. */
  lemma EnsureExtensionUnder(dir: string, name: string, ext: string)
    requires Sep !in name
    ensures EnsureExtension(dir + [Sep] + name, ext) == dir + [Sep] + EnsureExtension(name, ext)
  {
    BasenameUnder(dir, name);
    BasenameWhole(name);
  }

  /** The default directory is a single plain component. */
  lemma DefaultDirPlain()
    ensures DefaultDir != [] && Sep !in DefaultDir
  {
  }

  /** The file to write and the directory that must exist for it. */
  datatype Target = Target(path: string, dir: string)

  /** Lines 117-125 of `main`: ensure the extension, then place a bare file name
      under the default directory; a name with a directory part is kept as given. */
  function NormalizeOutput(output: string): (t: Target)
    ensures t.dir != [] && Dirname(t.path) == t.dir
    ensures Sep in EnsureExtension(output, DefaultExt) ==> t.path == EnsureExtension(output, DefaultExt)
    ensures Sep !in EnsureExtension(output, DefaultExt) ==>
      t == Target(DefaultDir + [Sep] + EnsureExtension(output, DefaultExt), DefaultDir)
  {
    var out := EnsureExtension(output, DefaultExt);
    var dir := Dirname(out);
    if dir == [] then
      DefaultDirPlain();
      JoinUnder(DefaultDir, out);
      Target(JoinPath(DefaultDir, out), DefaultDir)
    else
      Target(out, dir)
  }

  /** Normalising an already normalised path changes nothing, exactly when the
      name's final component holds a non-dot character. */
  lemma {:induction false} NormalizeOutputIdempotent(output: string)
    ensures NormalizeOutput(NormalizeOutput(output).path) == NormalizeOutput(output)
        <==> HasNonDot(Basename(output))
  {
    var out := EnsureExtension(output, DefaultExt);
    EnsureExtensionIdempotent(output, DefaultExt);
    if Sep in out {
      NormalizeWithDirectory(output);
    } else {
      NormalizeBareName(output);
    }
  }

  lemma NormalizeWithDirectory(output: string)
    requires Sep in EnsureExtension(output, DefaultExt)
    requires EnsureExtension(EnsureExtension(output, DefaultExt), DefaultExt) == EnsureExtension(output, DefaultExt)
        <==> HasNonDot(Basename(output))
    ensures NormalizeOutput(NormalizeOutput(output).path) == NormalizeOutput(output)
        <==> HasNonDot(Basename(output))
  {
    var out := EnsureExtension(output, DefaultExt);
    var t := NormalizeOutput(output);
    assert t.path == out;
    if !HasNonDot(Basename(output)) {
      assert |EnsureExtension(out, DefaultExt)| > |out|;
    }
  }

  lemma NormalizeBareName(output: string)
    requires Sep !in EnsureExtension(output, DefaultExt)
    requires EnsureExtension(EnsureExtension(output, DefaultExt), DefaultExt) == EnsureExtension(output, DefaultExt)
        <==> HasNonDot(Basename(output))
    ensures NormalizeOutput(NormalizeOutput(output).path) == NormalizeOutput(output)
        <==> HasNonDot(Basename(output))
  {
    var out := EnsureExtension(output, DefaultExt);
    var t := NormalizeOutput(output);
    assert t.path == DefaultDir + [Sep] + out;
    BasenameUnder(DefaultDir, out);
    BasenameWhole(out);
    var again := EnsureExtension(t.path, DefaultExt);
    if HasNonDot(Basename(output)) {
      assert DottedName(Basename(out));
      assert again == t.path;
    } else {
      assert !DottedName(Basename(out));
      assert |again| > |t.path|;
    }
  }

  /** An output name with a directory part keeps that directory, however many
      components it has and whether or not it is absolute; only the file name
      may gain the default extension, exactly as it would alone. For a
      directory of one plain component, that component is also the directory
      to create. */
  lemma DirectoryIsKept(dir: string, name: string)
    requires Sep !in name
    ensures NormalizeOutput(dir + [Sep] + name).path == dir + [Sep] + EnsureExtension(name, DefaultExt)
    ensures dir != [] && Sep !in dir ==> NormalizeOutput(dir + [Sep] + name).dir == dir
  {
    EnsureExtensionUnder(dir, name, DefaultExt);
    var e := EnsureExtension(name, DefaultExt);
    assert (dir + [Sep] + e)[|dir|] == Sep;
    if dir != [] && Sep !in dir {
      assert Sep !in DefaultExt;
      assert Sep !in e;
      DirnameUnder(dir, e);
    }
  }
}
