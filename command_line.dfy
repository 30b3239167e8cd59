/** The command line of both programs: the argument check at the top of
    each main, and the name of the output file derived from an input path
    (the basename after the last '/', without its last four characters,
    under "output/" and with a suffix naming the program). */
module CommandLine {
  import opened Optional
  import opened Bytes

  const HPS_SUFFIX: string := "_HPSoutput.bmp"
  const FPGA_SUFFIX: string := "_FPGAoutput.bmp"
  const OUTPUT_PREFIX: string := "output/"

  /** The size_t arithmetic of the programs is 32 bits wide. */
  const SIZE_MODULUS: nat := 0x1_0000_0000

  /** What a run of either program does that can be seen from outside, in
      order: redirecting standard output (with "-o"), creating a directory,
      configuring the FPGA bridge, saving an image (with the bytes written,
      None when the output file could not be opened), releasing the bridge. */
  datatype Effect =
    | RedirectOutput
    | MakeDirectory(path: string)
    | ConfigureBridge
    | SaveImage(name: string, written: Option<seq<byte>>)
    | ReleaseBridge

  /** The argument check: two to four arguments after the program name
      (a mode flag and one to three images), the flag being "-o" or "-w".
      Both programs return 1 when it fails. */
  predicate ArgumentsAccepted(argv: seq<string>)
  {
    3 <= |argv| <= 5 && (argv[1] == "-o" || argv[1] == "-w")
  }

  /** With "-o" the programs redirect their standard output to a file. */
  predicate RedirectsOutput(argv: seq<string>)
    requires ArgumentsAccepted(argv)
  {
    argv[1] == "-o"
  }

  /** strrchr(path, '/'): the index of the last slash, if any. */
  function LastSlash(path: string): (r: Option<nat>)
    ensures r.Some? ==> r.value < |path| && path[r.value] == '/'
    ensures r.Some? ==> forall k :: r.value < k < |path| ==> path[k] != '/'
    ensures r.None? ==> forall k :: 0 <= k < |path| ==> path[k] != '/'
  {
    if |path| == 0 then None
    else if path[|path| - 1] == '/' then Some(|path| - 1)
    else LastSlash(path[..|path| - 1])
  }

  /** The file name after the last slash, or the whole path without one. */
  function Basename(path: string): string
  {
    match LastSlash(path)
    case None => path
    case Some(k) => path[k + 1..]
  }

  /** The basename holds no slash, and the path is the basename behind a
      directory part that is empty or ends in a slash. */
  lemma BasenameSplitsPath(path: string)
    ensures forall k :: 0 <= k < |Basename(path)| ==> Basename(path)[k] != '/'
    ensures |Basename(path)| <= |path|
    ensures var dir := path[..|path| - |Basename(path)|];
      && path == dir + Basename(path)
      && (dir == [] || dir[|dir| - 1] == '/')
  {
    match LastSlash(path)
    case None =>
    case Some(k) =>
      assert path == path[..k + 1] + path[k + 1..];
  }

  /** The basename of "dir/name" is "name" when name holds no slash. */
  lemma {:induction false} BasenameOfJoin(dir: string, name: string)
    requires forall k :: 0 <= k < |name| ==> name[k] != '/'
    ensures Basename(dir + "/" + name) == name
  {
    var path := dir + "/" + name;
    assert path[|dir|] == '/';
    match LastSlash(path)
    case None =>
      assert false;
    case Some(k) =>
      assert k == |dir| by {
        assert k >= |dir|;
        assert forall j :: |dir| < j < |path| ==> path[j] == name[j - |dir| - 1];
      }
      assert path[k + 1..] == name;
  }

  /** (int)(len - 4) where len - 4 is computed in 32-bit size_t: below 4 the
      subtraction wraps around, and the cast brings it back as a negative
      int. */
  function PrecisionOf(len: nat): (r: int)
    ensures len < 0x8000_0000 ==> r == len - 4
  {
    var u := (len - 4) % SIZE_MODULUS;
    if u >= 0x8000_0000 then u - SIZE_MODULUS else u
  }

  /** What "%.*s" prints for string s and precision p: at most p characters,
      or all of s when p is negative (the precision is then ignored). */
  function PrintedWithPrecision(s: string, p: int): (r: string)
    ensures r <= s
    ensures |r| == if 0 <= p < |s| then p else |s|
  {
    if p < 0 then s else if p < |s| then s[..p] else s
  }

  /** The part of the basename that goes into the output name. */
  function Stem(base: string): string
  {
    PrintedWithPrecision(base, PrecisionOf(|base|))
  }

  /** The last four characters (the ".bmp") are dropped; a basename shorter
      than four characters is kept whole. */
  lemma StemDropsExtension(base: string)
    requires |base| < 0x8000_0000
    ensures |base| >= 4 ==> base == Stem(base) + base[|base| - 4..]
    ensures |base| < 4 ==> Stem(base) == base
  {
    if |base| >= 4 {
      assert Stem(base) == base[..|base| - 4];
    }
  }

  /** snprintf(buf, |basename| + 30, "output/%.*s<suffix>", ...). */
  function OutputName(path: string, suffix: string): string
  {
    OUTPUT_PREFIX + Stem(Basename(path)) + suffix
  }

  /** The "Output filename too long" branch: snprintf reports at least the
      size of the buffer, basename length + 30. */
  predicate NameTooLong(path: string, suffix: string)
  {
    |OutputName(path, suffix)| >= |Basename(path)| + 30
  }

  /** The output name lies directly in "output/", ends in the program's
      suffix and keeps the basename without its extension. The buffer of
      basename length + 30 bytes always holds it with its terminating NUL,
      so the "too long" branch is never taken. */
  lemma OutputNameShape(path: string, suffix: string)
    requires suffix == HPS_SUFFIX || suffix == FPGA_SUFFIX
    requires |path| < 0x8000_0000
    ensures var name, base := OutputName(path, suffix), Basename(path);
      && name[..|OUTPUT_PREFIX|] == OUTPUT_PREFIX
      && name[|name| - |suffix|..] == suffix
      && (forall k :: |OUTPUT_PREFIX| <= k < |name| - |suffix| ==> name[k] != '/')
      && (|base| >= 4 ==> name == OUTPUT_PREFIX + base[..|base| - 4] + suffix)
      && (|base| < 4 ==> name == OUTPUT_PREFIX + base + suffix)
      && |name| + 1 <= |base| + 30
      && !NameTooLong(path, suffix)
  {
    var base := Basename(path);
    BasenameSplitsPath(path);
    StemDropsExtension(base);
    var stem := Stem(base);
    assert stem == base[..|stem|];
    ThreeParts(OUTPUT_PREFIX, stem, suffix);
  }

  /** The "too long" branch is dead for any path: the stem is never longer
      than the basename, and prefix and suffix add at most 22 characters. */
  lemma NameAlwaysFits(path: string, suffix: string)
    requires |suffix| <= 22
    ensures !NameTooLong(path, suffix)
  {
  }

  /** Where the three parts of a concatenation sit in it. */
  lemma ThreeParts<T>(a: seq<T>, b: seq<T>, c: seq<T>)
    ensures var s := a + b + c;
      && |s| == |a| + |b| + |c|
      && s[..|a|] == a && s[|s| - |c|..] == c
      && forall k :: |a| <= k < |s| - |c| ==> s[k] == b[k - |a|]
  {
  }

  lemma Associative<T>(a: seq<T>, b: seq<T>, c: seq<T>)
    ensures a + (b + c) == a + b + c
  {
  }

  /** Two paths naming the same file in different directories give the same
      output name: the directory part is dropped. */
  lemma OutputNameIgnoresDirectory(dir: string, name: string, suffix: string)
    requires forall k :: 0 <= k < |name| ==> name[k] != '/'
    ensures OutputName(dir + "/" + name, suffix) == OutputName(name, suffix)
  {
    BasenameOfJoin(dir, name);
    assert LastSlash(name).None?;
  }

  /** `effects` are the saves of the images at `paths`, one each and in
      order, each named after its input; later paths may be left unsaved. */
  predicate SavesOf(effects: seq<Effect>, paths: seq<string>, suffix: string)
    decreases |effects|
  {
    |effects| <= |paths|
    && (|effects| == 0
        || (effects[0].SaveImage? && effects[0].name == OutputName(paths[0], suffix)
            && SavesOf(effects[1..], paths[1..], suffix)))
  }

  /** SavesOf, position by position. */
  lemma {:induction false} SavesOfAt(effects: seq<Effect>, paths: seq<string>, suffix: string)
    requires SavesOf(effects, paths, suffix)
    ensures |effects| <= |paths|
    ensures forall i :: 0 <= i < |effects| ==>
      effects[i].SaveImage? && effects[i].name == OutputName(paths[i], suffix)
    decreases |effects|
  {
    if |effects| > 0 {
      SavesOfAt(effects[1..], paths[1..], suffix);
      forall i | 0 < i < |effects|
        ensures effects[i] == effects[1..][i - 1] && paths[i] == paths[1..][i - 1]
      {
      }
    }
  }
}
