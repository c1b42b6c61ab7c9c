/** The file names the two save overloads hand to the image writer. The
    single save keeps a name with a recognised image extension and appends
    ".bmp" to any other; the batch save splits the name at its last '.',
    then for file i appends the decimal i and the extension to a name that
    is never reset, so every file name extends the previous one. */
module SaveNames {
  import opened Wrappers
  import DepthConfig

  /** Openholo::checkExtension(fname, ext), which this model does not
      define; see SuffixSound for the one fact it relies on. */
  type ExtensionCheck = (string, string) -> bool

  predicate EndsWith(s: string, suffix: string)
  {
    |suffix| <= |s| && s[|s| - |suffix|..] == suffix
  }

  /** checkExtension accepts at least every name that ends with the
      extension. */
  ghost predicate SuffixSound(check: ExtensionCheck)
  {
    forall f: string, e: string {:trigger check(f, e)} :: EndsWith(f, e) ==> check(f, e)
  }

  predicate Recognized(check: ExtensionCheck, fname: string)
  {
    check(fname, ".bmp") || check(fname, ".jpg") || check(fname, ".gif") || check(fname, ".png")
  }

  /** The name the single save writes under: unchanged when the extension
      is recognised, otherwise with ".bmp" appended. */
  function ImageName(check: ExtensionCheck, fname: string): string
  {
    if Recognized(check, fname) then fname else fname + ".bmp"
  }

  /** Whatever the caller passes, the name written under carries a
      recognised extension, and it is the caller's name or that name with
      ".bmp" appended. */
  lemma {:induction false} ImageNameRecognized(check: ExtensionCheck, fname: string)
    requires SuffixSound(check)
    ensures Recognized(check, ImageName(check, fname))
    ensures ImageName(check, fname) == fname || ImageName(check, fname) == fname + ".bmp"
    ensures !Recognized(check, fname) ==> ImageName(check, fname)[..|fname|] == fname
  {
    if !Recognized(check, fname) {
      var g := fname + ".bmp";
      assert g[|g| - 4..] == ".bmp";
      assert check(g, ".bmp");
      assert g[..|fname|] == fname;
    }
  }

  /** Which buffer the single save writes: the caller's, or holo_normalized
      when the caller passes none. */
  datatype Source = CallerBuffer | NormalizedHologram

  /** One call of the image writer: name, buffer and size. */
  datatype ImageWrite = ImageWrite(name: string, source: Source, width: nat, height: nat)

  /** save(fname, bitsperpixel, src, px, py): no call at all for a null
      name (the -1 return); the image size falls back to the pixel count
      only when both px and py are 0. */
  function SaveCall(check: ExtensionCheck, fname: Option<string>, srcGiven: bool,
                    px: nat, py: nat, pnx: nat, pny: nat): (r: Option<ImageWrite>)
    ensures r.None? <==> fname.None?
  {
    match fname
    case None => None
    case Some(name) =>
      var source := if srcGiven then CallerBuffer else NormalizedHologram;
      if px == 0 && py == 0 then Some(ImageWrite(ImageName(check, name), source, pnx, pny))
      else Some(ImageWrite(ImageName(check, name), source, px, py))
  }

  /** The size fallback is all or nothing: a size with one zero side is
      used as given, zero side included. */
  lemma {:induction false} SaveSizeFallback(check: ExtensionCheck, fname: string, px: nat, py: nat, pnx: nat, pny: nat)
    ensures var w := SaveCall(check, Some(fname), true, px, py, pnx, pny).value;
      (w.width, w.height) == if px == 0 && py == 0 then (pnx, pny) else (px, py)
    ensures (px == 0) != (py == 0) ==>
      var w := SaveCall(check, Some(fname), true, px, py, pnx, pny).value;
      w.width * w.height == 0 && (w.width, w.height) == (px, py)
  {
  }

  // ---------------------------------------------------------------------
  // The batch save

  /** The position of the last '.' (std::string::rfind). */
  function LastDot(s: string): (r: Option<nat>)
    ensures r.Some? ==> r.value < |s| && s[r.value] == '.' && forall i :: r.value < i < |s| ==> s[i] != '.'
    ensures r.None? ==> forall i :: 0 <= i < |s| ==> s[i] != '.'
  {
    if |s| == 0 then None
    else if s[|s| - 1] == '.' then Some(|s| - 1)
    else LastDot(s[..|s| - 1])
  }

  /** name = file.substr(0, ex) and ext = file.substr(ex, length - 1), with
      ex the last '.' or the length. The second count, length - 1, cuts the
      extension short only when the one '.' is the first character. */
  function SplitName(file: string): (r: (string, string))
  {
    var ex := match LastDot(file) case Some(k) => k case None => |file|;
    var name := file[..ex];
    var ext := if ex == 0 && |file| > 0 then file[..|file| - 1] else file[ex..];
    (name, ext)
  }

  /** Splitting and rejoining gives back the name, except for a name whose
      only '.' is its first character, which loses its last character. */
  lemma {:induction false} SplitNameRejoins(file: string)
    ensures (file == "" || LastDot(file) != Some(0)) ==> SplitName(file).0 + SplitName(file).1 == file
    ensures SplitName(".bmp") == ("", ".bm")
  {
    assert LastDot(".bmp") == Some(0) by {
      assert ".bmp"[..3] == ".bm";
      assert ".bm"[..2] == ".b";
      assert ".b"[..1] == ".";
    }
    assert ".bmp"[..0] == "" && ".bmp"[..3] == ".bm";
    if file != "" && LastDot(file) != Some(0) {
      var ex := match LastDot(file) case Some(k) => k case None => |file|;
      assert ex > 0;
      assert file[..ex] + file[ex..] == file;
    }
  }

  /** Decimal(0) + ext + Decimal(1) + ext + ... + Decimal(n - 1) + ext. */
  function Suffixes(ext: string, n: nat): string
  {
    if n == 0 then "" else Suffixes(ext, n - 1) + DepthConfig.Decimal(n - 1) + ext
  }

  /** The name handed to save for file i, given the split name. */
  function Batched(name: string, ext: string, i: nat): string
  {
    name + Suffixes(ext, i + 1)
  }

  /** The name handed to save for file i. */
  function BatchName(file: string, i: nat): string
  {
    Batched(SplitName(file).0, SplitName(file).1, i)
  }

  /** Each batch name extends the one before it, and from the second file
      on it is not the name with just its own number appended. */
  lemma {:induction false} BatchNamesAccumulate(file: string, i: nat)
    ensures |BatchName(file, i)| < |BatchName(file, i + 1)|
    ensures BatchName(file, i + 1)[..|BatchName(file, i)|] == BatchName(file, i)
    ensures i > 0 ==> BatchName(file, i) != SplitName(file).0 + DepthConfig.Decimal(i) + SplitName(file).1
  {
    BatchedAccumulate(SplitName(file).0, SplitName(file).1, i);
  }

  lemma {:induction false} BatchedAccumulate(name: string, ext: string, i: nat)
    ensures |Batched(name, ext, i)| < |Batched(name, ext, i + 1)|
    ensures Batched(name, ext, i + 1)[..|Batched(name, ext, i)|] == Batched(name, ext, i)
    ensures i > 0 ==> Batched(name, ext, i) != name + DepthConfig.Decimal(i) + ext
  {
    var a := Batched(name, ext, i);
    var d := DepthConfig.Decimal(i + 1);
    assert Batched(name, ext, i + 1) == a + (d + ext);
    assert (a + (d + ext))[..|a|] == a;
    if i > 0 {
      SuffixesLength(ext, i + 1);
      assert |a| == |name| + |Suffixes(ext, i + 1)|;
    }
  }

  /** From two files on the suffixes hold at least two numbers and two
      extensions. */
  lemma {:induction false} SuffixesLength(ext: string, n: nat)
    requires n >= 2
    ensures |Suffixes(ext, n)| >= |DepthConfig.Decimal(n - 1)| + 1 + 2 * |ext|
  {
    assert |Suffixes(ext, n)| == |Suffixes(ext, n - 1)| + |DepthConfig.Decimal(n - 1)| + |ext|;
    assert |Suffixes(ext, n - 1)| == |Suffixes(ext, n - 2)| + |DepthConfig.Decimal(n - 2)| + |ext|;
  }

  /** The batch loop: for i < fnum, append i and the extension to name and
      save under the result. Returns the names in call order. */
  method BatchNames(file: string, fnum: nat) returns (names: seq<string>)
    ensures |names| == fnum
    ensures forall i :: 0 <= i < fnum ==> names[i] == BatchName(file, i)
  {
    var split := SplitName(file);
    var base, ext := split.0, split.1;
    var name := base;
    names := [];
    var i := 0;
    while i < fnum
      invariant 0 <= i <= fnum
      invariant name == base + Suffixes(ext, i)
      invariant |names| == i
      invariant forall j :: 0 <= j < i ==> names[j] == Batched(base, ext, j)
    {
      BatchedStep(base, ext, i);
      name := name + DepthConfig.Decimal(i) + ext;
      names := names + [name];
      i := i + 1;
    }
  }

  /** One pass of the batch loop appends the number and the extension. */
  lemma {:induction false} BatchedStep(name: string, ext: string, i: nat)
    ensures Batched(name, ext, i) == name + Suffixes(ext, i) + DepthConfig.Decimal(i) + ext
  {
    var s := Suffixes(ext, i);
    var d := DepthConfig.Decimal(i);
    assert Suffixes(ext, i + 1) == s + d + ext;
    assert name + (s + d + ext) == name + s + d + ext;
  }
}
