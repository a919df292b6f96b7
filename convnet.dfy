/**
 * convnet/utils.py: downscale_images, which writes a reduced copy of every
 * JPEG or PNG file of one folder into another, under a name that records the
 * reduced size. The reduction itself belongs to the image library and is a
 * parameter here.
 */
module Convnet {
  import opened Wrappers
  import opened Exceptions
  import opened FileSystem
  import opened PathNames

  /** SUPPORTED_EXTENSIONS */
  const SupportedExtensions: seq<string> := [".jpg", ".jpeg", ".png"]

  /** The default of the factor parameter. */
  const DefaultFactor: int := 2

  /** What Image.reduce(factor) yields: its size, and the bytes a later save writes. */
  datatype Reduced = Reduced(width: nat, height: nat, data: Content)

  /**
   * file.suffix in SUPPORTED_EXTENSIONS: an exact, case-sensitive comparison.
   */
  predicate IsSupported(name: string) {
    Suffix(name) in SupportedExtensions
  }

  /** name is some non-empty text followed by ext. */
  predicate EndsWithAfterStem(name: string, ext: string) {
    |name| > |ext| && name[|name| - |ext|..] == ext
  }

  /** A name passes the filter exactly when it ends in one of the extensions with at least one character before it. */
  lemma SupportedByEnding(name: string)
    ensures IsSupported(name) <==>
            exists k :: 0 <= k < |SupportedExtensions| && EndsWithAfterStem(name, SupportedExtensions[k])
  {
    if IsSupported(name) {
      SupportedEnds(name);
    }
    if exists k :: 0 <= k < |SupportedExtensions| && EndsWithAfterStem(name, SupportedExtensions[k]) {
      var k :| 0 <= k < |SupportedExtensions| && EndsWithAfterStem(name, SupportedExtensions[k]);
      EndingIsSupported(name, k);
    }
  }

  lemma SupportedEnds(name: string)
    requires IsSupported(name)
    ensures EndsWithAfterStem(name, SupportedExtensions[IndexIn(Suffix(name))])
  {
    SuffixIsEnding(name);
  }

  lemma EndingIsSupported(name: string, k: nat)
    requires k < |SupportedExtensions| && EndsWithAfterStem(name, SupportedExtensions[k])
    ensures IsSupported(name)
  {
    var ext := SupportedExtensions[k];
    assert |ext| >= 2 && ext[0] == '.' && '.' !in ext[1..] by {
      assert ext == ".jpg" || ext == ".jpeg" || ext == ".png";
    }
    EndingGivesSuffix(name, ext);
  }

  /** Where a supported extension sits in SupportedExtensions. */
  function IndexIn(ext: string): (k: nat)
    requires ext in SupportedExtensions
    ensures k < |SupportedExtensions| && SupportedExtensions[k] == ext
  {
    if ext == ".jpg" then 0 else if ext == ".jpeg" then 1 else 2
  }

  /** A non-empty suffix is an ending of the name, after a non-empty stem. */
  lemma SuffixIsEnding(name: string)
    requires Suffix(name) != ""
    ensures EndsWithAfterStem(name, Suffix(name))
  {
    StemAndSuffix(name);
    var stem, suffix := Stem(name), Suffix(name);
    assert name == stem + suffix;
    assert name[|name| - |suffix|..] == suffix;
  }

  /** A name ending in a dotted extension, after at least one character, has that extension as its suffix. */
  lemma EndingGivesSuffix(name: string, ext: string)
    requires EndsWithAfterStem(name, ext)
    requires |ext| >= 2 && ext[0] == '.' && '.' !in ext[1..]
    ensures Suffix(name) == ext
  {
    var prefix := name[..|name| - |ext|];
    assert name == prefix + ext;
    SplitAfter(prefix, ext);
  }

  /** The comparison is case-sensitive: an upper-case extension is skipped. */
  lemma SuffixMatchIsCaseSensitive()
    ensures IsSupported("photo.jpg")
    ensures !IsSupported("photo.JPG")
  {
    assert Suffix("photo.jpg") == ".jpg";
    assert Suffix("photo.JPG") == ".JPG";
  }

  /**
   * The f-string of downscale_images: stem, '_', width, 'x', height, '.', suffix.
   * The name begins with the stem and ends with a dot and the suffix, and it
   * is a single file name whenever stem and suffix are.
   */
  function OutputName(stem: string, suffix: string, width: nat, height: nat): (name: string)
    ensures |name| > |stem| + |suffix| + 1
    ensures name[..|stem|] == stem
    ensures name[|name| - |suffix| - 1..] == "." + suffix
    ensures '/' !in stem && '/' !in suffix ==> '/' !in name
  {
    var tag := SizeTag(width, height);
    var name := stem + tag + "." + suffix;
    assert name == stem + (tag + "." + suffix);
    assert name == (stem + tag) + ("." + suffix);
    name
  }

  /** The name the docstring shows: the suffix, which already starts with a dot, follows the size. */
  function IntendedOutputName(stem: string, suffix: string, width: nat, height: nat): string {
    stem + "_" + Decimal(width) + "x" + Decimal(height) + suffix
  }

  /** The size tag both names put after the stem. */
  function SizeTag(width: nat, height: nat): (tag: string)
    ensures tag != [] && tag[0] == '_'
    ensures '.' !in tag && '/' !in tag
  {
    var w := Decimal(width);
    var h := Decimal(height);
    DigitsHaveNoDot(w);
    DigitsHaveNoDot(h);
    "_" + w + "x" + h
  }

  /** A suffix as PurePath.suffix returns it has its only dot in front. */
  lemma SuffixDot(suffix: string)
    requires |suffix| >= 2 && suffix[0] == '.' && '.' !in suffix[1..]
    ensures LastIndexOf(suffix, '.') == 0
  {
    forall k | 1 <= k < |suffix|
      ensures suffix[k] != '.'
    {
      assert suffix[k] == suffix[1..][k - 1];
    }
    assert suffix[0..] == suffix;
  }

  /** The name and suffix pathlib reads back from prefix + suffix. */
  lemma {:induction false} SplitAfter(prefix: string, suffix: string)
    requires prefix != []
    requires |suffix| >= 2 && suffix[0] == '.' && '.' !in suffix[1..]
    ensures Suffix(prefix + suffix) == suffix && Stem(prefix + suffix) == prefix
  {
    SuffixDot(suffix);
    LastIndexOfAppend(prefix, suffix, '.');
    var name := prefix + suffix;
    assert LastIndexOf(name, '.') == |prefix|;
    assert name[|prefix|..] == suffix && name[..|prefix|] == prefix;
  }

  /**
   * The name as written keeps the suffix of the input, but its stem gains a
   * trailing dot: image.jpg reduced to 256 x 256 is saved as image_256x256..jpg.
   */
  lemma OutputNameAsWritten(name: string, width: nat, height: nat)
    requires IsSupported(name)
    ensures var written := OutputName(Stem(name), Suffix(name), width, height);
            && Suffix(written) == Suffix(name)
            && Stem(written) == Stem(name) + SizeTag(width, height) + "."
            && Stem(written)[|Stem(written)| - 1] == '.' && Suffix(written)[0] == '.'
  {
    StemAndSuffix(name);
    var prefix := Stem(name) + SizeTag(width, height) + ".";
    assert OutputName(Stem(name), Suffix(name), width, height) == prefix + Suffix(name);
    SplitAfter(prefix, Suffix(name));
  }

  /** The size tag of a 256 x 256 image. */
  lemma SizeTagExample()
    ensures SizeTag(256, 256) == "_256x256"
  {
    assert Decimal(256) == "256" by {
      assert Decimal(2) == "2";
      assert Decimal(25) == "25";
    }
  }

  /** The docstring's example, as written and as intended. */
  lemma OutputNameExample()
    ensures OutputName("image", ".jpg", 256, 256) == "image_256x256..jpg"
    ensures IntendedOutputName("image", ".jpg", 256, 256) == "image_256x256.jpg"
  {
    SizeTagExample();
    assert Decimal(256) == "256";
  }

  /** The intended name splits back into the input's suffix and its stem with the size tag. */
  lemma IntendedOutputNameSplits(name: string, width: nat, height: nat)
    requires IsSupported(name)
    ensures var intended := IntendedOutputName(Stem(name), Suffix(name), width, height);
            && Suffix(intended) == Suffix(name)
            && Stem(intended) == Stem(name) + SizeTag(width, height)
  {
    StemAndSuffix(name);
    var prefix := Stem(name) + SizeTag(width, height);
    assert IntendedOutputName(Stem(name), Suffix(name), width, height) == prefix + Suffix(name);
    SplitAfter(prefix, Suffix(name));
  }

  /** The four assertions at the top of downscale_images, in their order. */
  function DownscaleCheck(t: Tree, path: Path, out: Path): (r: Outcome<Error>)
    ensures r.Pass? <==> IsDir(t, path) && IsDir(t, out)
    ensures r.Fail? ==> KindOf(r.error) == AssertionError
    ensures !IsDir(t, path) ==> r == Fail(if path in t then AssertIsDir(path) else AssertExists(path))
  {
    if path !in t then Fail(AssertExists(path))
    else if !IsDir(t, path) then Fail(AssertIsDir(path))
    else if out !in t then Fail(AssertExists(out))
    else if !IsDir(t, out) then Fail(AssertIsDir(out))
    else Pass
  }

  /** Path(out, filename) for an input file and what it reduces to. */
  function OutputOf(out: Path, file: Path, image: Reduced): Path {
    out + [OutputName(Stem(NameOf(file)), Suffix(NameOf(file)), image.width, image.height)]
  }

  /** One iteration of the loop over path.iterdir(), on one entry. */
  function DownscaleOne(t: Tree, file: Path, out: Path, factor: int, reduce: (Content, int) -> Reduced): Run {
    if !IsSupported(NameOf(file)) then Run(t, Pass)
    else if ReadCheck(t, file).Fail? then Run(t, ReadCheck(t, file))
    else if factor < 1 then Run(t, Fail(FactorBelowOne(factor)))
    else
      var image := reduce(t[file].data, factor);
      AfterWrite(t, OutputOf(out, file, image), image.data)
  }

  function DownscaleStep(out: Path, factor: int, reduce: (Content, int) -> Reduced): (Tree, Path) -> Run {
    (t: Tree, file: Path) => DownscaleOne(t, file, out, factor, reduce)
  }

  /**
   * downscale_images(path, out, factor): the assertions, then for each entry
   * of path with a supported suffix, open it, reduce it and save the result
   * in out, stopping at the first call that raises.
   */
  method DownscaleImages(fs: FileSystem, path: Path, out: Path, reduce: (Content, int) -> Reduced,
                         factor: int := DefaultFactor)
    returns (r: Outcome<Error>, ghost entries: seq<Path>)
    modifies fs
    ensures DownscaleCheck(old(fs.tree), path, out).Fail? ==>
              r == DownscaleCheck(old(fs.tree), path, out) && fs.tree == old(fs.tree)
    ensures DownscaleCheck(old(fs.tree), path, out).Pass? ==>
              && Distinct(entries)
              && (forall e :: e in entries <==> e in Children(old(fs.tree), path))
              && Run(fs.tree, r) == Apply(old(fs.tree), entries, DownscaleStep(out, factor, reduce))
  {
    entries := [];
    r := DownscaleCheck(fs.tree, path, out);
    if r.Fail? {
      return;
    }
    var files;
    r, files := fs.ListDir(path);
    entries := files;
    ghost var listed := fs.tree;
    ghost var step := DownscaleStep(out, factor, reduce);
    var k := 0;
    while k < |files|
      invariant 0 <= k <= |files|
      invariant r == Pass
      invariant Apply(listed, files[..k], step) == Run(fs.tree, Pass)
    {
      ApplyStep(listed, files, k, step);
      r := DownscaleFile(fs, files[k], out, reduce, factor);
      if r.Fail? {
        ApplyStopsAtFailure(listed, files, k + 1, step);
        return;
      }
      k := k + 1;
    }
    assert files[..k] == files;
  }

  /** The body of the loop of downscale_images for one entry. */
  method DownscaleFile(fs: FileSystem, file: Path, out: Path, reduce: (Content, int) -> Reduced, factor: int)
    returns (r: Outcome<Error>)
    modifies fs
    ensures Run(fs.tree, r) == DownscaleOne(old(fs.tree), file, out, factor, reduce)
  {
    r := Pass;
    if IsSupported(NameOf(file)) {
      var data;
      r, data := fs.ReadFile(file);
      if r.Fail? {
        return;
      }
      if factor < 1 {
        return Fail(FactorBelowOne(factor));
      }
      var image := reduce(data, factor);
      var filename := OutputName(Stem(NameOf(file)), Suffix(NameOf(file)), image.width, image.height);
      r := fs.WriteFile(out + [filename], image.data);
    }
  }

  /** One step either changes nothing or writes the output of a supported file, and succeeds only by writing it. */
  lemma DownscaleStepEffect(t: Tree, file: Path, out: Path, factor: int, reduce: (Content, int) -> Reduced)
    ensures var after := DownscaleOne(t, file, out, factor, reduce);
            && (after.tree == t
                || (&& IsSupported(NameOf(file)) && IsFile(t, file)
                    && after.tree == t[OutputOf(out, file, reduce(t[file].data, factor)) :=
                                       File(reduce(t[file].data, factor).data)]))
            && (after.outcome.Pass? && IsSupported(NameOf(file)) ==>
                  IsFile(t, file) && OutputOf(out, file, reduce(t[file].data, factor)) in after.tree)
  {
  }

  /** The outputs the supported files among entries are named for, read against t. */
  ghost function Outputs(t: Tree, entries: seq<Path>, out: Path, factor: int, reduce: (Content, int) -> Reduced): set<Path> {
    if entries == [] then {}
    else
      var last := entries[|entries| - 1];
      Outputs(t, entries[..|entries| - 1], out, factor, reduce)
      + if IsSupported(NameOf(last)) && IsFile(t, last) then {OutputOf(out, last, reduce(t[last].data, factor))} else {}
  }

  /** Two folders that hold the same entry are the same folder. */
  lemma InOneFolder(p: Path, a: Path, b: Path)
    requires InFolder(p, a) && InFolder(p, b)
    ensures a == b
  {
  }

  /**
   * What the loop of downscale_images does when it reads from a folder other
   * than the one it writes to: every entry outside the outputs of the
   * supported files keeps its content, nothing appears except those outputs,
   * and when the loop completes every supported entry was a file whose output
   * now exists.
   */
  lemma {:induction false} DownscaleOutputs(t: Tree, path: Path, out: Path, factor: int,
                                            reduce: (Content, int) -> Reduced, entries: seq<Path>)
    requires path != out
    requires forall k :: 0 <= k < |entries| ==> InFolder(entries[k], path)
    ensures var after := Apply(t, entries, DownscaleStep(out, factor, reduce));
            var outputs := Outputs(t, entries, out, factor, reduce);
            && (forall p :: p in t && p !in outputs ==> p in after.tree && after.tree[p] == t[p])
            && (forall p :: p in after.tree ==> p in t || p in outputs)
            && (after.outcome.Pass? ==>
                  forall k :: 0 <= k < |entries| && IsSupported(NameOf(entries[k])) ==>
                    IsFile(t, entries[k]) && OutputOf(out, entries[k], reduce(t[entries[k]].data, factor)) in after.tree)
    decreases |entries|
  {
    if entries != [] {
      var step := DownscaleStep(out, factor, reduce);
      var front := entries[..|entries| - 1];
      var last := entries[|entries| - 1];
      DownscaleOutputs(t, path, out, factor, reduce, front);
      var before := Apply(t, front, step);
      if before.outcome.Pass? {
        LastEntryUntouched(t, path, out, factor, reduce, front, last, before.tree);
        DownscaleStepEffect(before.tree, last, out, factor, reduce);
        var after := DownscaleOne(before.tree, last, out, factor, reduce);
        assert step(before.tree, last) == after;
        assert Apply(t, entries, step) == after;
        if after.outcome.Pass? {
          assert before.tree.Keys <= after.tree.Keys;
          forall k | 0 <= k < |entries| && IsSupported(NameOf(entries[k]))
            ensures IsFile(t, entries[k]) && OutputOf(out, entries[k], reduce(t[entries[k]].data, factor)) in after.tree
          {
            if k < |front| {
              assert entries[k] == front[k];
              assert IsSupported(NameOf(front[k]));
              assert IsFile(t, front[k]);
              assert OutputOf(out, front[k], reduce(t[front[k]].data, factor)) in before.tree;
            } else {
              assert k == |entries| - 1;
              assert IsSupported(NameOf(last));
              assert IsFile(before.tree, last);
              assert last in t;
              assert t[last] == before.tree[last];
            }
          }
        }
      }
    }
  }

  /** The entry a step reads is never an earlier output, so it still holds what t gave it. */
  lemma LastEntryUntouched(t: Tree, path: Path, out: Path, factor: int, reduce: (Content, int) -> Reduced,
                           front: seq<Path>, last: Path, before: Tree)
    requires path != out && InFolder(last, path)
    requires forall p :: p in t && p !in Outputs(t, front, out, factor, reduce) ==> p in before && before[p] == t[p]
    requires forall p :: p in before ==> p in t || p in Outputs(t, front, out, factor, reduce)
    ensures last in before <==> last in t
    ensures last in t ==> before[last] == t[last]
  {
    OutputsInOut(t, front, out, factor, reduce);
    if last in Outputs(t, front, out, factor, reduce) {
      InOneFolder(last, path, out);
    }
  }

  /** Every output lies directly in out. */
  lemma {:induction false} OutputsInOut(t: Tree, entries: seq<Path>, out: Path, factor: int,
                                        reduce: (Content, int) -> Reduced)
    ensures forall p :: p in Outputs(t, entries, out, factor, reduce) ==> InFolder(p, out)
    decreases |entries|
  {
    if entries != [] {
      OutputsInOut(t, entries[..|entries| - 1], out, factor, reduce);
      var last := entries[|entries| - 1];
      if IsSupported(NameOf(last)) && IsFile(t, last) {
        var o := OutputOf(out, last, reduce(t[last].data, factor));
        assert o[..|out|] == out;
      }
    }
  }
}
