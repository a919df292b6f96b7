/**
 * utils/utils.py: the ImgToolbox class. It turns a COCO catalog into a
 * healthy/unhealthy folder layout, checks resize parameters, blacks out
 * near-white pixels and randomly deletes images down to a target count.
 */
module Toolbox {
  import opened Wrappers
  import opened Exceptions
  import opened FileSystem
  import opened PathNames

  /** ImgToolbox.HEALTHY_CATEGORIES */
  const HealthyCategories: seq<int> := [1, 8]

  /** class_names in create_dataset_structure, in the order the folders are made. */
  const ClassNames: seq<string> := ["healthy", "unhealthy"]

  /**
   * What the COCO parser gives the builder: the category ids in the order
   * getCatIds() returns them, and for each id the file_name of every image
   * catToImgs lists under it. A missing id lists nothing, as the parser's
   * defaultdict does.
   */
  datatype Catalog = Catalog(categoryIds: seq<int>, categoryImages: map<int, seq<string>>)

  function ImagesOf(catalog: Catalog, id: int): seq<string> {
    if id in catalog.categoryImages then catalog.categoryImages[id] else []
  }

  /** One image as the copy loop meets it: the category it is filed under and its file_name. */
  datatype Listing = Listing(category: int, fileName: string)

  /** The images filed under one category, in catalog order. */
  function ListingsFor(catalog: Catalog, id: int): (ls: seq<Listing>)
    ensures |ls| == |ImagesOf(catalog, id)|
    ensures forall k :: 0 <= k < |ls| ==> ls[k] == Listing(id, ImagesOf(catalog, id)[k])
  {
    seq(|ImagesOf(catalog, id)|, k requires 0 <= k < |ImagesOf(catalog, id)| =>
      Listing(id, ImagesOf(catalog, id)[k]))
  }

  /** Every image of the categories ids, category by category. */
  function ListingsOf(catalog: Catalog, ids: seq<int>): seq<Listing> {
    if ids == [] then []
    else ListingsOf(catalog, ids[..|ids| - 1]) + ListingsFor(catalog, ids[|ids| - 1])
  }

  /** The listings of ids are exactly the images some category of ids files, each under that category. */
  lemma {:induction false} ListingsOfCovers(catalog: Catalog, ids: seq<int>)
    ensures forall l :: l in ListingsOf(catalog, ids) <==> l.category in ids && l.fileName in ImagesOf(catalog, l.category)
  {
    if ids != [] {
      var front := ids[..|ids| - 1];
      var last := ids[|ids| - 1];
      ListingsOfCovers(catalog, front);
      forall l
        ensures l in ListingsFor(catalog, last) <==> l.category == last && l.fileName in ImagesOf(catalog, last)
      {
        if l.category == last && l.fileName in ImagesOf(catalog, last) {
          var k :| 0 <= k < |ImagesOf(catalog, last)| && ImagesOf(catalog, last)[k] == l.fileName;
          assert ListingsFor(catalog, last)[k] == l;
        }
      }
      forall c ensures c in ids <==> c in front || c == last {
        assert ids == front + [last];
      }
    }
  }

  /** An image is filed as healthy iff its category is one of HEALTHY_CATEGORIES. */
  predicate IsHealthy(l: Listing) {
    l.category in HealthyCategories
  }

  /** Path(EXTRAS_PATH, file_name): where the image is copied from. */
  function SourceOf(extras: Path, l: Listing): Path {
    extras + Parts(l.fileName)
  }

  /** image_path.name: the name the copy gets. */
  function BaseName(extras: Path, l: Listing): string {
    NameOf(SourceOf(extras, l))
  }

  function ClassName(healthy: bool): string {
    if healthy then "healthy" else "unhealthy"
  }

  /** Path(DATASET_PATH, <class>, image_name): where a copy lands. */
  function Dest(dataset: Path, healthy: bool, name: string): Path {
    dataset + [ClassName(healthy), name]
  }

  /** One shutil.copyfile of the builder: the class folder, the name there, and the source. */
  datatype Copy = Copy(healthy: bool, name: string, source: Path)

  function CopyOf(extras: Path, l: Listing): Copy {
    Copy(IsHealthy(l), BaseName(extras, l), SourceOf(extras, l))
  }

  /**
   * The two class folders the copies fill, each as a map from file name to
   * the source it was last copied from.
   */
  datatype Routing = Routing(healthy: map<string, Path>, unhealthy: map<string, Path>)

  function Folder(r: Routing, healthy: bool): map<string, Path> {
    if healthy then r.healthy else r.unhealthy
  }

  /**
   * The copies in order, each one overwriting an earlier one of the same name:
   * the newest copy is always in effect, and no folder holds more names than
   * there were copies into it.
   */
  function Route(copies: seq<Copy>): (r: Routing)
    ensures copies != [] ==>
              var c := copies[|copies| - 1];
              c.name in Folder(r, c.healthy) && Folder(r, c.healthy)[c.name] == c.source
    ensures |r.healthy| + |r.unhealthy| <= |copies|
  {
    if copies == [] then Routing(map[], map[])
    else
      var r := Route(copies[..|copies| - 1]);
      var c := copies[|copies| - 1];
      if c.healthy then r.(healthy := r.healthy[c.name := c.source])
      else r.(unhealthy := r.unhealthy[c.name := c.source])
  }

  /** copies[i] is the last copy into that folder under that name: it is the one that stays. */
  predicate LastCopy(copies: seq<Copy>, i: int, healthy: bool, name: string) {
    && 0 <= i < |copies|
    && copies[i].healthy == healthy
    && copies[i].name == name
    && forall j :: i < j < |copies| && copies[j].healthy == healthy ==> copies[j].name != name
  }

  lemma RouteStep(copies: seq<Copy>, healthy: bool)
    requires copies != []
    ensures var c := copies[|copies| - 1];
            Folder(Route(copies), healthy) ==
              if c.healthy == healthy
              then Folder(Route(copies[..|copies| - 1]), healthy)[c.name := c.source]
              else Folder(Route(copies[..|copies| - 1]), healthy)
  {
  }

  /**
   * A class folder holds a name iff some copy into that folder has that name,
   * and its content comes from the last such copy.
   */
  lemma {:induction false} RouteIsLastCopy(copies: seq<Copy>, healthy: bool, name: string)
    ensures name in Folder(Route(copies), healthy) <==>
            exists i :: 0 <= i < |copies| && copies[i].healthy == healthy && copies[i].name == name
    ensures name in Folder(Route(copies), healthy) ==>
            exists i :: LastCopy(copies, i, healthy, name) && Folder(Route(copies), healthy)[name] == copies[i].source
  {
    if copies != [] {
      var init := copies[..|copies| - 1];
      var last := |copies| - 1;
      var folder := Folder(Route(copies), healthy);
      var before := Folder(Route(init), healthy);
      RouteStep(copies, healthy);
      RouteIsLastCopy(init, healthy, name);
      if copies[last].healthy == healthy && copies[last].name == name {
        assert LastCopy(copies, last, healthy, name);
      } else {
        assert name in folder <==> name in before;
        if name in before {
          var i :| LastCopy(init, i, healthy, name) && before[name] == init[i].source;
          assert copies[i] == init[i];
          assert LastCopy(copies, i, healthy, name);
        } else {
          forall i | 0 <= i < |copies| && copies[i].healthy == healthy
            ensures copies[i].name != name
          {
            if i < last {
              assert copies[i] == init[i];
            }
          }
        }
      }
    }
  }

  /** The copies the builder makes for a sequence of listed images. */
  function Copies(extras: Path, ls: seq<Listing>): (cs: seq<Copy>)
    ensures |cs| == |ls|
    ensures forall k :: 0 <= k < |ls| ==> cs[k] == CopyOf(extras, ls[k])
  {
    seq(|ls|, k requires 0 <= k < |ls| => CopyOf(extras, ls[k]))
  }

  /** One iteration of the copy loop: shutil.copyfile(image_path, <class folder>/image_name). */
  function CopyStep(dataset: Path): (Tree, Copy) -> Run {
    (t: Tree, c: Copy) => AfterCopy(t, c.source, Dest(dataset, c.healthy, c.name))
  }

  /** p is a file the routing puts into one of the class folders. */
  predicate Routed(dataset: Path, r: Routing, p: Path) {
    && |p| == |dataset| + 2
    && p[..|dataset|] == dataset
    && ((p[|dataset|] == "healthy" && p[|dataset| + 1] in r.healthy)
        || (p[|dataset|] == "unhealthy" && p[|dataset| + 1] in r.unhealthy))
  }

  /** The dataset and extra folders are siblings, so nothing read from one lies in the other. */
  predicate Siblings(dataset: Path, extras: Path) {
    |dataset| == |extras| && dataset != extras
  }

  predicate Outside(dataset: Path, p: Path) {
    |p| < |dataset| || p[..|dataset|] != dataset
  }

  lemma CopiesReadOutsideDataset(dataset: Path, extras: Path, ls: seq<Listing>)
    requires Siblings(dataset, extras)
    ensures forall k :: 0 <= k < |ls| ==> Outside(dataset, Copies(extras, ls)[k].source)
  {
    forall k | 0 <= k < |ls|
      ensures Outside(dataset, Copies(extras, ls)[k].source)
    {
      assert Copies(extras, ls)[k].source[..|extras|] == extras;
    }
  }

  /** The class folders of after hold what routing names, with the content it had in t. */
  ghost predicate ClassFoldersFilled(t: Tree, after: Tree, dataset: Path, routing: Routing) {
    forall healthy: bool, name :: name in Folder(routing, healthy) ==>
      && IsFile(t, Folder(routing, healthy)[name])
      && Dest(dataset, healthy, name) in after
      && after[Dest(dataset, healthy, name)] == File(t[Folder(routing, healthy)[name]].data)
  }

  /** ... and every other path of after is as in t. */
  ghost predicate Populated(t: Tree, after: Tree, dataset: Path, routing: Routing) {
    && ClassFoldersFilled(t, after, dataset, routing)
    && (forall p :: !Routed(dataset, routing, p) ==>
          (p in after <==> p in t) && (p in t ==> after[p] == t[p]))
  }

  lemma CopyKeepsPopulated(t: Tree, mid: Tree, dataset: Path, before: Routing, c: Copy)
    requires Populated(t, mid, dataset, before)
    requires Outside(dataset, c.source)
    requires AfterCopy(mid, c.source, Dest(dataset, c.healthy, c.name)).outcome.Pass?
    ensures Populated(t, AfterCopy(mid, c.source, Dest(dataset, c.healthy, c.name)).tree, dataset,
                      if c.healthy then before.(healthy := before.healthy[c.name := c.source])
                      else before.(unhealthy := before.unhealthy[c.name := c.source]))
  {
    var dst := Dest(dataset, c.healthy, c.name);
    var after := AfterCopy(mid, c.source, dst).tree;
    var routing := if c.healthy then before.(healthy := before.healthy[c.name := c.source])
                   else before.(unhealthy := before.unhealthy[c.name := c.source]);
    assert after == mid[dst := File(mid[c.source].data)];
    assert !Routed(dataset, before, c.source);
    assert Routed(dataset, routing, dst);
    forall healthy: bool, name | name in Folder(routing, healthy)
      ensures && IsFile(t, Folder(routing, healthy)[name])
              && Dest(dataset, healthy, name) in after
              && after[Dest(dataset, healthy, name)] == File(t[Folder(routing, healthy)[name]].data)
    {
      if healthy != c.healthy || name != c.name {
        assert Dest(dataset, healthy, name) != dst by {
          assert Dest(dataset, healthy, name)[|dataset|] == ClassName(healthy);
          assert Dest(dataset, healthy, name)[|dataset| + 1] == name;
        }
      }
    }
    forall p | !Routed(dataset, routing, p)
      ensures (p in after <==> p in t) && (p in t ==> after[p] == t[p])
    {
      assert !Routed(dataset, before, p);
    }
  }

  /**
   * When every copy succeeds, each class folder holds exactly the files the
   * routing names, each with the content of the source its last copy read,
   * and nothing else in the tree changes.
   */
  lemma {:induction false} CopiesLandAsRouted(t: Tree, dataset: Path, copies: seq<Copy>)
    requires forall k :: 0 <= k < |copies| ==> Outside(dataset, copies[k].source)
    requires Apply(t, copies, CopyStep(dataset)).outcome.Pass?
    ensures Populated(t, Apply(t, copies, CopyStep(dataset)).tree, dataset, Route(copies))
  {
    if copies != [] {
      var init := copies[..|copies| - 1];
      var c := copies[|copies| - 1];
      var mid := Apply(t, init, CopyStep(dataset));
      assert mid.outcome.Pass?;
      CopiesLandAsRouted(t, dataset, init);
      assert Apply(t, copies, CopyStep(dataset)) == AfterCopy(mid.tree, c.source, Dest(dataset, c.healthy, c.name));
      CopyKeepsPopulated(t, mid.tree, dataset, Route(init), c);
    }
  }

  /** The folders create_dataset_structure makes when absent, in order. */
  function StructureFolders(dataset: Path): seq<Path> {
    [dataset, dataset + [ClassNames[0]], dataset + [ClassNames[1]]]
  }

  /** `if not p.exists(): os.mkdir(p)` */
  function EnsureDirStep(): (Tree, Path) -> Run {
    (t: Tree, p: Path) => if p in t then Run(t, Pass) else AfterMkdir(t, p)
  }

  /**
   * Making the folders only adds the ones that were absent, as directories;
   * whatever already existed under those names is left as it was.
   */
  lemma {:induction false} EnsureDirsOnlyAdd(t: Tree, folders: seq<Path>)
    requires Apply(t, folders, EnsureDirStep()).outcome.Pass?
    ensures var after := Apply(t, folders, EnsureDirStep()).tree;
            && (forall p :: p in after <==> p in t || p in folders)
            && (forall p :: p in t ==> after[p] == t[p])
            && (forall p :: p in after && p !in t ==> after[p] == Dir)
  {
    if folders != [] {
      var init := folders[..|folders| - 1];
      assert Apply(t, init, EnsureDirStep()).outcome.Pass?;
      EnsureDirsOnlyAdd(t, init);
      forall p ensures p in folders <==> p in init || p == folders[|folders| - 1] {
        assert folders == init + [folders[|folders| - 1]];
      }
    }
  }

  /** With every folder already present, making the folders changes nothing. */
  lemma {:induction false} EnsureDirsPresent(t: Tree, folders: seq<Path>)
    requires forall k :: 0 <= k < |folders| ==> folders[k] in t
    ensures Apply(t, folders, EnsureDirStep()) == Run(t, Pass)
  {
    if folders != [] {
      EnsureDirsPresent(t, folders[..|folders| - 1]);
    }
  }

  /** Running the folder step a second time, on the tree the first run left, changes nothing. */
  lemma StructureIsIdempotent(t: Tree, dataset: Path)
    requires Apply(t, StructureFolders(dataset), EnsureDirStep()).outcome.Pass?
    ensures var after := Apply(t, StructureFolders(dataset), EnsureDirStep()).tree;
            Apply(after, StructureFolders(dataset), EnsureDirStep()) == Run(after, Pass)
  {
    var after := Apply(t, StructureFolders(dataset), EnsureDirStep()).tree;
    EnsureDirsOnlyAdd(t, StructureFolders(dataset));
    EnsureDirsPresent(after, StructureFolders(dataset));
  }

  /** Every copy the builder makes, in the order of its two nested loops. */
  function BuildCopies(catalog: Catalog, extras: Path): seq<Copy> {
    Copies(extras, ListingsOf(catalog, catalog.categoryIds))
  }

  /**
   * The builder copies every image of every category in the catalog, from
   * extra/<file_name> to <class>/<name>, and nothing else; the class is healthy
   * exactly when the category is one of HEALTHY_CATEGORIES.
   */
  lemma EveryImageCopiedToItsClass(catalog: Catalog, extras: Path)
    ensures forall c, f :: c in catalog.categoryIds && f in ImagesOf(catalog, c) ==>
              Copy(c in HealthyCategories, NameOf(extras + Parts(f)), extras + Parts(f)) in BuildCopies(catalog, extras)
    ensures forall cp :: cp in BuildCopies(catalog, extras) ==>
              exists l :: l in ListingsOf(catalog, catalog.categoryIds) && cp == CopyOf(extras, l)
                && l.category in catalog.categoryIds && l.fileName in ImagesOf(catalog, l.category)
                && (cp.healthy <==> l.category in HealthyCategories)
  {
    var ls := ListingsOf(catalog, catalog.categoryIds);
    var copies := BuildCopies(catalog, extras);
    ListingsOfCovers(catalog, catalog.categoryIds);
    forall c, f | c in catalog.categoryIds && f in ImagesOf(catalog, c)
      ensures Copy(c in HealthyCategories, NameOf(extras + Parts(f)), extras + Parts(f)) in copies
    {
      var k :| 0 <= k < |ls| && ls[k] == Listing(c, f);
      assert copies[k] == CopyOf(extras, Listing(c, f));
    }
    forall cp | cp in copies
      ensures exists l :: l in ls && cp == CopyOf(extras, l)
                && l.category in catalog.categoryIds && l.fileName in ImagesOf(catalog, l.category)
                && (cp.healthy <==> l.category in HealthyCategories)
    {
      var k :| 0 <= k < |copies| && copies[k] == cp;
      assert ls[k] in ls;
    }
  }

  /** create_dataset_structure once the annotations are loaded: the folders, then the copies. */
  function BuildRun(t: Tree, dataset: Path, extras: Path, catalog: Catalog): Run {
    var made := Apply(t, StructureFolders(dataset), EnsureDirStep());
    if made.outcome.Fail? then made
    else Apply(made.tree, BuildCopies(catalog, extras), CopyStep(dataset))
  }

  /** Every file a class folder receives was read from a copy's source. */
  lemma RoutedSourcesOutside(dataset: Path, copies: seq<Copy>)
    requires forall k :: 0 <= k < |copies| ==> Outside(dataset, copies[k].source)
    ensures forall healthy: bool, name :: name in Folder(Route(copies), healthy) ==>
              Outside(dataset, Folder(Route(copies), healthy)[name])
  {
    forall healthy: bool, name | name in Folder(Route(copies), healthy)
      ensures Outside(dataset, Folder(Route(copies), healthy)[name])
    {
      RouteIsLastCopy(copies, healthy, name);
    }
  }

  lemma FilledFromEarlier(t: Tree, made: Tree, after: Tree, dataset: Path, routing: Routing)
    requires ClassFoldersFilled(made, after, dataset, routing)
    requires forall healthy: bool, name :: name in Folder(routing, healthy) ==>
               Outside(dataset, Folder(routing, healthy)[name])
    requires forall p :: Outside(dataset, p) ==> (p in made <==> p in t) && (p in t ==> made[p] == t[p])
    ensures ClassFoldersFilled(t, after, dataset, routing)
  {
  }

  /**
   * A build that runs to the end leaves the three folders in place, puts into
   * each class folder the files the routing names with the content of their
   * sources, and changes nothing outside the dataset folder.
   */
  lemma BuildFillsClassFolders(t: Tree, dataset: Path, extras: Path, catalog: Catalog)
    requires Siblings(dataset, extras)
    requires BuildRun(t, dataset, extras, catalog).outcome.Pass?
    ensures var after := BuildRun(t, dataset, extras, catalog).tree;
            && (forall k :: 0 <= k < 3 ==> StructureFolders(dataset)[k] in after)
            && ClassFoldersFilled(t, after, dataset, Route(BuildCopies(catalog, extras)))
            && (forall p :: Outside(dataset, p) ==> (p in after <==> p in t) && (p in t ==> after[p] == t[p]))
  {
    var made := Apply(t, StructureFolders(dataset), EnsureDirStep()).tree;
    var copies := BuildCopies(catalog, extras);
    var after := BuildRun(t, dataset, extras, catalog).tree;
    FoldersChangeOnlyDataset(t, dataset);
    CopiesReadOutsideDataset(dataset, extras, ListingsOf(catalog, catalog.categoryIds));
    CopiesLandAsRouted(made, dataset, copies);
    RoutedSourcesOutside(dataset, copies);
    FilledFromEarlier(t, made, after, dataset, Route(copies));
    PopulatedKeepsTheRest(made, after, dataset, Route(copies));
  }

  /** The folder steps leave the three folders and change nothing outside the dataset folder. */
  lemma FoldersChangeOnlyDataset(t: Tree, dataset: Path)
    requires Apply(t, StructureFolders(dataset), EnsureDirStep()).outcome.Pass?
    ensures var made := Apply(t, StructureFolders(dataset), EnsureDirStep()).tree;
            && (forall k :: 0 <= k < 3 ==> StructureFolders(dataset)[k] in made)
            && (forall p :: Outside(dataset, p) ==> (p in made <==> p in t) && (p in t ==> made[p] == t[p]))
  {
    var folders := StructureFolders(dataset);
    EnsureDirsOnlyAdd(t, folders);
    assert forall p :: Outside(dataset, p) ==> p !in folders;
    forall k | 0 <= k < 3
      ensures folders[k] in Apply(t, folders, EnsureDirStep()).tree
    {
      assert folders[k] in folders;
    }
  }

  /** Copies keep every path outside the dataset folder, and every path shallower than a class folder's file. */
  lemma PopulatedKeepsTheRest(t: Tree, after: Tree, dataset: Path, routing: Routing)
    requires Populated(t, after, dataset, routing)
    ensures forall p :: Outside(dataset, p) ==> (p in after <==> p in t) && (p in t ==> after[p] == t[p])
    ensures forall p :: p in t && |p| < |dataset| + 2 ==> p in after
  {
    forall p | Outside(dataset, p)
      ensures (p in after <==> p in t) && (p in t ==> after[p] == t[p])
    {
      assert !Routed(dataset, routing, p);
    }
  }

  /** The copies the inner loop makes for category id, one per image, in order. */
  function CategoryCopies(catalog: Catalog, extras: Path, id: int): seq<Copy> {
    Copies(extras, ListingsFor(catalog, id))
  }

  /** One iteration of the outer copy loop: every image of one category. */
  function CategoryStep(catalog: Catalog, extras: Path, dataset: Path): (Tree, int) -> Run {
    (t: Tree, id: int) => Apply(t, CategoryCopies(catalog, extras, id), CopyStep(dataset))
  }

  lemma CopiesAppend(extras: Path, a: seq<Listing>, b: seq<Listing>)
    ensures Copies(extras, a + b) == Copies(extras, a) + Copies(extras, b)
  {
    assert forall k :: 0 <= k < |b| ==> (a + b)[|a| + k] == b[k];
  }

  /**
   * Copying image j of category id, with outcome r into tree after, continues
   * the fold of the inner loop by one step, and a raise ends it.
   */
  lemma CopyOneImage(catalog: Catalog, extras: Path, dataset: Path, id: int, j: nat,
                     before: Tree, t: Tree, after: Tree, r: Outcome<Error>)
    requires j < |ImagesOf(catalog, id)|
    requires Apply(before, CategoryCopies(catalog, extras, id)[..j], CopyStep(dataset)) == Run(t, Pass)
    requires var source := extras + Parts(ImagesOf(catalog, id)[j]);
             Run(after, r) == AfterCopy(t, source, dataset + [if id in HealthyCategories then "healthy" else "unhealthy", NameOf(source)])
    ensures Apply(before, CategoryCopies(catalog, extras, id)[..j + 1], CopyStep(dataset)) == Run(after, r)
    ensures r.Fail? ==> Apply(before, CategoryCopies(catalog, extras, id), CopyStep(dataset)) == Run(after, r)
  {
    var copies := CategoryCopies(catalog, extras, id);
    ApplyStep(before, copies, j, CopyStep(dataset));
    assert copies[j] == CopyOf(extras, Listing(id, ImagesOf(catalog, id)[j]));
    if r.Fail? {
      ApplyStopsAtFailure(before, copies, j + 1, CopyStep(dataset));
    }
  }

  /**
   * Copying the images of category ids[ci], with outcome r into tree after,
   * continues the fold of the outer loop by one step, and a raise ends it.
   */
  lemma CategoryFolds(made: Tree, t: Tree, after: Tree, r: Outcome<Error>,
                      catalog: Catalog, extras: Path, dataset: Path, ids: seq<int>, ci: nat)
    requires ci < |ids|
    requires Apply(made, ids[..ci], CategoryStep(catalog, extras, dataset)) == Run(t, Pass)
    requires Run(after, r) == Apply(t, CategoryCopies(catalog, extras, ids[ci]), CopyStep(dataset))
    ensures Apply(made, ids[..ci + 1], CategoryStep(catalog, extras, dataset)) == Run(after, r)
    ensures r.Fail? ==> Apply(made, ids, CategoryStep(catalog, extras, dataset)) == Run(after, r)
  {
    ApplyStep(made, ids, ci, CategoryStep(catalog, extras, dataset));
    if r.Fail? {
      ApplyStopsAtFailure(made, ids, ci + 1, CategoryStep(catalog, extras, dataset));
    }
  }

  /** The nested loops make the same calls, in the same order, as one loop over BuildCopies. */
  lemma {:induction false} NestedIsFlat(t: Tree, catalog: Catalog, extras: Path, dataset: Path, ids: seq<int>)
    ensures Apply(t, ids, CategoryStep(catalog, extras, dataset))
            == Apply(t, Copies(extras, ListingsOf(catalog, ids)), CopyStep(dataset))
    decreases |ids|
  {
    if ids != [] {
      var front := ids[..|ids| - 1];
      var last := ids[|ids| - 1];
      NestedIsFlat(t, catalog, extras, dataset, front);
      var a := Copies(extras, ListingsOf(catalog, front));
      var b := CategoryCopies(catalog, extras, last);
      CopiesAppend(extras, ListingsOf(catalog, front), ListingsFor(catalog, last));
      ApplyAppend(t, a, b, CopyStep(dataset));
    }
  }

  /** Path(source).exists(): the first check of every static helper of the toolbox. */
  function SourceCheck(t: Tree, source: string): (r: Outcome<Error>)
    ensures r.Pass? <==> Parts(source) in t
    ensures r.Fail? ==> r.error == SourceMissing(Parts(source)) && KindOf(r.error) == ValueError
  {
    if Parts(source) in t then Pass else Fail(SourceMissing(Parts(source)))
  }

  /** The Python values a caller can pass where a size or an amount is expected. */
  datatype PyValue = Int(i: int) | Tuple(items: seq<PyValue>) | Other

  predicate AllInts(items: seq<PyValue>) {
    forall k :: 0 <= k < |items| ==> items[k].Int?
  }

  /**
   * resize_image before it touches any image: the source must exist, and the
   * size must be a tuple of exactly two ints, checked in that order.
   */
  function ResizeCheck(t: Tree, source: string, targetSize: PyValue): (r: Outcome<Error>)
    ensures r.Pass? <==>
              && Parts(source) in t
              && targetSize.Tuple? && |targetSize.items| == 2
              && targetSize.items[0].Int? && targetSize.items[1].Int?
    ensures Parts(source) !in t ==> r == Fail(SourceMissing(Parts(source)))
    ensures Parts(source) in t && !targetSize.Tuple? ==> r == Fail(SizeNotTuple)
    ensures Parts(source) in t && targetSize.Tuple? && |targetSize.items| != 2 ==>
              r == Fail(SizeWrongLength(|targetSize.items|))
    ensures Parts(source) in t && targetSize.Tuple? && |targetSize.items| == 2 && !AllInts(targetSize.items) ==>
              r == Fail(SizeNotIntegers)
    ensures r.Fail? ==> KindOf(r.error) == (if r.error == SizeNotTuple then TypeError else ValueError)
  {
    if SourceCheck(t, source).Fail? then SourceCheck(t, source)
    else if !targetSize.Tuple? then Fail(SizeNotTuple)
    else if |targetSize.items| != 2 then Fail(SizeWrongLength(|targetSize.items|))
    else if !AllInts(targetSize.items) then Fail(SizeNotIntegers)
    else Pass
  }

  /** purge_elements before it lists anything: the source must exist and the amount be an int of at least 1. */
  function PurgeCheck(t: Tree, source: string, targetAmount: PyValue): (r: Outcome<Error>)
    ensures r.Pass? <==> Parts(source) in t && targetAmount.Int? && targetAmount.i >= 1
    ensures Parts(source) !in t ==> r == Fail(SourceMissing(Parts(source)))
    ensures Parts(source) in t && !targetAmount.Int? ==> r == Fail(AmountNotInteger)
    ensures Parts(source) in t && targetAmount.Int? && targetAmount.i < 1 ==>
              r == Fail(AmountBelowOne(targetAmount.i))
    ensures r.Fail? ==> KindOf(r.error) == (if r.error == AmountNotInteger then TypeError else ValueError)
  {
    if SourceCheck(t, source).Fail? then SourceCheck(t, source)
    else if !targetAmount.Int? then Fail(AmountNotInteger)
    else if targetAmount.i < 1 then Fail(AmountBelowOne(targetAmount.i))
    else Pass
  }

  /**
   * How many entries the selection loop of purge_elements picks out of n: it
   * keeps picking while it holds at most n - target of them, so one more than
   * n - target whenever that is not negative.
   */
  function PurgeCount(n: nat, target: int): (count: nat)
    requires target >= 1
    ensures count <= n
    ensures target <= n ==> n - count == target - 1
    ensures target > n ==> count == 0
  {
    if target <= n + 1 then n - target + 1 else 0
  }

  /** How many entries leave exactly target behind (or all n when there are fewer). */
  function IntendedPurgeCount(n: nat, target: int): (count: nat)
    requires target >= 1
    ensures n - count == (if target <= n then target else n)
  {
    if target <= n then n - target else 0
  }

  /** As written, purge_elements leaves one entry fewer than asked for whenever it deletes at all. */
  lemma PurgeLeavesOneFewer(n: nat, target: int)
    requires 1 <= target <= n
    ensures n - PurgeCount(n, target) == n - IntendedPurgeCount(n, target) - 1
    ensures n - PurgeCount(n, target) < target
  {
  }

  function Elements<T>(s: seq<T>): set<T> {
    set x | x in s
  }

  /** A sequence without repeats has as many elements as entries. */
  lemma {:induction false} DistinctCard<T>(s: seq<T>)
    requires Distinct(s)
    ensures |Elements(s)| == |s|
  {
    if s != [] {
      var front := s[..|s| - 1];
      assert Distinct(front);
      DistinctCard(front);
      assert Elements(s) == Elements(front) + {s[|s| - 1]};
      assert s[|s| - 1] !in Elements(front);
    }
  }

  /** While fewer entries are picked than listed, random.choice can still pick a new one. */
  lemma UnchosenExists(images: seq<Path>, picked: seq<Path>)
    requires Distinct(images) && Distinct(picked)
    requires forall p :: p in picked ==> p in images
    requires |picked| < |images|
    ensures exists x :: x in images && x !in picked
  {
    DistinctCard(images);
    DistinctCard(picked);
    var all, chosen := Elements(images), Elements(picked);
    assert all * chosen == chosen;
    assert |all - chosen| == |all| - |chosen|;
    var x :| x in all - chosen;
  }

  /** One iteration of the deletion loop: os.remove(img). */
  function RemoveStep(): (Tree, Path) -> Run {
    (t: Tree, p: Path) => AfterRemove(t, p)
  }

  /** Deleting distinct files one by one removes exactly those files. */
  lemma {:induction false} RemovingFiles(t: Tree, files: seq<Path>)
    requires Distinct(files)
    requires forall k :: 0 <= k < |files| ==> IsFile(t, files[k])
    ensures Apply(t, files, RemoveStep()) == Run(t - Elements(files), Pass)
  {
    if files != [] {
      var front := files[..|files| - 1];
      var last := files[|files| - 1];
      assert Distinct(front);
      RemovingFiles(t, front);
      assert last !in Elements(front);
      assert Elements(files) == Elements(front) + {last};
      assert (t - Elements(front)) - {last} == t - Elements(files);
    }
  }

  /**
   * What purge_elements leaves in the source folder when every picked entry is
   * a file: the entries not picked, untouched, and target - 1 of them when
   * there were at least target.
   */
  lemma PurgeLeavesRest(t: Tree, dir: Path, purged: seq<Path>, target: int)
    requires target >= 1
    requires Distinct(purged)
    requires forall k :: 0 <= k < |purged| ==> purged[k] in Children(t, dir) && IsFile(t, purged[k])
    requires |purged| == PurgeCount(|Children(t, dir)|, target)
    ensures Apply(t, purged, RemoveStep()).outcome.Pass?
    ensures var after := Apply(t, purged, RemoveStep()).tree;
            && Children(after, dir) == Children(t, dir) - Elements(purged)
            && (forall p :: p in t && p !in purged ==> p in after && after[p] == t[p])
            && |Children(after, dir)| == (if target <= |Children(t, dir)| then target - 1 else |Children(t, dir)|)
  {
    RemovingFiles(t, purged);
    DistinctCard(purged);
    var after := t - Elements(purged);
    assert Children(after, dir) == Children(t, dir) - Elements(purged);
    assert Elements(purged) <= Children(t, dir);
  }

  /**
   * What a purge_elements call that got past its checks leaves, read off its
   * own result: when every entry of the folder is a file, the removals succeed,
   * the folder keeps exactly its unpicked entries, unchanged, and target - 1 of
   * them remain when there were at least target.
   */
  lemma PurgeResult(t: Tree, dir: Path, images: seq<Path>, purged: seq<Path>, target: int)
    requires target >= 1
    requires Distinct(images) && (forall e :: e in images <==> e in Children(t, dir))
    requires Distinct(purged) && (forall p :: p in purged ==> p in images)
    requires |purged| == PurgeCount(|images|, target)
    requires forall e :: e in images ==> IsFile(t, e)
    ensures Apply(t, purged, RemoveStep()).outcome.Pass?
    ensures var after := Apply(t, purged, RemoveStep()).tree;
            && Children(after, dir) == Children(t, dir) - Elements(purged)
            && (forall p :: p in t && p !in purged ==> p in after && after[p] == t[p])
            && |Children(after, dir)| == (if target <= |images| then target - 1 else |images|)
  {
    DistinctCard(images);
    assert Elements(images) == Children(t, dir);
    forall k | 0 <= k < |purged|
      ensures purged[k] in Children(t, dir) && IsFile(t, purged[k])
    {
      assert purged[k] in purged;
    }
    PurgeLeavesRest(t, dir, purged, target);
  }

  /** Pixel values of an 8-bit image band. */
  newtype byte = x: int | 0 <= x < 256

  datatype Rgb = Rgb(red: byte, green: byte, blue: byte)

  /** The level at and above which all three bands make a pixel count as background. */
  const WhiteThreshold: byte := 225

  const Black: Rgb := Rgb(0, 0, 0)

  predicate IsWhite(p: Rgb) {
    p.red >= WhiteThreshold && p.green >= WhiteThreshold && p.blue >= WhiteThreshold
  }

  /** What standardize_background makes of one pixel. */
  function Standardized(p: Rgb): (q: Rgb)
    ensures !IsWhite(q)
    ensures IsWhite(p) ==> q == Black
    ensures !IsWhite(p) ==> q == p
  {
    if IsWhite(p) then Black else p
  }

  /** The pixel at row i, column j of an image array with three bands. */
  function PixelAt(data: array3<byte>, i: int, j: int): Rgb
    requires data.Length2 == 3 && 0 <= i < data.Length0 && 0 <= j < data.Length1
    reads data
  {
    Rgb(data[i, j, 0], data[i, j, 1], data[i, j, 2])
  }

  /** One row of the mask assignment: its white pixels become black, nothing else changes. */
  method StandardizeRow(data: array3<byte>, i: int)
    requires data.Length2 == 3 && 0 <= i < data.Length0
    modifies data
    ensures forall i', j :: 0 <= i' < data.Length0 && 0 <= j < data.Length1 ==>
              PixelAt(data, i', j) == (if i' == i then Standardized(old(PixelAt(data, i', j))) else old(PixelAt(data, i', j)))
  {
    var j := 0;
    while j < data.Length1
      invariant 0 <= j <= data.Length1
      invariant forall i', j' :: 0 <= i' < data.Length0 && 0 <= j' < data.Length1 ==>
                  PixelAt(data, i', j') ==
                    (if i' == i && j' < j then Standardized(old(PixelAt(data, i', j'))) else old(PixelAt(data, i', j')))
    {
      if data[i, j, 0] >= WhiteThreshold && data[i, j, 2] >= WhiteThreshold && data[i, j, 1] >= WhiteThreshold {
        data[i, j, 0], data[i, j, 1], data[i, j, 2] := 0, 0, 0;
      }
      j := j + 1;
    }
  }

  class ImgToolbox {
    const rootPath: Path
    const datasetPath: Path
    const extrasPath: Path
    /** The parsed catalog, or None when the annotation file was absent at construction. */
    const annotations: Option<Catalog>

    /**
     * ImgToolbox(root_path): the paths below the root, and the annotations
     * when extra/instances_default.json exists. Parsing is the COCO library's;
     * parsed stands for what it yields for that file.
     */
    constructor (root: Option<string>, fs: FileSystem, parsed: Catalog)
      ensures rootPath == (if root.Some? then Parts(root.value) else [])
      ensures datasetPath == rootPath + ["dataset"] && extrasPath == rootPath + ["extra"]
      ensures annotations.None? <==> extrasPath + ["instances_default.json"] !in fs.tree
      ensures annotations.Some? ==> annotations.value == parsed
    {
      var rootPath' := [];
      if root.Some? {
        rootPath' := Parts(root.value);
      }
      rootPath := rootPath';
      datasetPath := rootPath' + ["dataset"];
      extrasPath := rootPath' + ["extra"];
      var annotationsPath := rootPath' + ["extra"] + ["instances_default.json"];
      if annotationsPath !in fs.tree {
        annotations := None;
      } else {
        annotations := Some(parsed);
      }
    }

    /**
     * create_dataset_structure: without annotations it raises before touching
     * anything; otherwise it is BuildRun, stopping at the first call that raises.
     */
    method CreateDatasetStructure(fs: FileSystem) returns (r: Outcome<Error>)
      modifies fs
      ensures annotations.None? ==> r == Fail(AnnotationsNotLoaded) && fs.tree == old(fs.tree)
      ensures annotations.Some? ==>
                Run(fs.tree, r) == BuildRun(old(fs.tree), datasetPath, extrasPath, annotations.value)
    {
      if annotations.None? {
        return Fail(AnnotationsNotLoaded);
      }
      r := MakeFolders(fs);
      if r.Fail? {
        return;
      }
      ghost var made := fs.tree;
      r := CopyImages(fs, annotations.value);
      NestedIsFlat(made, annotations.value, extrasPath, datasetPath, annotations.value.categoryIds);
    }

    /** The first half of create_dataset_structure: the dataset folder, then one per class. */
    method MakeFolders(fs: FileSystem) returns (r: Outcome<Error>)
      modifies fs
      ensures Run(fs.tree, r) == Apply(old(fs.tree), StructureFolders(datasetPath), EnsureDirStep())
    {
      ghost var t0 := fs.tree;
      ghost var folders := StructureFolders(datasetPath);
      r := Pass;
      if !fs.Exists(datasetPath) {
        r := fs.Mkdir(datasetPath);
      }
      assert Apply(t0, folders[..1], EnsureDirStep()) == Run(fs.tree, r) by {
        assert folders[..1][..0] == [];
      }
      if r.Fail? {
        ApplyStopsAtFailure(t0, folders, 1, EnsureDirStep());
        return;
      }
      var i := 0;
      while i < |ClassNames|
        invariant 0 <= i <= |ClassNames|
        invariant r == Pass
        invariant Apply(t0, folders[..i + 1], EnsureDirStep()) == Run(fs.tree, Pass)
      {
        var classPath := datasetPath + [ClassNames[i]];
        ApplyStep(t0, folders, i + 1, EnsureDirStep());
        if !fs.Exists(classPath) {
          r := fs.Mkdir(classPath);
          if r.Fail? {
            ApplyStopsAtFailure(t0, folders, i + 2, EnsureDirStep());
            return;
          }
        }
        i := i + 1;
      }
      assert folders[..3] == folders;
    }

    /** The second half: for every category, copy each of its images into its class folder. */
    method CopyImages(fs: FileSystem, catalog: Catalog) returns (r: Outcome<Error>)
      modifies fs
      ensures Run(fs.tree, r) == Apply(old(fs.tree), catalog.categoryIds, CategoryStep(catalog, extrasPath, datasetPath))
    {
      ghost var made := fs.tree;
      var ids := catalog.categoryIds;
      r := Pass;
      var ci := 0;
      while ci < |ids|
        invariant 0 <= ci <= |ids|
        invariant r == Pass
        invariant Apply(made, ids[..ci], CategoryStep(catalog, extrasPath, datasetPath)) == Run(fs.tree, Pass)
      {
        ghost var t := fs.tree;
        r := CopyCategory(fs, catalog, ids[ci]);
        CategoryFolds(made, t, fs.tree, r, catalog, extrasPath, datasetPath, ids, ci);
        if r.Fail? {
          return;
        }
        ci := ci + 1;
      }
      assert ids[..ci] == ids;
    }

    /** The inner loop: every image of category id, copied into its class folder. */
    method CopyCategory(fs: FileSystem, catalog: Catalog, id: int) returns (r: Outcome<Error>)
      modifies fs
      ensures Run(fs.tree, r) == Apply(old(fs.tree), CategoryCopies(catalog, extrasPath, id), CopyStep(datasetPath))
    {
      ghost var before := fs.tree;
      ghost var copies := CategoryCopies(catalog, extrasPath, id);
      var images := ImagesOf(catalog, id);
      r := Pass;
      var j := 0;
      while j < |images|
        invariant 0 <= j <= |images|
        invariant r == Pass
        invariant Apply(before, copies[..j], CopyStep(datasetPath)) == Run(fs.tree, Pass)
      {
        var imagePath := extrasPath + Parts(images[j]);
        var imageName := NameOf(imagePath);
        ghost var t := fs.tree;
        if id in HealthyCategories {
          r := fs.CopyFile(imagePath, datasetPath + ["healthy", imageName]);
        } else {
          r := fs.CopyFile(imagePath, datasetPath + ["unhealthy", imageName]);
        }
        CopyOneImage(catalog, extrasPath, datasetPath, id, j, before, t, fs.tree, r);
        if r.Fail? {
          return;
        }
        j := j + 1;
      }
      assert copies[..j] == copies;
    }

    /**
     * The pixel work of standardize_background on one decoded image, an
     * array of rows, columns and bands: the bands must be exactly three (the
     * unpacking of data.T), and then every pixel that is white in all three
     * becomes black while every other pixel keeps its value.
     */
    static method StandardizePixels(data: array3<byte>) returns (r: Outcome<Error>)
      modifies data
      ensures data.Length2 != 3 ==> r == Fail(BandCount(data.Length2)) && unchanged(data)
      ensures data.Length2 == 3 ==>
                && r == Pass
                && forall i, j :: 0 <= i < data.Length0 && 0 <= j < data.Length1 ==>
                     PixelAt(data, i, j) == Standardized(old(PixelAt(data, i, j)))
    {
      if data.Length2 != 3 {
        return Fail(BandCount(data.Length2));
      }
      var i := 0;
      while i < data.Length0
        invariant 0 <= i <= data.Length0
        invariant forall i', j :: 0 <= i' < data.Length0 && 0 <= j < data.Length1 ==>
                    PixelAt(data, i', j) ==
                      (if i' < i then Standardized(old(PixelAt(data, i', j))) else old(PixelAt(data, i', j)))
      {
        StandardizeRow(data, i);
        i := i + 1;
      }
      r := Pass;
    }

    /**
     * purge_elements(source, target_amount): after its checks and the listing
     * of source, it picks distinct entries at random until it holds more than
     * (entries - target_amount) of them, then removes them one by one.
     */
    static method PurgeElements(fs: FileSystem, source: string, targetAmount: PyValue)
      returns (r: Outcome<Error>, ghost images: seq<Path>, ghost purged: seq<Path>)
      modifies fs
      ensures PurgeCheck(old(fs.tree), source, targetAmount).Fail? ==>
                r == PurgeCheck(old(fs.tree), source, targetAmount) && fs.tree == old(fs.tree)
      ensures PurgeCheck(old(fs.tree), source, targetAmount).Pass? && ListCheck(old(fs.tree), Parts(source)).Fail? ==>
                r == ListCheck(old(fs.tree), Parts(source)) && fs.tree == old(fs.tree)
      ensures PurgeCheck(old(fs.tree), source, targetAmount).Pass? && ListCheck(old(fs.tree), Parts(source)).Pass? ==>
                && Distinct(images)
                && (forall e :: e in images <==> e in Children(old(fs.tree), Parts(source)))
                && Distinct(purged)
                && (forall p :: p in purged ==> p in images)
                && |purged| == PurgeCount(|images|, targetAmount.i)
                && Run(fs.tree, r) == Apply(old(fs.tree), purged, RemoveStep())
    {
      images, purged := [], [];
      r := PurgeCheck(fs.tree, source, targetAmount);
      if r.Fail? {
        return;
      }
      var target := targetAmount.i;
      var entries;
      r, entries := fs.ListDir(Parts(source));
      images := entries;
      if r.Fail? {
        return;
      }
      var picked := PickForPurge(entries, target);
      purged := picked;
      r := RemoveAll(fs, picked);
    }

    /** The selection loop of purge_elements, random.choice retried until it yields an unpicked entry. */
    static method PickForPurge(images: seq<Path>, target: int) returns (picked: seq<Path>)
      requires Distinct(images) && target >= 1
      ensures Distinct(picked)
      ensures forall p :: p in picked ==> p in images
      ensures |picked| == PurgeCount(|images|, target)
    {
      picked := [];
      while |picked| <= |images| - target
        invariant Distinct(picked)
        invariant forall p :: p in picked ==> p in images
        invariant |picked| <= PurgeCount(|images|, target)
        decreases |images| - |picked|
      {
        UnchosenExists(images, picked);
        var choice :| choice in images && choice !in picked;
        picked := picked + [choice];
      }
    }

    /** The deletion loop of purge_elements: os.remove on each picked entry in turn. */
    static method RemoveAll(fs: FileSystem, picked: seq<Path>) returns (r: Outcome<Error>)
      modifies fs
      ensures Run(fs.tree, r) == Apply(old(fs.tree), picked, RemoveStep())
    {
      ghost var listed := fs.tree;
      r := Pass;
      var k := 0;
      while k < |picked|
        invariant 0 <= k <= |picked|
        invariant r == Pass
        invariant Apply(listed, picked[..k], RemoveStep()) == Run(fs.tree, Pass)
      {
        ApplyStep(listed, picked, k, RemoveStep());
        r := fs.Remove(picked[k]);
        if r.Fail? {
          ApplyStopsAtFailure(listed, picked, k + 1, RemoveStep());
          return;
        }
        k := k + 1;
      }
      assert picked[..k] == picked;
    }
  }
}
