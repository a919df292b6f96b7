# health-detection image toolbox, modelled in Dafny

This project models the dataset-preparation core of health-detection:

- `ImgToolbox` in `utils/utils.py`:
  - the constructor, which finds the annotation file;
  - `create_dataset_structure`, which creates the `dataset/healthy` and `dataset/unhealthy` folders and copies every image of the COCO catalog into one of them;
  - the parameter checks of `resize_image`;
  - the pixel mask of `standardize_background`;
  - `purge_elements`, which deletes images chosen at random from a folder.
- `downscale_images` in `convnet/utils.py`, which writes a reduced copy of every JPEG or PNG file of one folder into another.

Modules:

- `Wrappers`: `Option` and `Outcome` (either `Pass` or `Fail(error)`).
- `Exceptions`: one error per raising site or operating-system failure, and the Python exception class each one is.
- `FileSystem`:
  - the directory tree as a map from path to `Dir` or `File(bytes)`;
  - the effect of `os.mkdir`, `shutil.copyfile`, `os.remove`, `Image.open`/`save` (as whole-file reads and writes) and `Path.iterdir`, as functions;
  - `Apply`, the fail-stop loop over a sequence of calls: the first call that raises ends the loop and leaves its state;
  - a `FileSystem` class whose methods change the tree exactly as those functions say.
- `PathNames`: the parts of `pathlib` the code relies on, namely splitting a path string, `suffix`, `stem`, and the decimal text of an int.
- `Toolbox`: `utils/utils.py`, with `ImgToolbox` as a class.
- `Convnet`: `convnet/utils.py`.

Every modelled loop of the source that changes the filesystem is a `while` loop in a method. Each such method ensures that its final tree and outcome equal `Apply` over the same sequence of calls, starting from the initial tree. The lemmas then state what that fold does.

Where the code differs from what its names, comments or docstring suggest, the model follows the code, and states the difference as a lemma where it can:

- `purge_elements` deletes `n - target_amount + 1` entries, although its parameter is named `target_amount`: `target_amount - 1` entries remain (`PurgeLeavesOneFewer`).
- The output names of `downscale_images` contain `..`, unlike the docstring's example (`OutputNameExample`).
- The unpacking in `standardize_background` needs exactly three bands. The comment beside it (utils/utils.py:108) speaks of four.

Creating the dataset without annotations raises `RuntimeError` (utils/utils.py:37). The checks of `downscale_images` are `assert` statements and raise `AssertionError` (convnet/utils.py:25-29).

## Model

| member | source | states |
|---|---|---|
| Toolbox.ImgToolbox.constructor | utils/utils.py:16-31 | The root is `.` unless a root path is given. `dataset` and `extra` lie directly below the root. The annotations are absent exactly when `extra/instances_default.json` does not exist, and are otherwise the parsed catalog. |
| Toolbox.ImgToolbox.CreateDatasetStructure | utils/utils.py:33-66 | Without annotations, it raises `RuntimeError` and the tree is unchanged: no folder is made and nothing is copied. Otherwise the tree and outcome are `BuildRun`: the three folder steps, then every copy in catalog order, stopping at the first call that raises. |
| Toolbox.ImgToolbox.MakeFolders | utils/utils.py:39-51 | Creates `dataset`, `dataset/healthy` and `dataset/unhealthy` in that order, each only when absent. The result is the fail-stop fold of those three steps. |
| Toolbox.EnsureDirsOnlyAdd | utils/utils.py:42-51 | When the folder steps succeed, the paths after them are exactly the old paths plus the folders. Every old entry keeps its node, and every new entry is a directory. |
| Toolbox.StructureIsIdempotent | utils/utils.py:42-51 | Running the folder steps again, on the tree a successful first run left, changes nothing and raises nothing. |
| Toolbox.ImgToolbox.CopyImages | utils/utils.py:53-66 | The outer loop over category ids ends in the state and outcome of the fail-stop fold, one category at a time. |
| Toolbox.ImgToolbox.CopyCategory | utils/utils.py:55-66 | The inner loop over one category's images makes that category's copies in order, stopping at the first raise. |
| Toolbox.NestedIsFlat | utils/utils.py:54-66 | The two nested loops make the same calls, in the same order, with the same fail-stop result as one loop over all copies of the catalog. |
| Toolbox.ListingsOfCovers | utils/utils.py:54-58 | The images the loops visit are exactly the pairs (category id, file name) the catalog lists, under a listed category. |
| Toolbox.EveryImageCopiedToItsClass | utils/utils.py:14-66 | Every image of every category is copied from `extra/<file_name>` under its base name. Its class folder is `healthy` iff the category is 1 or 8, so it never lands in the other class folder. Every copy made comes from such an image. |
| Toolbox.Route | utils/utils.py:58-66 | The last copy's name lands in its class folder with its source. The two folders together hold no more names than there are copies. |
| Toolbox.RouteIsLastCopy | utils/utils.py:58-66 | A class folder receives a name iff some copy into that folder has that name. What it holds there comes from the last such copy, so later copies overwrite earlier ones. |
| Toolbox.CopiesLandAsRouted | utils/utils.py:58-66 | When every copy succeeds, each class folder holds the names the routing gives it, with the content of the source of the last copy. Every other path is as before. |
| Toolbox.BuildFillsClassFolders | utils/utils.py:39-66 | A build that runs to the end leaves the three folders in place. The class folders are filled as routed, from the contents the sources had before the build. Nothing outside `dataset` changes. |
| Toolbox.SourceCheck | utils/utils.py:73-75 | Passes iff the source path exists. Otherwise it raises `ValueError` naming that path. |
| Toolbox.ResizeCheck | utils/utils.py:73-86 | Passes iff the source exists and the size is a tuple of exactly two ints. The failures come in source order: a missing source raises `ValueError`; a non-tuple raises `TypeError`; a wrong length raises `ValueError` with that length; a non-int item raises `ValueError`. |
| Toolbox.PurgeCheck | utils/utils.py:122-130 | Passes iff the source exists and the amount is an int of at least 1. A missing source raises `ValueError`, then a non-int raises `TypeError`, then an amount below 1 raises `ValueError` with that amount. |
| Toolbox.ImgToolbox.PurgeElements | utils/utils.py:119-143 | A failed check or listing raises and changes nothing. Otherwise it lists the folder's entries, each once. It picks distinct listed entries, as many as `PurgeCount`, and the tree and outcome are the fail-stop fold of removing them. |
| Toolbox.ImgToolbox.PickForPurge | utils/utils.py:134-139 | The selection loop ends holding distinct entries of the listing, exactly `PurgeCount(n, target)` of them. |
| Toolbox.UnchosenExists | utils/utils.py:136-139 | While fewer entries are picked than listed, some listed entry is still unpicked. So every retry of the random choice can succeed, and the loop can end. |
| Toolbox.PurgeCount | utils/utils.py:136-139 | The count the loop condition allows never exceeds n. With target ≤ n, it leaves target − 1 entries; with target > n, it picks none. |
| Toolbox.IntendedPurgeCount | utils/utils.py:136 | The count a name like `target_amount` promises: exactly target entries remain, or all n when there are fewer. |
| Toolbox.PurgeLeavesOneFewer | utils/utils.py:136 | For 1 ≤ target ≤ n, the loop as written leaves one entry fewer than the intended count, so fewer than target remain. |
| Toolbox.PurgeResult | utils/utils.py:134-143 | What the ensures of `PurgeElements` give leads to `PurgeLeavesRest`: the removals succeed, the folder keeps exactly its unpicked entries, and `target − 1` of them when it had at least `target`. |
| Toolbox.ImgToolbox.RemoveAll | utils/utils.py:141-143 | The deletion loop ends in the state and outcome of the fail-stop fold of `os.remove` over the picked entries. |
| Toolbox.RemovingFiles | utils/utils.py:141-143 | Removing distinct files one by one succeeds and removes exactly those paths. |
| Toolbox.PurgeLeavesRest | utils/utils.py:134-143 | When the picked entries are files of the folder, the removals succeed. The folder keeps exactly its unpicked entries, unchanged, and holds target − 1 of them when it had at least target. |
| Toolbox.Standardized | utils/utils.py:111-113 | A pixel with red, green and blue all ≥ 225 becomes (0,0,0); any other pixel keeps its value. No result is white. |
| Toolbox.StandardizeRow | utils/utils.py:112-113 | In place on the array: every pixel of row i becomes its standardized value, and every other pixel keeps its value. |
| Toolbox.ImgToolbox.StandardizePixels | utils/utils.py:108-113 | With other than three bands, the unpacking raises and the array is unchanged. With three, every pixel of the array becomes its standardized value in place. |
| Convnet.SuffixMatchIsCaseSensitive | convnet/utils.py:31-32 | The extension test is exact: `photo.jpg` is processed and `photo.JPG` is skipped. |
| Convnet.IsSupported | convnet/utils.py:4 | The predicate `file.suffix in SUPPORTED_EXTENSIONS`, compared exactly. It carries no contract; `SupportedByEnding` and `SuffixMatchIsCaseSensitive` state what it means. |
| Convnet.SupportedByEnding | convnet/utils.py:31-32 | A name passes the extension test iff it ends with `.jpg`, `.jpeg` or `.png` after at least one other character. |
| Convnet.OutputName | convnet/utils.py:36 | The name as written is longer than stem and suffix together. It starts with the stem, ends with a dot followed by the suffix, and has no separator when stem and suffix have none. |
| Convnet.SizeTag | convnet/utils.py:36 | The size part of the name starts with `_` and contains no dot or separator. |
| Convnet.OutputNameAsWritten | convnet/utils.py:36 | For a supported input name, the saved name keeps the input's suffix. Its stem is the input stem, then the size tag, then a stray dot. |
| Convnet.OutputNameExample | convnet/utils.py:21 | The docstring's `image.jpg` at 256 x 256 is saved as written as `image_256x256..jpg`. The intended name is `image_256x256.jpg`. |
| Convnet.IntendedOutputNameSplits | convnet/utils.py:21 | The intended name splits back into the input's suffix, and a stem that is the input stem followed by the size tag. |
| Convnet.DownscaleCheck | convnet/utils.py:25-29 | Passes iff both `path` and `out` are existing directories. Every failure is an `AssertionError`, and `path` is checked, existence first, before `out`. |
| Convnet.DownscaleImages | convnet/utils.py:25-39 | A failed check raises and changes nothing. Otherwise it lists the entries of `path`, each once, and the tree and outcome are the fail-stop fold of the per-entry step over that listing. |
| Convnet.DownscaleFile | convnet/utils.py:32-39 | One loop iteration: an unsupported entry changes nothing. A supported one is read, which raises if it is missing or a directory. A factor below 1 then raises `ValueError` in `reduce` and writes nothing. Otherwise its reduction is written to `out` under the output name. |
| Convnet.DownscaleStepEffect | convnet/utils.py:32-39 | A step either leaves the tree as it was, or writes exactly one path: the output of a supported file. A supported entry's step succeeds only after writing its output. |
| Convnet.DownscaleOutputs | convnet/utils.py:31-39 | When reading from a folder other than `out`, the loop writes only the outputs of supported files. Every other entry keeps its content, and nothing else appears. When the loop completes, every supported entry was a file whose output exists. |
| Convnet.OutputsInOut | convnet/utils.py:37 | Every output path lies directly inside `out`. |
| FileSystem.FileSystem.ListDir | utils/utils.py:134 | `iterdir` raises for a missing path or a file. Otherwise it returns each entry of the folder exactly once, in an unspecified order. |
| FileSystem.FileSystem.CopyFile | utils/utils.py:63 | `shutil.copyfile` changes the tree exactly as `AfterCopy` says. It raises for the same file, a missing source, a source directory, a directory target or a missing parent; otherwise the target becomes a copy of the source. |
| FileSystem.FileSystem.Mkdir | utils/utils.py:44 | `os.mkdir` raises for an existing path or a missing parent, and otherwise adds one directory. |
| FileSystem.FileSystem.Remove | utils/utils.py:143 | `os.remove` raises for a missing path or a directory, and otherwise removes that one path. |
| FileSystem.FileSystem.WriteFile | convnet/utils.py:39 | Saving raises for a directory target or a missing parent. Otherwise the target becomes a file holding exactly the written bytes, and nothing else changes. |
| FileSystem.FileSystem.ReadFile | convnet/utils.py:33 | Opening raises for a missing path or a directory, and otherwise yields the file's bytes. |
| FileSystem.OperationsPreserveValid | utils/utils.py:44-66 | A sanity lemma about the filesystem model, which no other contract needs: every filesystem call keeps the tree well formed, with a directory as root and a directory as parent of every entry. |
| FileSystem.ApplyStopsAtFailure | utils/utils.py:53-66 | Once a call has raised, the remaining iterations of a loop change nothing. |
| PathNames.PartsOfJoin | utils/utils.py:59 | A sanity lemma about `Parts`, with `Join` as its partner: splitting the written-out form of proper path components gives the components back. |
| PathNames.PartsAreComponents | utils/utils.py:59 | Every component kept from a path string is non-empty, not `.`, and has no separator. |
| PathNames.Parts | utils/utils.py:59-60 | The empty string and `.` give no components, a single component gives itself, and a leading separator is dropped. |
| PathNames.Suffix | convnet/utils.py:32 | `PurePath.suffix`: the part from the last dot of the name, or empty when the name has no dot or its last dot is first or last. It carries no contract; `StemAndSuffix` states its properties. |
| PathNames.Stem | convnet/utils.py:36 | `PurePath.stem`: the name without its suffix. It carries no contract; `StemAndSuffix` states its properties. |
| PathNames.StemAndSuffix | convnet/utils.py:32-36 | A name is its stem followed by its suffix. A non-empty suffix is a dot followed by at least one other character, none of them a dot, after a non-empty stem. |
| PathNames.DecimalRoundTrip | convnet/utils.py:36 | The decimal text written for a size reads back as that size. |

## Left out

- Image decoding and encoding, `Image.reduce`, `thumbnail` with Lanczos resampling, and the numeric array: these are the image and array libraries' code.
  - `reduce` is an uninterpreted parameter giving width, height and bytes. Its refusal of a factor below 1 with `ValueError` is modelled, after the file is opened.
  - An image is a three-dimensional `array` of 8-bit values.
  - A file that exists but does not decode is not modelled.
- `DownscaleImages` does not state the docstring's claim that 1024 x 1024 reduced by 4 gives 256 x 256, nor the spacing of the sizes. That arithmetic is inside `reduce`. The default factor 2 is kept.
- The image loop of `resize_image` (lines 89-92) is not modelled. Only the checks that precede it are; the rest is `thumbnail` and `save` on every entry.
- The file loop of `standardize_background` (lines 98-105 and 115-116) is not modelled: the source check, listing, decoding and saving. Only the per-image mask is, as `StandardizePixels`.
- `StandardizePixels` does not model two-dimensional (grayscale) arrays; the model takes every image as rows × columns × bands. For an H × W array, `data.T` unpacks along the width: every width other than 3 raises the same `ValueError`, and a width of exactly 3 does not raise but reads each row as one three-band pixel.
- COCO parsing is the COCO library's code.
  - The constructor takes the catalog the parser would produce. It gives `Some(catalog)` for any existing annotation path; `COCO` raising when that path is a directory or does not hold valid JSON (utils/utils.py:31) is not modelled.
  - The order of `getCatIds()` is the order of the catalog's id sequence.
  - A category without images lists nothing, as the parser's default dictionary does.
- The warning the constructor prints is not modelled.
- Paths are sequences of components relative to the working directory. `absolute()`, `..` and symbolic links are not modelled.
- PathNames.Parts drops a leading `/`, so an absolute `root_path` or `file_name` is read as relative. The way `Path(EXTRAS_PATH, file_name)` discards `EXTRAS_PATH` when `file_name` is absolute (utils/utils.py:59) is not modelled.
- Convnet.DownscaleCheck always checks. Under `python -O` the asserts of convnet/utils.py:25-29 are removed, and that mode is not modelled.
- The uniformity of `random.choice` cannot be stated in this logic. `PickForPurge` picks any unpicked entry, and retries that would pick an entry already chosen are collapsed into one pick.
- The order of `iterdir` is left open: `ListDir` returns any duplicate-free ordering of the entries.
- Python typing quirks are not modelled:
  - `bool` passing as `int`;
  - the default `target_size` being the typing object `Tuple[int, int]`, which is not a tuple and so raises `TypeError`, as an `Other` value does here;
  - plain strings given to `downscale_images`, which have no `exists()`;
  - a `factor` of `None`.
- `DownscaleOutputs` is stated only when `path` and `out` differ. When they are the same folder, as in the docstring's example, outputs are written beside their inputs; the listing is taken before the loop, so the new files are not processed.
- The repository's image loader is not modelled.
- Concurrency and partial writes are not modelled: every filesystem call is atomic.

