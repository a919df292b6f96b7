/**
 * The exceptions the modelled code raises, one constructor per raising site
 * (or per operating-system failure), and the Python class each one is.
 */
module Exceptions {

  type Path = seq<string>

  /** Python exception classes that can escape from the modelled code. */
  datatype Kind =
    | ValueError | TypeError | RuntimeError | AssertionError
    | FileNotFoundError | NotADirectoryError | IsADirectoryError
    | FileExistsError | SameFileError

  datatype Error =
      // a source folder that is not on the filesystem (utils/utils.py)
    | SourceMissing(source: Path)
      // a target size that is not a tuple
    | SizeNotTuple
      // a target size tuple with other than two items
    | SizeWrongLength(length: nat)
      // a target size with an item that is not an int
    | SizeNotIntegers
      // a target amount that is not an int
    | AmountNotInteger
      // a target amount below one
    | AmountBelowOne(amount: int)
      // building the dataset with no annotations loaded
    | AnnotationsNotLoaded
      // utils/utils.py: unpacking the bands of an image that does not have exactly three
    | BandCount(bands: nat)
      // a folder of downscale_images that is missing (convnet/utils.py)
    | AssertExists(path: Path)
      // a folder of downscale_images that is not a directory
    | AssertIsDir(path: Path)
      // a reduction factor below one, refused by the image library
    | FactorBelowOne(factor: int)
      // raised by the operating system or by shutil
    | FileNotFound(path: Path)
    | NotADirectory(path: Path)
    | IsADirectory(path: Path)
    | FileExists(path: Path)
    | SameFile(path: Path)

  function KindOf(e: Error): Kind
  {
    match e
    case SourceMissing(_) => ValueError
    case SizeNotTuple => TypeError
    case SizeWrongLength(_) => ValueError
    case SizeNotIntegers => ValueError
    case AmountNotInteger => TypeError
    case AmountBelowOne(_) => ValueError
    case AnnotationsNotLoaded => RuntimeError
    case BandCount(_) => ValueError
    case AssertExists(_) => AssertionError
    case AssertIsDir(_) => AssertionError
    case FactorBelowOne(_) => ValueError
    case FileNotFound(_) => FileNotFoundError
    case NotADirectory(_) => NotADirectoryError
    case IsADirectory(_) => IsADirectoryError
    case FileExists(_) => FileExistsError
    case SameFile(_) => SameFileError
  }
}
