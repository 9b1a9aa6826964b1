# simpleocr image files, modelled in Dafny

This project models `simpleocr/files.py` of simple-ocr-opencv. That module
turns a partial file name into an image file or a ground (box) file. It also
defines the objects that tie an image to its ground truth: the labelled
character segments that train and evaluate the OCR.

- **Path resolution** (`Files.TryExtensions`, `Files.GetFilePath`): pure
  functions over a filesystem. The filesystem is the set of absolute paths
  of existing entries plus the working directory. `get_file_path` tries
  three tiers in a fixed order, and the first match wins:
  1. the literal path;
  2. the path with its extension stripped, then followed by each known extension;
  3. the path under the data directory, then followed by each known extension.

  A ground lookup uses the ground extensions (`.box`); an image lookup uses
  the image extensions (`.png`, `.tif`, `.jpg`, `.jpeg`). When nothing
  matches, the result is the `IOError` the source raises.
- **`os.path`** (`OsPath`): `isabs`, `join`, `splitext` and `abspath` are
  small explicit definitions following POSIX Python. `exists` and `remove`
  work on the filesystem, which is a class whose entry set `remove` changes.
- **Ground truth** (`Files.Ground`): one record for both `Ground` and
  `GroundFile`. Its optional path is the box file it is stored in; an
  in-memory `Ground` has none.
- **Images** (`Files.Image`, `Files.ImageFile`): classes whose `ground`
  field holds at most one ground. `set_ground` replaces it wholesale, and
  `remove_ground` detaches it. `ImageFile` also has a ground path that
  never changes, and its `remove_ground` can delete the file at that path.
  `ImageFile.Valid()` states that class's invariant: the ground path is the
  image's base path plus `.box`, and an attached ground is stored at that
  path.

The model treats three things in the environment as parameters:

- The working directory (`os.getcwd()`) is a field of the filesystem.
- The image decoder (`cv2.imread`) is passed in as a function `imread`, and
  the pixels are an opaque value.
- The box-file reader (`read_boxfile` in `simpleocr/tesseract_utils.py`,
  which is not part of this model) is passed in as a function `readBox`.

Writing a box file (`write_boxfile`) is modelled only by its effect on the
filesystem: afterwards an entry exists at the ground path.

Python's `if image_with_extension:` is modelled as "a path was found". The
two readings agree because `os.path.exists("")` is false, so the empty
string is never returned.

`set_ground` does not check that the number of segments equals the number
of classes, and the model follows the code. That check lives in the
grounding classes (`simpleocr/grounding.py` is not part of this model).

`remove_ground(remove_file=True)` deletes the file at the ground path. The
invariant ensures that this is the path of any ground that was attached.

## Model

| member | source | states |
|---|---|---|
| `OsPath.Join` | simpleocr/files.py:43 | `os.path.join`: an absolute second part replaces the first; otherwise the result is the first part followed by the second, with one slash added between them exactly when the first part is non-empty and does not already end in one |
| `OsPath.IsAbs` | simpleocr/files.py:37 | `os.path.isabs` on POSIX: a path is absolute exactly when it is `/` followed by something |
| `OsPath.AbsPath` | simpleocr/files.py:37 | `os.path.abspath`: an absolute path is kept, a relative one is joined onto the working directory, and the result is absolute whenever the working directory is |
| `OsPath.AbsPathIdempotent` | simpleocr/files.py:41 | making a path absolute twice gives the same path as doing it once |
| `OsPath.SplitExt` | simpleocr/files.py:39 | `os.path.splitext`: root + extension is the path; the extension is empty or one dot followed by non-dot, non-slash characters; a non-empty extension leaves a root whose last component is not all dots |
| `OsPath.SplitExtAppended` | simpleocr/files.py:142 | `splitext` undoes appending an extension to a name that has a stem |
| `OsPath.PathExists` | simpleocr/files.py:15 | `os.path.exists`: the empty path never exists, and an absolute path exists exactly when it is an entry |
| `OsPath.FileSystem.Exists` | simpleocr/files.py:36 | the same test on the filesystem object: the empty path never exists, an absolute path exists exactly when it is an entry |
| `OsPath.FileSystem.Remove` | simpleocr/files.py:167 | `os.remove`: removes an existing entry, raises file-not-found (leaving the filesystem alone) otherwise; afterwards the path does not exist |
| `OsPath.FileSystem.Create` | simpleocr/files.py:86 | writing a file: afterwards an entry exists at the path and nothing else changed |
| `Files.FirstExisting` | simpleocr/files.py:14-17 | the loop of `try_extensions`: None exactly when no completion exists; otherwise the first existing completion, no earlier one existing |
| `Files.TryExtensions` | simpleocr/files.py:12-17 | the path itself is tried first and wins if it exists; any result exists; None exactly when neither the path nor any completion exists; any other result is the first existing completion in extension order |
| `Files.ExtensionsFor` | simpleocr/files.py:34 | the extensions of a lookup are a non-empty list of extensions, ground extensions exactly for a ground lookup |
| `Files.GetFilePath` | simpleocr/files.py:24-47 | an existing literal path wins and is returned in absolute form; any result is the absolute form of some existing path |
| `Files.Candidates` | simpleocr/files.py:36-45 | the candidates in priority order: the literal path, then the stripped path followed by nothing and by each extension, then the data-directory path followed by the same |
| `Files.FirstExistingConcat` | simpleocr/files.py:36-45 | searching two lists in sequence consults the second only when nothing in the first exists |
| `Files.FirstExistingAppended` | simpleocr/files.py:14-16 | completing a base with suffixes is searching the completed paths |
| `Files.TierIsTryExtensions` | simpleocr/files.py:39-45 | one completion tier is exactly `try_extensions` on its base |
| `Files.CandidatesInTiers` | simpleocr/files.py:36-45 | searching all candidates in order is the literal path, then the stripped-path tier, then the data-directory tier |
| `Files.GetFilePathIsFirstCandidate` | simpleocr/files.py:36-47 | `get_file_path` is the absolute form of the first existing candidate in priority order, and raises when there is none |
| `Files.NotFoundIffNoCandidate` | simpleocr/files.py:36-47 | `get_file_path` raises exactly when none of its candidates exists |
| `Files.NoneIffNoneExists` | simpleocr/files.py:14-17 | searching a list of whole paths finds nothing exactly when none of them exists |
| `Files.ExtensionTierBeforeDataDirectory` | simpleocr/files.py:38-41 | with the literal path missing, an existing completion of the stripped path is returned whatever the data directory holds |
| `Files.DataDirectoryTierLast` | simpleocr/files.py:42-45 | a result that is neither the literal path nor any stripped-path candidate means both earlier tiers failed, and it is the first data-directory completion |
| `Files.ResolvedShape` | simpleocr/files.py:34-45 | a result is the literal path, or a stripped or data-directory base followed by nothing or by one extension of the lookup's kind (ground or image) |
| `Files.ResolvedPathIsFixedPoint` | simpleocr/files.py:36-37 | a resolved path exists, and resolving it again returns it unchanged |
| `Files.DigitsImageLookup` | simpleocr/files.py:24-47 | with `digits1.png` and `digits1.box` present, the image lookup of `digits1` gives the `.png` |
| `Files.DigitsGroundLookup` | simpleocr/files.py:34 | the ground lookup of the same name gives the `.box` |
| `Files.DigitsCompletion` | simpleocr/files.py:12-17 | in that layout the bare stem does not exist and is completed with the first extension |
| `Files.ReadGround` | simpleocr/files.py:61-62 | reading keeps the path; an in-memory ground is unchanged; a file-backed ground takes its classes and segments from its box file |
| `Files.WriteGround` | simpleocr/files.py:84-86 | writing a file-backed ground creates its box file; an in-memory ground writes nothing |
| `Files.Image.constructor` | simpleocr/files.py:93-100 | a new image holds the given pixels and no ground |
| `Files.Image.IsGrounded` | simpleocr/files.py:120-122 | `is_grounded` holds exactly when a ground is attached |
| `Files.Image.SetGround` | simpleocr/files.py:102-106 | afterwards grounded with exactly the given segments and classes, with no box file |
| `Files.Image.RemoveGround` | simpleocr/files.py:108-112 | afterwards no ground is attached, whatever the prior state |
| `Files.GroundLookup` | simpleocr/files.py:142-143 | the ground lookup (corrected, see Findings) finds a ground exactly when base path + `.box` exists, and then returns that path |
| `Files.GroundLookupAsWritten` | simpleocr/files.py:142-143 | the lookup as written returns the base path itself when it exists, finds something exactly when the base path or base path + `.box` exists, and otherwise returns base path + `.box` |
| `Files.ExtensionlessImageIsOwnGround` | simpleocr/files.py:142-145 | as written, an existing image with no extension is found as its own ground file |
| `Files.ExtensionlessImageExample` | simpleocr/files.py:142-145 | for the image `/data/scan`, the lookup as written returns the image path, the corrected one finds nothing |
| `Files.GroundLookupNeverImage` | simpleocr/files.py:142-148 | the corrected lookup never returns the image path unless the image's own extension is `.box` |
| `Files.GroundLookupsAgree` | simpleocr/files.py:143 | the written and corrected lookups agree whenever the base path itself does not exist |
| `Files.ImageFile.constructor` | simpleocr/files.py:134-149 | keeps the path and the decoded pixels; the ground path is base path + `.box`; grounded exactly when that file exists, and then the ground is what the box-file reader returns for it |
| `Files.ImageFile.IsGrounded` | simpleocr/files.py:120-122 | `is_grounded` holds exactly when a ground is attached, and then (under the invariant) that ground is stored at the ground path |
| `Files.ImageFile.SetGround` | simpleocr/files.py:151-159 | afterwards grounded with exactly the given segments and classes stored at the ground path; `path`, `image` and the ground path are constants and so unchanged; the filesystem is untouched unless `writeFile`, and then only the ground file is created |
| `Files.ImageFile.RemoveGround` | simpleocr/files.py:161-167 | afterwards ungrounded, whatever the prior state; without `removeFile` nothing else changes; with it the ground file is deleted (file-not-found raised, after detaching, when it is missing) and no longer exists |
| `Files.OpenImage` | simpleocr/files.py:20-21 | raises exactly when the image lookup does; otherwise a new valid image at the resolved path holding the pixels decoded from that path, grounded exactly when its ground file exists, with the ground read from that file |
| `Files.DigitsGroundPath` | simpleocr/files.py:142-148 | the ground path of `/w/digits1.png` is `/w/digits1.box`, which exists in the sample layout |
| `Files.OpenDigits` | simpleocr/files.py:20-21 | `open_image("digits1")` in the sample layout loads a grounded image at `/w/digits1.png` whose classes come from `/w/digits1.box` |
| `Files.DigitsBareGroundPath` | simpleocr/files.py:142-148 | the bare name `digits1` has ground path `digits1.box`, which exists in the sample layout |
| `Files.ImageFileDigits` | tests/test_files.py:12-14 | `ImageFile("digits1")` keeps the path `digits1`, has ground path `digits1.box`, holds the pixels decoded from `digits1` and is grounded with the classes read from `digits1.box` |
| `Files.RegroundThenUnground` | tests/test_files.py:12-18 | re-grounding with the image's own ground leaves it grounded and writes nothing; removing the ground then ungrounds it and deletes nothing |

## Left out

- `cv2.imread` is the parameter `imread`, and pixels are an opaque value. Its `None` result for an unreadable file is not told apart from a real image.
- `read_boxfile` and `write_boxfile` are not modelled inside. Reading is the parameter `readBox`, and its failures on a malformed file are not modelled. Writing only creates the entry; its contents and failures (such as a missing directory) are not modelled. No round trip of the box format is claimed.
- `resource_filename("simpleocr", "data")` is the fixed absolute path `DataDirectory`.
- `OsPath.AbsPath`: does not model `normpath`, which folds `.`, `..` and repeated slashes, so two spellings of one file are different paths here.
- The filesystem does not tell files from directories. `os.remove` on a directory, which raises in the source, removes the entry here.
- The `debug` flag and the warning `print`s of both `set_ground` and `remove_ground` are diagnostics only. Note that `Image.remove_ground` warns even without `debug`.
- `Ground` is a value here. In the source, `ImageFile.ground` hands out the live object, so a caller can mutate its segments and classes in place; that aliasing is not modelled.
- `Ground(segments=None, classes=None)` defaults: the model's sequences start empty and are filled by `read` at once, as the constructor does.
- `ImageFile` subclasses `Image` in the source. Here they are two classes: the overridden methods (`__init__`, `set_ground`, `remove_ground`) are modelled per class, and what `ImageFile` inherits (the `image`, `is_grounded` and `ground` properties) is repeated in it.
- `setup.py`, `simpleocr/example.py` and the test modules have no logic of their own. The test's `ImageFile("digits1")` scenario is `Files.ImageFileDigits`; the `Digits` lookup lemmas and `Files.OpenDigits` are further sample layouts for `get_file_path` and `open_image`.

## Findings

| source | as written | input that shows it | evidently intended | confidence | as-written member | corrected member |
|---|---|---|---|---|---|---|
| simpleocr/files.py:142-143 | the ground file is looked up with `try_extensions`, whose first candidate is the base path itself | an existing image `/data/scan` with no extension: its base path is the image path, so the image becomes its own ground file (`read_boxfile` parses the image, and `remove_ground(remove_file=True)` deletes it) | look only for base path + `.box`, the path the constructor falls back to | medium, not executed | `Files.ExtensionlessImageIsOwnGround` | `Files.GroundLookup` |

The `ImageFile` constructor in this model uses the corrected lookup. With
the one ground extension `.box`, its ground path is therefore always the
base path + `.box`. The lookup as written is `Files.GroundLookupAsWritten`.
`Files.GroundLookupsAgree` shows that the two lookups differ only when the
base path itself exists.
