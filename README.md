# rename_image in Dafny

A model of the script `rename_image.py`, which renames image files after the
creation date in their EXIF metadata. The script runs in three steps:

- `format_date` normalises a date string. It takes the first
  whitespace-separated token and turns every `:` into `-`.
- The loop in `main` groups the images by their normalised date. The groups
  live in a `defaultdict(list)` whose keys keep their insertion order.
- `do_rename` walks the groups in that order. A group of one image becomes
  `<dir>/<date><ext>`. The k-th image of a larger group becomes
  `<dir>/<date>_<k><ext>`, with k counted from 1 in input order. When
  `verbose` is on, an `old => new` line is printed before each rename, with a
  tab in front for larger groups.

The files:

- `wrappers.dfy`: `Option` and `Result`.
- `text.dfy`: the Python `str` behaviour the script relies on:
  - `split()` with no argument, with the whitespace set of `str.isspace`;
  - `replace` of one character by another;
  - the decimal text of an `int` in an f-string.
- `posix_path.dfy`: `posixpath.split`, `posixpath.splitext` and
  `posixpath.join` of two parts, as CPython defines them for `str` paths. That
  includes three details:
  - the head of `split` loses its trailing slashes unless it is all slashes;
  - `splitext` skips the leading dots of the last component;
  - `join` with an absolute second part returns that part.
- `rename_image.dfy`: the script itself. Pure parts are functions:
  - `format_date` is `FormatDate`;
  - `get_name_info` is `GetNameInfo`;
  - the new names are `SingleTarget` and `IndexedTarget`;
  - `Grouping` is the dictionary after the grouping loop;
  - `RenameGroup`, `RenameFrom` and `RenameAll` give the log of `do_rename`.

  The two loops are methods proved equal to those functions:
  - the grouping loop is `GroupByDate`;
  - `do_rename` is `DoRename`, made of `RenameOneGroup` and `RenameIndexed`.

  `RunMain` is `main`.
- `rename_image_properties.dfy`: what the script promises, proved about those
  functions.

Effects are modelled as one ordered log of events. `print(line)` becomes
`Print(line)` and `os.rename(src, dst)` becomes `Rename(src, dst)`. A run
yields a `Transcript`: its log, and the exception that ended it, if any.
The model keeps three exceptions the script can raise:

- `IndexError`: `split()[0]` of a date made only of whitespace. It ends `main`
  while the images are still being grouped, so nothing is renamed.
- `EmptyGroup`: the `raise Exception(...)` for an empty group. It is proved
  never to happen, because every group `main` builds has an image.
- `TypeError`: an image whose EXIF date is the empty string is grouped under
  the key `None`. If it is alone there, `date + extension` fails. Under the key
  `None`, two or more images are named `None_1<ext>`, `None_2<ext>` and so on,
  because the f-string shows `None` as "None".

Reading the EXIF tag is the parameter `created: ImageFile -> Option<string>`.

## Model

| member | source | states |
|---|---|---|
| Text.SplitTokens | rename_image/rename_image.py:65 | every token of `s.split()` is non-empty and holds no whitespace |
| Text.SplitEmpty | rename_image/rename_image.py:65 | `s.split()` has no token exactly when `s` is empty or all whitespace |
| Text.SplitFirst | rename_image/rename_image.py:65 | the first token of `s.split()` is `s[i..j]` whenever `s[..i]` is whitespace and `s[i..j]` is a non-empty run of non-whitespace ending the string or followed by whitespace |
| Text.SplitSingleToken | rename_image/rename_image.py:65 | a non-empty string without whitespace splits into itself alone |
| Text.Replace | rename_image/rename_image.py:65 | `replace` keeps the length, turns each `c` into `d` and leaves every other character alone |
| Text.ReplaceRemoves | rename_image/rename_image.py:65 | after replacing `:` by `-` no `:` is left |
| Text.ReplaceAbsent | rename_image/rename_image.py:65 | replacing a character that does not occur changes nothing |
| Text.Decimal | rename_image/rename_image.py:43 | the f-string text of an index is a non-empty string of decimal digits |
| Text.DecimalRoundTrip | rename_image/rename_image.py:43 | reading that text back as a decimal number gives the index |
| Text.DecimalInjective | rename_image/rename_image.py:43 | different indices have different texts |
| PosixPath.RFindIsLast | rename_image/rename_image.py:50-51 | `rfind` gives the last occurrence of the character, or -1 when there is none |
| PosixPath.BaseIsLastComponent | rename_image/rename_image.py:50 | the last component has no `/` and is a suffix of the path, preceded by `/` unless it is the whole path |
| PosixPath.RStripSlashesRemovesTrailing | rename_image/rename_image.py:50 | `rstrip('/')` gives a prefix with only `/` removed after it, and the result does not end with `/` |
| PosixPath.SplitParts | rename_image/rename_image.py:50 | `split(p)` gives a tail that is the last component and a head that is a prefix of `p`; only `/` lies between them; the head ends with `/` only when it is all slashes; an empty head means the tail is all of `p` |
| PosixPath.SplitExtRoundTrip | rename_image/rename_image.py:51 | `splitext(p)` loses nothing (root + ext == p), and ext is empty or a `.` followed by neither `.` nor `/` |
| PosixPath.SplitExtOfBase | rename_image/rename_image.py:51 | the extension is a suffix of the last component, and it is non-empty exactly when that component has a `.` with some other character before it |
| PosixPath.JoinShape | rename_image/rename_image.py:35 | `join(a, b)` ends with `b`; it is `b` alone when `b` is absolute; otherwise what comes before `b` is `a` or `a + "/"`; that part is empty or ends with `/` |
| PosixPath.JoinHeadKeepsDirectory | rename_image/rename_image.py:35 | joining the head of `split(old)` with a relative name puts the name after a prefix of `old` that is empty or ends with `/`; only `/` lies between that prefix and the last component of `old` |
| RenameImage.FormatDate | rename_image/rename_image.py:62-65 | `None` exactly for the empty string; `IndexError` exactly for a non-empty all-whitespace string; otherwise a date that is non-empty with no whitespace and no `:` |
| RenameImage.GetNameInfoParts | rename_image/rename_image.py:49-52 | the second half of the split is the last component; the extension is empty or starts with `.` and is a suffix of that component |
| RenameImage.Append | rename_image/rename_image.py:20 | `images[key].append(image)` adds the image at the end of the key's list, creating an empty list first, and leaves every other list unchanged; the dict gains the key, and a new key goes to the end of the key order while a known key leaves the order as it was |
| RenameImage.GroupingFailureSticks | rename_image/rename_image.py:16-19 | once `format_date` has raised, the later images change nothing |
| RenameImage.GroupingValid | rename_image/rename_image.py:15-20 | the dictionary has each key once, exactly the keys that have a list, and no empty list |
| RenameImage.GroupByDate | rename_image/rename_image.py:15-20 | the loop builds `Grouping(images, created)`: the dictionary, or the exception of the first bad date |
| RenameImage.RenameIndexed | rename_image/rename_image.py:40-46 | the `enumerate` loop produces the log `IndexedEvents` of the whole group |
| RenameImage.RenameOneGroup | rename_image/rename_image.py:30-46 | one round of the outer loop produces the log and exception of `RenameGroup` |
| RenameImage.DoRename | rename_image/rename_image.py:28-46 | the outer loop produces `RenameAll` of the dictionary: logs in key order, stopping at the first exception |
| RenameImage.RunMain | rename_image/rename_image.py:14-21 | `main` produces the transcript `Execute(images, created, verbose)` |
| RenameImageProperties.FormatDateFirstToken | rename_image/rename_image.py:65 | for a string whose first token is `s[i..j]`, `format_date` returns that token with `:` turned into `-` |
| RenameImageProperties.FormatDateIdempotent | rename_image/rename_image.py:62-65 | applying `format_date` to its own date returns it unchanged |
| RenameImageProperties.FormatDateExample | rename_image/rename_image.py:65 | `"2023:05:01 10:22:00"` gives `"2023-05-01"` |
| RenameImageProperties.GroupingFails | rename_image/rename_image.py:16-19 | grouping raises exactly when some image has a date made only of whitespace, and what it raises is `IndexError` |
| RenameImageProperties.GroupingIsFilter | rename_image/rename_image.py:15-20 | the list of a key holds exactly the images with that key, in input order; a key has a list exactly when some image has that key; images without a date are in no list |
| RenameImageProperties.GroupingPartition | rename_image/rename_image.py:16-20 | the lists taken in key order hold every image that has a date, once, and no other: a permutation of those images |
| RenameImageProperties.FirstIndexIsFirst | rename_image/rename_image.py:15-20 | the first image with a key has that key and no image before it does; there is such an image exactly when the key's list is non-empty |
| RenameImageProperties.GroupingKeyOrder | rename_image/rename_image.py:15-20 | every key of the dict is the date of some image, and the keys come in the order in which their dates first appear among the images, which is the order `do_rename` visits them (29) |
| RenameImageProperties.AnnounceFacts | rename_image/rename_image.py:37-38 | one step renames `old` to `new`; with `verbose` on, the line `old => new` comes first; with it off there is nothing else |
| RenameImageProperties.IndexedRenamesPlan | rename_image/rename_image.py:40-46 | the renames of a larger group are exactly, in order, the i-th image to `IndexedTarget(old, date, i + 1)` |
| RenameImageProperties.IndexedRenames | rename_image/rename_image.py:40-43 | a larger group makes one rename per image, and the t-th goes from the t-th image to `<dir>/<date>_<t + 1><ext>` |
| RenameImageProperties.IndexedSources | rename_image/rename_image.py:40-46 | the images of a larger group are renamed in group order, each once |
| RenameImageProperties.IndexedAnnounced | rename_image/rename_image.py:45-46 | with `verbose` on, a tab-indented `old => new` line comes just before each rename of a larger group; with it off the log holds renames only |
| RenameImageProperties.GroupOutcome | rename_image/rename_image.py:29-35 | a group raises exactly when it is empty (`EmptyGroup`) or a single image under `None` (`TypeError`), and then has renamed nothing |
| RenameImageProperties.GroupRenames | rename_image/rename_image.py:32-46 | a group that does not raise renames each of its images once, in order; a single image becomes `SingleTarget(old, date)`, the t-th of a larger group `IndexedTarget(old, date text, t + 1)` |
| RenameImageProperties.GroupRenamesIgnoreVerbose | rename_image/rename_image.py:37-46 | `verbose` does not change the renames of a group |
| RenameImageProperties.GroupLog | rename_image/rename_image.py:37-46 | with `verbose` on, each rename is announced on the line before it, without indent for a single image and after a tab in a larger group; with `verbose` off the log holds renames only |
| RenameImageProperties.IndexedTargetParts | rename_image/rename_image.py:42-43 | a name of a larger group is a prefix that is empty or ends with `/`, then `<date>_<k>`, then an extension |
| RenameImageProperties.IndexedTargetInjective | rename_image/rename_image.py:43 | two names `<dir>/<date>_<k><ext>` with the same date are equal only for equal k, whatever the two old paths |
| RenameImageProperties.GroupTargetsDistinct | rename_image/rename_image.py:40-43 | no two images of a larger group get the same new name, even the same file passed twice |
| RenameImageProperties.RenameFromSucceeds | rename_image/rename_image.py:29-46 | the outer loop ends without an exception exactly when no remaining group raises, and then its log is the groups' logs one after another |
| RenameImageProperties.RenameFromStops | rename_image/rename_image.py:29-31 | when the j-th group is the first that raises, the loop raises its exception after the logs of the groups before it: renames already made stay made, and nothing later happens |
| RenameImageProperties.RenameAllStops | rename_image/rename_image.py:29-31 | a `do_rename` that raises stops at its first failing group, with the logs of all the groups before it |
| RenameImageProperties.RenameFromRenames | rename_image/rename_image.py:29-46 | when the loop does not raise, it renames the images of the groups in key order, each once, announcing each when `verbose` is on and printing nothing when it is off |
| RenameImageProperties.RenameFromIgnoresVerbose | rename_image/rename_image.py:37-46 | `verbose` changes neither whether `do_rename` raises nor the renames it makes |
| RenameImageProperties.ExecuteOutcome | rename_image/rename_image.py:14-21 | `main` raises `IndexError`, before any rename, exactly when some date is all whitespace; it never raises `EmptyGroup`; it raises `TypeError` exactly when no date is all whitespace and exactly one image has the date "" |
| RenameImageProperties.ExecuteRenames | rename_image/rename_image.py:14-21 | a `main` that raises nothing renames every image that has a date exactly once and no other file, announcing each rename when `verbose` is on and printing nothing when it is off |
| RenameImageProperties.ExecuteIgnoresVerbose | rename_image/rename_image.py:14-21 | `verbose` changes neither the outcome of `main` nor its renames |

## Left out

- `get_created_date` (rename_image/rename_image.py:55-59) and `get_date` (24-25) are not modelled. They open the image with PIL, read tag 36867, and swallow any exception as `None`. The model replaces them with the parameter `created`, which gives each image an optional date string.
- EXIF values that are not strings (bytes, numbers) are not modelled. `created` yields strings only.
- The argparse command line and the opening of the files (68-77) are not modelled. An image is its path, `ImageFile(name)`. `verbose` is a `bool`, although `-v` with `type=bool` turns it on for any non-empty argument.
- The effect of `os.rename` on the file system is not modelled. That covers overwriting an existing file, and an `OSError` that would end the run early. A rename is only an entry in the log.
- Distinct new names are stated only within one group. Names from different groups can still collide: a date `x_1` alone and a larger group under `x` both give `x_1<ext>`. The model does not detect existing files either.
- `DoRename` requires every key to have a list (`KeysPresent`). That is the shape of every Python dict, not a demand of the script.
- Paths are `str` only. The `bytes` variants of `posixpath` are not modelled.
- The script has no extension override, dry-run mode or per-file error notices, so the model has none either.
- The one-image branch of `do_rename` is also reached for the key `None`, where `date + extension` raises `TypeError`. The model follows the code and yields that error.
