# heic2jpeg in Dafny

`heic2jpeg` is a small command-line tool that converts every image with a
given suffix in one directory (HEIC by default) into another format and
saves the results in an output directory. This project models the two parts
of it that are string and sequence logic rather than I/O:

- **Choosing the files** (`get_files`). The directory listing is an input:
  a sequence of entries, each a name and a flag saying whether it is a
  directory, or a listing error. The result keeps every non-directory entry
  whose name ends with the filter, in listing order, joined onto the
  directory path. A permission or not-a-directory error gives Python's
  `None`, modelled as `Returned(None)`. Any other listing error escapes,
  modelled as `Raised`.
- **Naming the outputs** (`convert_files`). Each input path is split into
  directory and base name. The last extension is removed from the base name
  following `os.path.splitext`. Then `.` and the output format are appended,
  and the name is joined onto the output directory. Saving overwrites, so
  the final contents of the output directory map each output path to the
  last input that was saved there (`FinalWriters`).

Module `PosixPath` (`posix_path.dfy`) gives the POSIX behaviour of
`os.path.join`, `os.path.split`, `os.path.splitext`, `str.endswith`,
`str.rfind` and `str.rstrip` as string functions, with `/` as the separator.
Module `Heic2Jpeg` (`heic2jpeg.dfy`) models the tool's own code on top of it.

A missing source directory is not caught. `os.listdir` raises
`FileNotFoundError`, which `get_files` does not catch
(heic2jpeg/main.py:17-21), so it escapes. `GetFiles` models this as
`Raised(NotFound)`.

## Model

| member | source | states |
|---|---|---|
| PosixPath.RFind | heic2jpeg/main.py:40-41 | the index found holds the character, no later index does, and -1 means the character is absent |
| PosixPath.RStripSep | heic2jpeg/main.py:40 | the result is a prefix of the input that does not end in `/`, and only `/` characters were removed |
| PosixPath.EndsWith | heic2jpeg/main.py:19 | `item.endswith(ext)`: the last characters of the name are exactly the filter, compared raw and case-sensitively; every name ends with the empty filter |
| PosixPath.Join | heic2jpeg/main.py:19 | an absolute second component replaces the first; otherwise the result is the first component, then a `/` only when the first is non-empty and does not already end with one, then the second component |
| PosixPath.Split | heic2jpeg/main.py:40 | the tail is everything after the last `/` (the whole path when there is none); the head is a prefix of the path, empty exactly when the path has no `/`, and only `/` characters lie between head and tail |
| PosixPath.SplitExt | heic2jpeg/main.py:41 | root and extension concatenate back to the name; the extension is empty or is one `.` followed by no `.` and no `/`; a non-empty extension leaves a root that is not all dots |
| PosixPath.SplitJoinTail | heic2jpeg/main.py:40 | splitting `join(path, item)` gives back `item` as the base name, for any `item` without `/` |
| PosixPath.SplitJoinAny | heic2jpeg/main.py:43 | any directory joined with a plain name splits back into that name and the directory with its trailing `/` removed, or the directory unchanged when it is empty or only `/` |
| PosixPath.SplitJoin | heic2jpeg/main.py:43 | a non-empty directory without a trailing `/` joined with a plain name splits back into exactly that directory and that name |
| PosixPath.SplitExtAppend | heic2jpeg/main.py:41-42 | `splitext(stem + "." + fmt)` gives back `stem` and `"." + fmt` when `fmt` has no `.` or `/` and the stem is not all dots |
| PosixPath.SplitExtFindsExtension | heic2jpeg/main.py:41 | a base name has an extension if and only if some `.` comes after a character other than `.` |
| Heic2Jpeg.Selected | heic2jpeg/main.py:19 | the comprehension's condition: the entry is not a directory and its name ends with the filter |
| Heic2Jpeg.Caught | heic2jpeg/main.py:20 | the listing errors `get_files` catches are exactly the permission and not-a-directory errors |
| Heic2Jpeg.SelectedIndices | heic2jpeg/main.py:19 | the kept positions are strictly increasing, each names a non-directory entry ending with the filter, and every such entry's position is among them |
| Heic2Jpeg.Filtered | heic2jpeg/main.py:19 | the comprehension returns no more paths than entries, and every path ends with the filter |
| Heic2Jpeg.GetFiles | heic2jpeg/main.py:14-21 | a permission or not-a-directory error gives `None` and not an empty list; any other listing error escapes with its kind; a listing gives the comprehension's list, as long as the number of kept entries, each path ending with the filter |
| Heic2Jpeg.FilteredIsSelection | heic2jpeg/main.py:19 | the k-th returned path is `join(path, name)` of the k-th kept entry, so the result is exactly the kept entries in listing order |
| Heic2Jpeg.FilteredCount | heic2jpeg/main.py:19 | the number of returned paths equals the number of non-directory entries whose name ends with the filter |
| Heic2Jpeg.FilteredComplete | heic2jpeg/main.py:19 | every non-directory entry whose name ends with the filter has its joined path in the result |
| Heic2Jpeg.FilteredExcludesDirectories | heic2jpeg/main.py:19 | in a listing of distinct plain names, no directory entry's path is in the result, whatever its name |
| Heic2Jpeg.FilteredSplitsToName | heic2jpeg/main.py:40 | splitting the k-th returned path gives back the listed name of the k-th kept entry as the base name |
| Heic2Jpeg.SuffixFilterIsRaw | heic2jpeg/main.py:19 | the filter `heic` keeps `thing.noheic`, and the empty filter keeps every non-directory entry |
| Heic2Jpeg.NewFileName | heic2jpeg/main.py:41-42 | the new name ends with `.` and the format, and the part before that, followed by the removed extension, is the original name |
| Heic2Jpeg.NewFileNameKeepsStem | heic2jpeg/main.py:41-42 | splitting the extension off the new name gives the original stem and `.` followed by the format |
| Heic2Jpeg.NewFileNameReplacesLastExtension | heic2jpeg/main.py:41-42 | `a.b.HEIC` becomes `a.b.JPEG` |
| Heic2Jpeg.NewFileNameKeepsLeadingDot | heic2jpeg/main.py:41-42 | a name whose only `.` is its first character, such as `.bashrc`, keeps the whole name and gets the format appended |
| Heic2Jpeg.NewFileNameWithoutExtension | heic2jpeg/main.py:41-42 | a name without `.` keeps the whole name and gets the format appended |
| Heic2Jpeg.OutputFileName | heic2jpeg/main.py:40-43 | the output path ends with `.` followed by the output format |
| Heic2Jpeg.OutputFileNameSplits | heic2jpeg/main.py:43 | for any output directory, including `out/` and `/`, the output path splits into that directory (trailing `/` removed unless it is only `/`) and the new name, so every file lands directly inside the output directory |
| Heic2Jpeg.ConvertSwapsExtension | heic2jpeg/main.py:40-43 | `dir/stem.ext` is saved as `output/stem.fmt` |
| Heic2Jpeg.ConvertTargets | heic2jpeg/main.py:31-43 | one output path per input, in input order, each the output path of its input |
| Heic2Jpeg.FinalWriters | heic2jpeg/main.py:31-45 | after the batch the output paths are exactly the targets, and each holds the save of the last input that targets it |
| Heic2Jpeg.SameStemCollides | heic2jpeg/main.py:31-45 | two kept inputs with one stem, such as `a.HEIC` and `a.xHEIC` under the filter `HEIC`, get the same output path, and the second overwrites the first |
| Heic2Jpeg.ConvertDirectoryExample | heic2jpeg/main.py:14-45 | a directory with `s1.HEIC`, `s2.HEIC` and `s3.txt`, filter `HEIC` and format `JPEG`, gives the two HEIC paths, and the batch writes exactly the paths of `s1.JPEG` and `s2.JPEG` in the output directory |

## Left out

- `main` (heic2jpeg/main.py:48-75): argument parsing and logging setup. Its `len(files_to_convert)` fails when `get_files` returns `None`. `GetFiles` returns `Returned(None)` in that case, which is where that failure comes from.
- `os.makedirs` and the `PermissionError` and `FileExistsError` it swallows (heic2jpeg/main.py:26-29): these are filesystem side effects only.
- Decoding with `pillow_heif.read_heif`, `Image.frombytes` and encoding with `image.save` (heic2jpeg/main.py:32-38, 45): these are external codec libraries. A save is modelled only by the path it writes to. Decode and encode failures, which end the batch early, are not modelled.
- `os.listdir` and `os.path.isdir`: the listing and each entry's directory flag are inputs. Their order is whatever the listing gives, and the flag stands for `isdir` of the joined path, including its handling of symbolic links.
- Windows path rules (drive letters, `\` separators) and byte-string paths: only POSIX string paths are modelled.
- Files already in the output directory before the run: the model states which paths the batch writes, not what else the directory holds.
- Heic2Jpeg.FilteredExcludesDirectories: it requires a listing of distinct names without `/`, as a real directory gives. Without that, another entry could produce the same joined path as a directory entry.
