# dir_tree: a verified model

`dir_tree.py` writes a Markdown report on one directory. It takes a path from the
clipboard or from the first command-line argument. It lists the directory's immediate
entries in sorted order and gives each one a size, a directory's size being the bytes of
every regular file below it. Each size is shown with two decimals in the smallest of the
units B, KB, MB, GB that leaves a value below 1024, or else in TB.

This project models, in Dafny, the four rules beneath the file-system calls:

- **Sizes** (`filetree.dfy`, module `FileTree`). A file tree is a value:
  `Node = File(size) | Dir(children) | Other`. `Other` is anything that is neither a
  regular file nor a directory. `Size` is the specification: the sum over all files
  reachable below a node.
  - `os.walk` is modelled by the recursive method `Walk`, top-down, splitting every
    directory's listing into `dirnames` and `filenames`.
  - `get_directory_size` is the method `GetDirectorySize`, with the same nested loops
    over the walk and its file names. It is proved to return `Size`.
  - `get_size` is `GetSize` on the node found at a path, `None` meaning that nothing
    exists there.
- **Size text** (`sizeformat.dfy`, module `SizeFormat`). `format_size_dynamic` is the
  method `FormatSizeDynamic`, with the source's loop over the units. It is proved to
  return `FormatSize(n)`.
  - `FormatSize(n)` is built from `UnitIndex(n)`, the least `k` with `n < 1024^(k+1)`
    capped at TB, and from the exact value `Scaled(n) = n / 1024^k`.
  - `Fixed2` models `f"{x:.2f}"`: it rounds to the nearest hundredth, a tie going to
    the even one.
  - Dividing a double by 1024 changes only its exponent. So for every byte count a
    double holds exactly, the source's loop computes exactly this value, and
    `f"{x:.2f}"` rounds exactly this value.
- **The report** (`listing.dfy`, module `Listing`). `list_directory_with_sizes` is the
  method `ListDirectoryWithSizes`. It lists the entries (`Names.ListNames`, which allows
  any order), copies them into an array, and sorts it in place (`Names.SortInPlace`, an
  insertion sort). It then appends two lines per entry.
  - It is proved to return `Report(base, entries)`: the header `# <base>`, then
    `- <name>` and `    - <size>` for every entry in ascending order of name.
  - String order is Python's: code point by code point, with a proper prefix first
    (`names.dfy`, module `Names`).
- **Input path** (`inputpath.dfy`, module `InputPath`). `get_input_path` is the function
  `GetInputPath`. Its inputs are the clipboard text, `sys.argv` and the set of paths that
  exist.
  - `str.strip()` is `Strip`, over the characters for which Python's `str.isspace`
    holds.
  - The clipboard wins when its stripped text is non-empty and exists. Otherwise the
    first argument is used. A first argument that does not exist and the absence of
    both sources are two different error results.

`sys.exit(1)` after an error message becomes an error value in the result:
`PathNotFound`, `ArgPathMissing` or `NoValidInput`.

Listing catches only `FileNotFoundError` (`dir_tree.py:39-43`). `os.listdir` on a path
that exists but is not a directory raises `NotADirectoryError`, which `dir_tree.py:41`
does not catch, so the program stops with that exception. The model keeps that case
apart as the error `NotADirectory`.

## Model

| member | source | states |
|---|---|---|
| `Names.Less` | dir_tree.py:44 | Python's `<` on `str`, which `entries.sort()` orders by: code point by code point, a proper prefix first |
| `Names.LessTotal` | dir_tree.py:44 | any two different names are ordered one way or the other, so the sort's order is total |
| `Names.LessTransitive` | dir_tree.py:44 | the name order is transitive |
| `Names.LessAsymmetric` | dir_tree.py:44 | no two names are each less than the other |
| `Names.ListNames` | dir_tree.py:40 | the listing (`os.listdir`) holds every entry of the directory exactly once and nothing else, in an unspecified order |
| `Names.InsertDown` | dir_tree.py:44 | one insertion step leaves one more prefix of the array ascending, keeps the cells after it, and keeps the array a permutation |
| `Names.SortInPlace` | dir_tree.py:44 | `entries.sort()` in place leaves the array ascending and a permutation of what it held |
| `Names.SortedNames` | dir_tree.py:44 | the ascending sequence of a set of names: same elements, same count, strictly ascending |
| `Names.StrictlySortedUnique` | dir_tree.py:44 | two strictly ascending sequences with the same elements are equal |
| `Names.SortedListingIsSortedNames` | dir_tree.py:40-44 | whatever order the listing came in, sorting it gives `SortedNames` of the entries |
| `FileTree.Size` | dir_tree.py:5-22 | the reference size of a node: a file's byte count, 0 for anything that is neither file nor directory, and for a directory the sum of its entries' sizes |
| `FileTree.SumEntries` | dir_tree.py:8-13 | the sum of the sizes of a set of a directory's entries |
| `FileTree.FileBytes` | dir_tree.py:11-12 | what one name of `filenames` adds to the total: its byte count when it is a regular file (`os.path.isfile`, then `os.path.getsize`), 0 otherwise |
| `FileTree.SumEntriesRemove` | dir_tree.py:7-13 | a directory's total does not depend on the order its entries are added in |
| `FileTree.SumOverListing` | dir_tree.py:8-13 | summing entry sizes over any listing of a directory gives the directory's total |
| `FileTree.SizeInsert` | dir_tree.py:5-13 | adding an entry grows a directory's size by exactly that entry's size |
| `FileTree.EntryAtMostDirectory` | dir_tree.py:5-13 | no entry is larger than the directory holding it |
| `FileTree.SumEntriesSame` | dir_tree.py:5-13 | directories that agree on a set of entries agree on their sum over it |
| `FileTree.SizeOfSampleTree` | tests/test_dir_tree.py:33-35 | a 10-byte file has size 10; it beside a subdirectory holding a 5-byte file gives 15 |
| `FileTree.WalkTotalAppend` | dir_tree.py:8-13 | the file bytes of two walks one after the other add up |
| `FileTree.SplitEntries` | dir_tree.py:8 | the walk's `dirnames` are exactly the subdirectories and `filenames` everything else, together covering the listing's bytes |
| `FileTree.Walk` | dir_tree.py:8 | `os.walk` yields nothing for a non-directory; otherwise its first record is the node itself with `dirnames`/`filenames` split as above, and the file bytes of all records add up to `Size` |
| `FileTree.WalkBelow` | dir_tree.py:8 | the walks of the subdirectories, one after another, hold the subdirectories' total size |
| `FileTree.GetDirectorySize` | dir_tree.py:5-13 | the nested loops return the size of the directory, 0 for a non-directory |
| `FileTree.GetSize` | dir_tree.py:15-22 | a file's own size, a directory's total, 0 for anything else and for a missing path; never an error |
| `SizeFormat.Scaled` | dir_tree.py:27-31 | the count divided by 1024 once for every unit stepped past |
| `SizeFormat.Fixed2` | dir_tree.py:30 | `f"{x:.2f}"`: `x` rounded to hundredths, written as the whole part's digits, a point and two digits |
| `SizeFormat.FormatSize` | dir_tree.py:24-31 | the reference text for a count: the scaled value as `.2f`, a space and the chosen unit |
| `SizeFormat.UnitIndex` | dir_tree.py:26-31 | the chosen unit: every smaller unit leaves 1024 or more, and this one leaves less unless it is TB |
| `SizeFormat.UnitIndexUnique` | dir_tree.py:28-30 | exactly one unit has that property |
| `SizeFormat.BytesExactlyBelow1024` | dir_tree.py:29 | the unit is B exactly when the count is below 1024 |
| `SizeFormat.TerabytesFrom1024To4` | dir_tree.py:29 | the unit is TB exactly when the count is at least 1024^4 |
| `SizeFormat.ScaledBounds` | dir_tree.py:27-31 | the scaled value times its unit is the count; it is below 1024 unless TB, and at least 1 unless B |
| `SizeFormat.RoundHundredths` | dir_tree.py:30 | within half a hundredth of 100x, a tie going to the even count |
| `SizeFormat.RoundHundredthsUnique` | dir_tree.py:30 | no other count of hundredths has those two properties |
| `SizeFormat.Decimal` | dir_tree.py:30 | the integer part's text: non-empty, decimal digits only, no leading zero |
| `SizeFormat.DecimalRoundTrip` | dir_tree.py:30 | reading the digits back gives the number |
| `SizeFormat.DecimalCanonical` | dir_tree.py:30 | every digit string without a leading zero is the text of the number it denotes |
| `SizeFormat.Fixed2ReadsBack` | dir_tree.py:30 | `.2f` text has a point before its last two digits, and read without the point it is the rounded count of hundredths; the whole part is `0` or starts with a non-zero digit |
| `SizeFormat.Fixed2Whole` | dir_tree.py:30 | a whole number shows as its digits and `.00` |
| `SizeFormat.StopsAtUnit` | dir_tree.py:28-30 | where the loop returns, its unit is the chosen one |
| `SizeFormat.ScaledIs` | dir_tree.py:27-31 | a value that is the count in the chosen unit is the scaled value |
| `SizeFormat.StopsAt` | dir_tree.py:28-30 | where the loop returns, its unit and its value are those of `FormatSize` |
| `SizeFormat.StepsPastUnit` | dir_tree.py:28-31 | where the loop goes on, a next unit exists and the count is at least as large as it |
| `SizeFormat.FormatSizeDynamic` | dir_tree.py:24-31 | the loop always returns, and it returns `FormatSize(n)` |
| `SizeFormat.FormatSizeWhole` | dir_tree.py:30 | a count that is a whole number of its unit shows that number, `.00`, a space and the unit |
| `SizeFormat.FormatSizeBytes` | dir_tree.py:29-30 | below 1024 the count shows whole, followed by `.00 B` |
| `SizeFormat.FormatSizeZero` | tests/test_dir_tree.py:41 | 0 shows as `0.00 B` |
| `SizeFormat.FormatSizeJustBelowKilobyte` | tests/test_dir_tree.py:42 | 1023 shows as `1023.00 B` |
| `SizeFormat.FormatSizeKilobyte` | tests/test_dir_tree.py:43 | 1024 shows as `1.00 KB` |
| `SizeFormat.FormatSizeMegabyte` | tests/test_dir_tree.py:44 | 1024² shows as `1.00 MB` |
| `Listing.EntryLines` | dir_tree.py:46-51 | for each name in turn, `- name` and `    - ` followed by the formatted size of that entry |
| `Listing.Report` | dir_tree.py:36-51 | the reference report: `# <base>`, then the lines of every entry in ascending order of name |
| `Listing.EntryLinesAt` | dir_tree.py:46-51 | two lines per entry: line 2i is `- name_i`, line 2i+1 its size line |
| `Listing.HeaderThenEntries` | dir_tree.py:37-51 | the header, then the entries' lines in the given order, and nothing else |
| `Listing.ReportShape` | dir_tree.py:36-51 | the report has 1 + 2·entries lines; its first is `# <base>`; entry i in ascending order has line 2i+1 `- name` and 2i+2 its formatted size |
| `Listing.SampleNamesSorted` | tests/test_dir_tree.py:61-67 | `b.txt` and `a.txt` sort as `a.txt`, `b.txt` |
| `Listing.SampleSizeLines` | tests/test_dir_tree.py:63-65 | files of 3 and 4 bytes show as `3.00 B` and `4.00 B` |
| `Listing.SampleEntryLines` | tests/test_dir_tree.py:59-67 | the test's five lines, from the sorted names |
| `Listing.ReportOfSampleDirectory` | tests/test_dir_tree.py:52-67 | the listing test's report: `# <base>`, `- a.txt`, `    - 3.00 B`, `- b.txt`, `    - 4.00 B` |
| `Listing.SortedEntries` | dir_tree.py:40-44 | listing then sorting in place gives the entries in ascending order, `SortedNames` |
| `Listing.RenderEntries` | dir_tree.py:46-51 | the loop appends exactly the two lines of every entry, in order |
| `Listing.ListDirectoryWithSizes` | dir_tree.py:33-53 | a missing target is "path not found", a non-directory cannot be listed, and a directory gives exactly its `Report` |
| `InputPath.IsSpace` | dir_tree.py:57 | the characters `str.strip()` removes: those for which Python's `str.isspace` holds, ASCII and Unicode |
| `InputPath.SkipSpace` | dir_tree.py:57 | the first index from `i` on that is not whitespace, with only whitespace before it |
| `InputPath.SkipSpaceBack` | dir_tree.py:57 | the end of a span once its trailing whitespace is dropped |
| `InputPath.Strip` | dir_tree.py:57 | `str.strip()` is a slice with only whitespace around it and none at its own ends |
| `InputPath.StripUnique` | dir_tree.py:57 | any such slice is what `Strip` returns |
| `InputPath.StripIdempotent` | dir_tree.py:57 | stripping twice removes nothing more |
| `InputPath.StripEmptyIffAllSpace` | dir_tree.py:57-58 | the stripped clipboard is empty exactly when the clipboard held only whitespace |
| `InputPath.StripPadded` | dir_tree.py:57 | whitespace added around text does not change its stripped form |
| `InputPath.GetInputPath` | dir_tree.py:55-72 | a found path exists and comes from the clipboard or from `argv[1]`; a usable clipboard wins; without one, an existing `argv[1]` is returned; the argument error holds exactly when there is no usable clipboard and `argv[1]` does not exist; "no valid input" holds exactly when there is neither |
| `InputPath.ExtraArgumentsIgnored` | dir_tree.py:62-63 | arguments after the first change nothing |
| `InputPath.ClipboardPaddingIgnored` | dir_tree.py:57-60 | whitespace around the clipboard text changes nothing |
| `InputPath.FoundStaysFound` | dir_tree.py:58-66 | with more paths existing, a found path is still found |
| `InputPath.PathFromClipboard` | tests/test_dir_tree.py:70-74 | an existing path on the clipboard is returned, whatever `sys.argv` holds |
| `InputPath.PathFromArgument` | tests/test_dir_tree.py:77-82 | with an empty clipboard, an existing first argument is returned |

## Left out

- `main` (`dir_tree.py:74-97`) is not modelled. It creates the output directory, builds
  the output file name from the path, writes the file and prints where it went; all of
  that is I/O.
- The base name of the report's header (`dir_tree.py:36`) is a parameter. It comes from
  `os.path.normpath` and `os.path.basename`, which are library code.
- All printed messages (`dir_tree.py:42, 59, 65, 68, 71`) are left out. Each
  `sys.exit(1)` is an error value in the result.
- Entry names and the clipboard text are Dafny strings, sequences of Unicode scalar
  values. A Python `str` can also hold lone surrogates (U+D800 to U+DFFF): `os.listdir`
  turns a name byte that is not valid UTF-8 into one (`surrogateescape`), and the
  clipboard can carry them. Such names and such clipboard text are outside the model, and
  so is their place in the sort order, after U+D7FF and before U+E000.
- `pyperclip.paste()` is not modelled; the clipboard text is a parameter.
- The file system is not modelled: `os.walk`, `os.listdir`, `os.path.isfile`, `isdir`,
  `getsize` and `exists` are replaced by the `Node` tree and the set of existing paths.
  Each file's byte length is the `size` of a `File` node.
- The set of existing paths is what `os.path.exists` says about each path. On a real
  file system it never holds `""`. The source also tests the clipboard text for
  emptiness itself, and the model keeps that test.
- Symbolic links, permission errors and changes to the tree during the walk are not
  modelled; the model's tree has no links at all. Inside the walk, `os.walk` lists a
  link to a directory under `dirnames` without entering it. As an immediate entry of the
  listed directory, a link is followed: `get_size` sees `os.path.isdir` or
  `os.path.isfile` hold and reports the size of the link's target. Neither behaviour is
  modelled.
- A file removed or made unreadable between `os.path.isfile` and `os.path.getsize`
  makes the source raise `OSError`. The model's tree does not change while it is read,
  so this cannot happen in it.
- `Listing.ListDirectoryWithSizes`: a dangling link as target makes `os.listdir` raise
  `FileNotFoundError`, that is "path not found". The model has no links, so an `Other`
  target is `NotADirectory`.
- `SizeFormat.FormatSizeDynamic`: does not model the rounding of `float(size_in_bytes)`
  for byte counts above 2^53. The model keeps the exact value `n / 1024^k`, which is
  what the double holds for every smaller count.
- The recursion of `os.walk` is proved against `Size`. The order in which `os.walk`
  visits subdirectories beyond "parent first" is not stated.
