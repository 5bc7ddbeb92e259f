# filesystem-mcp, modelled in Dafny

`filesystem-mcp/server.py` is an MCP server that lets a client read, write, list, search
and delete files, confined to one working directory (the root). This project models the
logic under its tools over an abstract filesystem and proves what that logic promises.

- **Filesystem.** A map from absolute, normalised paths (sequences of names) to entries.
  An entry is a file holding text or a directory. The map covers the whole filesystem, so
  paths next to the root exist as well. `WellFormed` requires that "/" is a directory and
  that every entry sits inside a directory.
- **Confinement (`_safe_path`).** Joining follows pathlib: an absolute input replaces the
  root. `.` and `..` are resolved lexically, and ".." at "/" stays at "/". The result is
  admitted when its rendered string starts with the root's rendered string. This is a
  character-level check, so the root "/work" also admits "/work2/x". An input holding a
  NUL character makes `resolve` raise ValueError("embedded null byte").
- **Tools.** `fs_read_file`, `fs_write_file`, `fs_delete_file`, `fs_list_directory`,
  `fs_search_files`, `fs_grep` and `fs_file_info`, with `_handle_error`'s messages.
  - Pure computations are functions, such as reading with truncation and error texts.
  - Writing and deleting change a `FileStore` object's `entries` map in place.
  - The loops of listing, name search and grep are methods. Each is proved against a
    specification function, and lemmas state what that function means.
- **Failures.** Exceptions are the values `Raised` and `ToolError`. Files that cannot be
  opened are a `denied` set parameter. Directories that cannot be listed are a `locked`
  set parameter. Listing such a directory raises PermissionError. `glob` and `rglob` skip
  it silently, together with everything below it.
- **Python version.** The model follows Python 3.12's `pathlib`. This fixes the wording of
  `relative_to`'s error, the rule that a name ending in '.' has no `suffix`, the
  globbing that swallows PermissionError, and the IndexError that `glob(".")` raises.
- **Reading.** `read_text` opens files in universal-newline mode, so "\r\n" and a lone
  "\r" read back as "\n". `Text.Universal` models this for `fs_read_file`, `fs_file_info`
  and `fs_grep`. The size a tool reports is still that of the stored text.

Modules: `Wrappers` (Option/Result), `Text` (split, join, `splitlines`, `rstrip`, ASCII
lowering, substring search, UTF-8 length), `Errors`, `Paths`, `Glob` (`*` and `?`),
`Order` (path order, sorting), `FileSystem`, `Listing`, `Grep`.

Two consequences of the code that the model keeps:
- `_safe_path` compares strings, so the root "/work" admits "/work2/x". An absolute
  input replaces the root, because pathlib's `/` discards the left operand.
  `Paths.AdmitsExactly` and `Paths.SiblingAdmitted` state this.
- `_file_info` and `fs_grep` call `relative_to(WORK_DIR)`. For a sibling directory such as
  "/work2" this raises `ValueError`, which the tool turns into an error message. The
  model keeps that error.

## Model

| member | source | states |
|---|---|---|
| Paths.SafePath | filesystem-mcp/server.py:39-47 | an input holding a NUL character raises ValueError("embedded null byte"), as `resolve` does; an admitted path is free of NUL, normalised, and its string starts with the root's string; any other refusal is a ValueError carrying the message that names the raw input and the root |
| Paths.AdmitsExactly | filesystem-mcp/server.py:41-42 | the path is admitted exactly when the input holds no NUL character and the resolved path is the root, lies under it, or is a sibling whose name at the root's depth extends the root's last name |
| Paths.SiblingAdmitted | filesystem-mcp/server.py:42 | for every root, extending its last name (root "/work", path "/work2/x") gives a path that is admitted as itself although it is not under the root |
| Paths.AbsoluteAdmitted | filesystem-mcp/server.py:41-47 | an absolute input without NUL whose components are all names is admitted as exactly those components when they lie under the root or beside it |
| Paths.ClimbRejected | filesystem-mcp/server.py:41-46 | for any root other than "/", a relative input made of one or more ".." components is refused |
| Paths.RelativeDescendsAdmitted | filesystem-mcp/server.py:41-47 | a relative input without ".." is admitted and resolves to the root followed by its components |
| Paths.RelativeTo | filesystem-mcp/server.py:55 | `relative_to` succeeds exactly for paths under the root, and the root followed by the result is the path |
| Paths.Resolve | filesystem-mcp/server.py:41 | resolving "." and ".." from a normal path with separator-free components gives a normal path |
| Paths.Components | filesystem-mcp/server.py:41 | the components pathlib keeps are never empty or ".", and none holds '/' |
| Paths.ComponentsJoin | filesystem-mcp/server.py:41 | parsing names written out with '/' between them, with or without a leading '/', gives back exactly those names when none is empty, "." or holds '/' |
| Paths.LeadingSlash | filesystem-mcp/server.py:41 | a leading '/' changes only whether the input is absolute, not its components |
| Paths.Display | filesystem-mcp/server.py:256 | `str(Path(raw))` has the same components as the input and is absolute exactly when the input is |
| Errors.HandleError | filesystem-mcp/server.py:62-70 | every message from `_handle_error` starts with "Error: " |
| Errors.HandleErrorNamesCulprit | filesystem-mcp/server.py:64-70 | the message names the culprit: the file name for file errors and OS errors, the exception's own text for a ValueError or any other exception |
| Errors.OsText | filesystem-mcp/server.py:70 | `str(e)` of an OSError with a file name starts with "[Errno " and ends with the file name in quotes |
| Errors.OsMessageNamesFile | filesystem-mcp/server.py:70 | an OS error message, such as FileExistsError from `mkdir`, ends with the quoted file name |
| Errors.Message | filesystem-mcp/server.py:62-70 | every failure text a tool returns, caught or not, starts with "Error: " |
| FileSystem.ShowLinesMeaning | filesystem-mcp/server.py:156-164 | truncation keeps a prefix of the text; the note is present exactly when `max_lines` is exceeded and reports `max_lines` of the total; the shown text is then exactly the first `max_lines` lines whole: followed by a line break it starts the file, and it holds `max_lines` - 1 line breaks; otherwise the text is unchanged |
| FileSystem.ShowLines | filesystem-mcp/server.py:156-164 | without a note the text is returned unchanged; a note only comes with a `max_lines`, reports it as the number shown, and reports a larger total that is the number of lines |
| FileSystem.ReadFile | filesystem-mcp/server.py:150-164 | refusal errors are passed through; a directory is refused; a missing path raises NotADirectoryError when a file stands on the way to it and FileNotFoundError otherwise, both naming the path; a file that cannot be opened raises PermissionError; reading succeeds exactly for a file that can be opened; the content and the note are those of the truncation step over the file's text as `read_text` returns it, line breaks translated, and the size is the stored text's UTF-8 length |
| FileSystem.ReadAfterWrite | filesystem-mcp/server.py:155-164 | after a successful write, reading the path with no limit, or with a limit the text does not exceed, returns the written content with "\r\n" and "\r" read as "\n", and the written size; content without "\r" comes back exactly |
| FileSystem.MakeDirsSucceeds | filesystem-mcp/server.py:210 | `mkdir(parents=True, exist_ok=True)` succeeds exactly when no file stands on the path or any of its ancestors |
| FileSystem.MakeDirs | filesystem-mcp/server.py:210 | a file at the path gives FileExistsError naming the path; every failure is an OS error naming the path; on success the path is a directory and every existing entry is kept unchanged |
| FileSystem.MakeDirsEffect | filesystem-mcp/server.py:210 | a successful `mkdir` leaves the path a directory, keeps every entry, adds only directories on the way to the path, and keeps the filesystem well formed |
| FileSystem.WriteSucceedsExactly | filesystem-mcp/server.py:202-216 | a write succeeds exactly when the path is admitted, is absent or `overwrite` is set, is not a directory, and no file blocks its parent's creation |
| FileSystem.WriteFile | filesystem-mcp/server.py:201-216 | refusals pass through as caught errors; an existing target without `overwrite` gives the "already exists" error; on success the target holds exactly `content` and the report gives the UTF-8 byte count and the number of '\n'-separated pieces |
| FileSystem.WriteRefusesExisting | filesystem-mcp/server.py:204-208 | writing onto an existing path without `overwrite` gives the "already exists" error |
| FileSystem.SecondWriteRefused | filesystem-mcp/server.py:204-208 | after a first write, a second write to the same path without `overwrite` is refused and the first content stays |
| FileSystem.WriteMeaning | filesystem-mcp/server.py:210-216 | after a write the target holds exactly `content`; every other existing entry is unchanged; new entries are only the directories above the target; the report gives the UTF-8 byte count and the number of '\n'-separated pieces |
| FileSystem.WriteWellFormed | filesystem-mcp/server.py:210-211 | a successful write keeps the filesystem well formed |
| FileSystem.FileStore.Write | filesystem-mcp/server.py:202-216 | the store's entries become the written filesystem and the report is returned; on failure the entries are unchanged; the store stays valid |
| FileSystem.DeleteMeaning | filesystem-mcp/server.py:405-416 | delete succeeds exactly for an admitted file; a missing path gives "does not exist" and a directory gives the directory error; on success exactly that entry is gone, every other entry is unchanged, and the filesystem stays well formed |
| FileSystem.DeleteFile | filesystem-mcp/server.py:405-416 | refusals pass through as caught errors; on success the target was an admitted file, it is gone, and every other entry is unchanged |
| FileSystem.FileStore.Delete | filesystem-mcp/server.py:405-416 | the store's entries become the result of the delete; on failure the entries are unchanged; the store stays valid |
| FileSystem.Describe | filesystem-mcp/server.py:50-59 | `_file_info` succeeds exactly for paths under the root and otherwise raises `relative_to`'s ValueError naming the path and the root; the root followed by the reported path is the entry; name and `is_dir` are the entry's; `size_bytes` is the file's UTF-8 length and absent for a directory |
| FileSystem.Suffix | filesystem-mcp/server.py:452 | `suffix` is non-empty exactly when the name does not end in '.' and holds a '.' after its first character; then it is a '.' followed by at least one character and no further '.', and it ends the name without being all of it |
| FileSystem.FileInfo | filesystem-mcp/server.py:442-457 | refusal errors are passed through; a missing path raises NotADirectoryError when a file stands on the way and FileNotFoundError otherwise; an entry outside the root gives `relative_to`'s ValueError; the call succeeds exactly for an entry under the root; the descriptor is `_file_info`'s; the file facts are present exactly when the entry is a file, with the extension being `suffix` or "(none)" |
| FileSystem.FileInfoLines | filesystem-mcp/server.py:446-451 | the line count is absent exactly when the file cannot be read; otherwise it is the number of '\n'-separated pieces of the text as `read_text` returns it, so "\r\n" and a lone "\r" also end a line |
| Order.SortPaths | filesystem-mcp/server.py:294 | `sorted` of a set of paths is strictly ascending, holds exactly the set's paths, and equals the specification `Sorted` |
| Order.Sorted | filesystem-mcp/server.py:294 | the specification of sorting: an ascending sequence with exactly the set's paths |
| Order.AscendingUnique | filesystem-mcp/server.py:294 | two ascending sequences with the same paths are equal, so the result does not depend on the walk's order |
| Order.PathLessTotal | filesystem-mcp/server.py:294 | path order is total; with `PathLessTransitive` and `PathLessIrreflexive` it is a strict total order |
| Listing.KeyOf | filesystem-mcp/server.py:250 | the key's first part is true exactly for a plain file, and its second part is the name, as long as the name, with no ASCII capital left |
| Listing.SortByKey | filesystem-mcp/server.py:250 | sorting by `(is_file, name.lower())` keeps every child once, in non-decreasing key order |
| Listing.Filter | filesystem-mcp/server.py:251-253 | skipping items never lengthens the sequence |
| Listing.FilterMembers | filesystem-mcp/server.py:251-253 | an item survives the skip exactly when it was present and is admitted |
| Listing.FilterPairs | filesystem-mcp/server.py:250-253 | skipping keeps the relative order of the kept items |
| Listing.DescribeEach | filesystem-mcp/server.py:250-253 | the shared loop describes every admitted item in order; on failure it returns the error of the first admitted item that `_file_info` cannot describe, every admitted item before it being describable |
| Listing.DescribedItems | filesystem-mcp/server.py:250-253 | each described entry is an admitted item with its own name and kind, and `_file_info` of that item gives the entry; every admitted item is described; entries keep the items' order |
| Listing.ListEntries | filesystem-mcp/server.py:249-253 | listing a directory in `locked` raises PermissionError naming it; otherwise the listing is faithful: every entry is a listed child with its own name, kind and `_file_info`, every listed child appears once, in key order; any other failure means the directory is not under the root, with the error of the first child in key order that cannot be described |
| Listing.ListingFromOrder | filesystem-mcp/server.py:249-253 | describing the admitted children in sorted order gives a faithful listing: own name, kind and `_file_info` per entry, every listed child once, in key order |
| Listing.ListingFailure | filesystem-mcp/server.py:250-253 | when the loop over the sorted children fails, the directory is not under the root and the error is that of the first child, in key order, that cannot be described |
| Listing.FirstInKeyOrder | filesystem-mcp/server.py:250-253 | a failing child with no failure before it in the sorted order has no failing child whose key sorts strictly before it |
| Listing.ListedChildren | filesystem-mcp/server.py:250-253 | every entry is a direct child that the hidden rule admits, named by its last name, with `is_dir` true exactly for a directory, and equal to that child's `_file_info` |
| Listing.ListingComplete | filesystem-mcp/server.py:250-253 | every child the hidden rule admits is listed |
| Listing.ListingOrdered | filesystem-mcp/server.py:250 | no child is listed twice, and entries are in non-decreasing `(is_file, lowercase name)` order of their children |
| Listing.ListDirectory | filesystem-mcp/server.py:244-258 | refusals pass through; a non-directory target gives "is not a directory"; a directory that cannot be listed gives the caught PermissionError naming it; a failure otherwise means the directory is not under the root and carries the error of the first child in key order that cannot be described; on success `directory` is `str(Path(path))`, `count` is the number of entries and the entries are a faithful listing; without `show_hidden`, no entry name starts with '.' |
| Listing.SearchSound | filesystem-mcp/server.py:293-296 | every match is a plain file below the directory that the walk reaches and whose name matches the pattern, reported with that name, `is_dir` false and the file's own `_file_info`; matches are in strictly ascending path order |
| Listing.SearchComplete | filesystem-mcp/server.py:293-296 | every plain file below the directory whose name matches, and that lies under no directory that cannot be listed, is reported |
| Listing.SearchEntries | filesystem-mcp/server.py:291-296 | the non-recursive pattern "." raises IndexError("tuple index out of range"), as `glob` does when the pattern leaves no part; otherwise the name search yields exactly the matching files the walk reaches, in ascending order, each with its own `_file_info`; a directory that cannot be listed yields no match and no error; any other failure means the directory is not under the root, with the error of the first matching file in path order that cannot be described |
| Listing.SearchFailure | filesystem-mcp/server.py:293-296 | when the loop over the sorted walk fails, the directory is not under the root and the error is that of the first matching file, in path order, that cannot be described |
| Listing.Walk | filesystem-mcp/server.py:291-294 | for a pattern the selector can be built for, `glob` and `rglob` yield nothing for a directory that cannot be listed; otherwise the non-recursive walk (`glob`) yields exactly the direct children whose names match the pattern |
| Listing.WalkPrunes | filesystem-mcp/server.py:291-294 | nothing below a directory that cannot be listed is walked |
| Listing.SearchFiles | filesystem-mcp/server.py:286-310 | refusals pass through; a non-directory gives "is not a directory"; for a directory, the non-recursive pattern "." gives the caught IndexError, reported as "Error: IndexError: tuple index out of range"; otherwise a directory that cannot be listed gives a report with no match; a failure otherwise means the directory is not under the root and carries the error of the first matching file in path order that cannot be described; on success the report echoes pattern, directory and recursion, `count` is the number of matches, and the matches are exactly the matching files the walk reaches, in ascending order, each with its own `_file_info` |
| Glob.Match | filesystem-mcp/server.py:291-294 | a name matching a pattern without '*' has the pattern's length, one character per pattern character |
| Glob.StarMatchesAll | filesystem-mcp/server.py:291-294 | the pattern "*" matches every name |
| Glob.LiteralMatchesItself | filesystem-mcp/server.py:291-294 | a pattern without wildcards matches exactly the name equal to it |
| Glob.LeadingStar | filesystem-mcp/server.py:291-294 | "*" followed by a rest matches a name exactly when the rest matches some suffix of the name |
| Glob.DefaultPatternNeedsDot | filesystem-mcp/server.py:121 | the default grep pattern "*.*" matches exactly the names containing a '.' |
| Grep.ScanTakes | filesystem-mcp/server.py:354-365 | the inner loop returns the results so far followed by the file's matching lines, cut at the cap |
| Grep.ScanLines | filesystem-mcp/server.py:354-365 | the inner loop only appends to the results so far, and never takes them past the cap |
| Grep.SearchTakes | filesystem-mcp/server.py:345-367 | the outer loop returns the results so far followed by every later match, cut at the cap |
| Grep.Search | filesystem-mcp/server.py:345-367 | the outer loop only appends to the results so far, never takes them past the cap, and counts at most one search per file walked |
| Grep.SearchCounts | filesystem-mcp/server.py:345-367 | `files_searched` never exceeds the number of readable files, and equals it when the cap is not reached |
| Grep.Needle | filesystem-mcp/server.py:340 | the needle has the text's length; without case sensitivity it holds no ASCII capital and keeps every other character |
| Grep.LineMatches | filesystem-mcp/server.py:355-356 | a line matches only when it is at least as long as the needle |
| Grep.InsensitiveFindsMore | filesystem-mcp/server.py:340-356 | every line a case-sensitive search finds, the case-insensitive search for the same text finds too |
| Grep.Candidates | filesystem-mcp/server.py:345 | `sorted(root.rglob(pattern))` is strictly ascending and holds exactly the entries below the directory whose names match and that the walk reaches |
| Grep.HitsFromExactly | filesystem-mcp/server.py:354-363 | a file's reference match list holds exactly its matching lines, numbered from 1, with their text right-stripped |
| Grep.AllHitsExactly | filesystem-mcp/server.py:345-363 | the reference list holds exactly the matching lines of the readable files walked |
| Grep.AllHitsOrdered | filesystem-mcp/server.py:345-354 | over files in ascending order, the reference list is in file order, then line order |
| Grep.GrepPrefix | filesystem-mcp/server.py:345-367 | the results are the first `max_results` matches of the whole walk |
| Grep.GrepTruncated | filesystem-mcp/server.py:364-374 | never more than `max_results` results, and `truncated` holds exactly when the walk has at least `max_results` matches |
| Grep.GrepComplete | filesystem-mcp/server.py:345-374 | below the cap, every match is returned and every readable file was searched |
| Grep.GrepExactCap | filesystem-mcp/server.py:364-374 | with exactly `max_results` matches, all are returned and yet `truncated` is set |
| Grep.GrepSound | filesystem-mcp/server.py:354-363 | every result is a line of a readable walked file that contains the needle under the case rule, with its 1-based number and right-stripped text |
| Grep.GrepOrdered | filesystem-mcp/server.py:345-354 | results come in file order, then line order |
| Grep.GrepBelow | filesystem-mcp/server.py:345 | every result lies below the searched directory |
| Grep.ScanFiles | filesystem-mcp/server.py:342-367 | the nested loops with their `break`s compute the specification `Search`, whose results are the first `max_results` reference matches |
| Grep.ScanFile | filesystem-mcp/server.py:354-365 | the inner loop, with its `break` at the cap, computes the specification `ScanLines` |
| Grep.Relativize | filesystem-mcp/server.py:359 | making result paths relative succeeds exactly when every result lies under the root; a failure is the ValueError of the first result outside it; on success each relative path added to the root gives the result's file |
| Grep.SearchText | filesystem-mcp/server.py:339-377 | refusals pass through; an empty file pattern, or a directory that cannot be listed, walks no file and gives an empty report that is not truncated; otherwise the report follows `Search` over the sorted walk; `truncated` means the results reached the cap; the tool fails exactly when a result lies outside the root, with the ValueError of the first such result, which cannot happen when the directory is under the root |
| Grep.EmptyPatternSearchesNothing | filesystem-mcp/server.py:345-347 | `rglob("")` yields no file, so the search finds no match and counts no file |
| Grep.BuildReport | filesystem-mcp/server.py:359-377 | the report echoes the search text, counts the searched files and the results, sets `truncated` exactly when the results reached `max_results`, and carries each result's file relative to the root with its line number and text; it fails exactly when a result lies outside the root |
| Grep.LockedSearchesNothing | filesystem-mcp/server.py:345 | `rglob` on a directory that cannot be listed yields no file, so the search finds no match and counts no file |
| Grep.GrepIn | filesystem-mcp/server.py:342-377 | for a resolved directory: an empty file pattern or a directory that cannot be listed gives an empty report that is not truncated; otherwise the report follows `Search` over the sorted walk; `truncated` means the results reached the cap; the tool fails exactly when a result lies outside the root, with the ValueError of the first such result, which cannot happen when the directory is under the root |
| Text.SplitJoin | filesystem-mcp/server.py:156-160 | splitting a join of separator-free pieces gives back the pieces |
| Text.JoinSplit | filesystem-mcp/server.py:156-160 | joining the split of a text gives back the text |
| Text.Split | filesystem-mcp/server.py:215 | a text splits into one more piece than it has separators, and no piece holds the separator |
| Text.SplitLines | filesystem-mcp/server.py:156 | no line holds '\n', and there are no lines exactly when the text is empty |
| Text.SplitLinesJoin | filesystem-mcp/server.py:156 | joining the lines with '\n' gives the text back, less its final line break if it has one |
| Text.Lower | filesystem-mcp/server.py:355 | lowering keeps the length, leaves no ASCII capital, and keeps every character that is not one |
| Text.ContainsLower | filesystem-mcp/server.py:340-356 | an occurrence of the needle survives lowering both sides |
| Text.UniversalKeeps | filesystem-mcp/server.py:155 | text without "\r" reads back unchanged |
| Text.UniversalNoCr | filesystem-mcp/server.py:155 | no "\r" survives reading |
| Text.UniversalConcat | filesystem-mcp/server.py:155 | reading translates piece by piece, unless a "\r" ending one piece and a "\n" starting the next form one "\r\n" |
| Text.CrLfRead | filesystem-mcp/server.py:155 | a "\r\n" reads back as one "\n" |
| Text.CrRead | filesystem-mcp/server.py:155 | a lone "\r" reads back as "\n" |
| Text.RStrip | filesystem-mcp/server.py:361 | `rstrip` keeps a prefix, removes only whitespace, and leaves no trailing whitespace |
| Text.Utf8LengthBounds | filesystem-mcp/server.py:214 | the UTF-8 byte count lies between one and four bytes per character, and equals the character count exactly for ASCII text |

## Left out

- The FastMCP server, tool decorators, async execution, the stdio transport and the startup prints are protocol plumbing.
- Pydantic machinery: `extra="forbid"` and whitespace stripping. Inputs are taken as already stripped. The field constraints are preconditions: a non-empty path for `ReadFile`, `WriteFile`, `DeleteFile` and the `FileStore` methods; 1 ≤ `max_lines` ≤ 10000 for `ReadFile`; a pattern that is not blank for `SearchFiles`; a non-empty text and 1 ≤ `max_results` ≤ 500 for `SearchText`.
- Real disk I/O is replaced by the map. Permission failures on reading files are the `denied` set. Directories whose listing fails are the `locked` set, and only PermissionError is modelled for them: `stat` of an entry inside a directory that can be listed always succeeds. Permission and other OS failures of `write_text`, `mkdir` and `unlink` are not modelled.
- Symbolic links and platform path quirks are out, so `resolve` is lexical. This includes the special leading "//" and the drive letters of other platforms.
- Modification times and their formatting, `json.dumps` layout, and the exact success texts ("✓ Written …", "✓ Deleted …") are presentation.
- `fs_read_file`'s metadata line (size with thousands separators, mtime) is out. The model keeps the size as a number.
- Directory sizes (`st_size` of a directory) are platform-defined, so a directory's `size_bytes` is absent.
- FileSystem.ShowLines, Text.SplitLines and Grep.Lines: `splitlines` is modelled with '\n' as the only line boundary. `read_text` has already turned "\r" and "\r\n" into "\n", so those breaks are covered. Python also splits at "\v", "\f", "\x1c"-"\x1e", "\x85", U+2028 and U+2029, which the model does not.
- UTF-8 decoding with `errors="replace"` is out: file contents are already text.
- Grep.LineMatches and Grep.Needle: `str.lower` is modelled on ASCII letters only. Other Unicode case mappings are not modelled.
- Listing.KeyOf and Listing.SortByKey: the listing key lowers names on ASCII letters only, so names with other letters may sort differently.
- Errors.OsText and Paths.NotRelativeMessage: file names are quoted as plain `'…'`. Python uses `repr()`, which differs for names holding a quote, a backslash or a non-printable character. The `relative_to` wording is that of Python 3.12 and later.
- Glob.Match: only `*` and `?` are modelled. Character classes, patterns containing '/', and "**" are not. Hidden files are matched like any other name. The one pattern of this kind that `glob` cannot parse, ".", is modelled by `Listing.GlobRaises`.
- Listing.SortByKey: entries with equal keys keep the directory's own order, which the model leaves open. Only non-decreasing key order is promised.
- Concurrent writers and races between a check and the following action are out.

