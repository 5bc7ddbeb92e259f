/** The filesystem the tools act on, as a map from absolute normalised paths to entries,
    and the operations `fs_read_file`, `fs_write_file`, `fs_delete_file` and `fs_file_info`
    over it. */
module FileSystem {
  import opened Wrappers
  import opened Text
  import opened Errors
  import opened Paths

  /** A file holds text; a directory's contents are the entries below its path. */
  datatype Node = File(content: string) | Dir

  type FsMap = map<Path, Node>

  predicate IsFile(fs: FsMap, p: Path) { p in fs && fs[p].File? }

  predicate IsDir(fs: FsMap, p: Path) { p in fs && fs[p].Dir? }

  /** "/" is a directory, and every other entry has a normal path and sits in a directory
      that is itself an entry. */
  predicate WellFormed(fs: FsMap)
  {
    IsDir(fs, [])
    && forall p :: p in fs ==> IsNormal(p) && (p != [] ==> IsDir(fs, Parent(p)))
  }

  /** Every proper ancestor of an entry is a directory. */
  lemma {:induction false} AncestorsAreDirs(fs: FsMap, p: Path, k: nat)
    requires WellFormed(fs) && p in fs && k < |p|
    ensures IsDir(fs, p[..k])
    decreases |p|
  {
    var q := Parent(p);
    if k < |q| {
      AncestorsAreDirs(fs, q, k);
      assert q[..k] == p[..k];
    } else {
      assert p[..k] == q;
    }
  }

  /** A file stands on the way to `p`: the kernel's walk to `p` meets a file before the last
      name and fails with ENOTDIR. In a well-formed filesystem everything above an entry is a
      directory, so the walk meets that file before any missing name. */
  predicate FileAbove(fs: FsMap, p: Path)
    decreases |p|
  {
    p != [] && (IsFile(fs, Parent(p)) || FileAbove(fs, Parent(p)))
  }

  /** What `open` or `stat` raises for a path that is not an entry: NotADirectoryError when
      a file stands on the way, FileNotFoundError otherwise; both name the path. */
  function Missing(fs: FsMap, p: Path): (e: Raised)
    ensures FileAbove(fs, p) ==> e == OsFailure(NotADirectory, Render(p))
    ensures !FileAbove(fs, p) ==> e == FileNotFound(Render(p))
  {
    if FileAbove(fs, p) then OsFailure(NotADirectory, Render(p)) else FileNotFound(Render(p))
  }

  // ---- fs_read_file ----

  datatype Truncation = Truncation(shown: nat, total: nat)

  /** What `fs_read_file` returns before its metadata line: the text shown, the truncation
      note, and the file size. */
  datatype ReadReport = ReadReport(content: string, note: Option<Truncation>, sizeBytes: nat)

  /** The truncation step: with `max_lines` set and exceeded, the first `max_lines` lines
      joined with '\n' and a note of how many lines there were; otherwise the whole text. */
  function ShowLines(text: string, maxLines: Option<nat>): (r: (string, Option<Truncation>))
    ensures r.1.None? ==> r.0 == text
    ensures r.1.Some? ==> maxLines.Some? && r.1.value.shown == maxLines.value
                          && r.1.value.shown < r.1.value.total == |SplitLines(text)|
  {
    var lines := SplitLines(text);
    if maxLines.Some? && maxLines.value > 0 && |lines| > maxLines.value then
      (Join(lines[..maxLines.value], '\n'), Some(Truncation(maxLines.value, |lines|)))
    else (text, None)
  }

  /** A join of k separator-free pieces holds k - 1 separators. */
  lemma CountJoin(parts: seq<string>, sep: char)
    requires |parts| >= 1
    requires forall i :: 0 <= i < |parts| ==> sep !in parts[i]
    ensures Count(Join(parts, sep), sep) == |parts| - 1
  {
    SplitJoin(parts, sep);
  }

  /** The pieces `SplitLines` keeps start the pieces of the '\n' split. */
  lemma SplitLinesPrefix(text: string)
    ensures var lines := SplitLines(text);
      var parts := Split(text, '\n');
      |lines| <= |parts| && lines == parts[..|lines|]
  {
  }

  /** Truncation shows exactly the first `max_lines` lines whole: the shown text followed by
      a line break starts the file, and holds `max_lines` - 1 line breaks; the note reports
      `max_lines` of the total. Without truncation the text is unchanged. */
  lemma ShowLinesMeaning(text: string, maxLines: Option<nat>)
    requires maxLines.Some? ==> maxLines.value >= 1
    ensures var (content, note) := ShowLines(text, maxLines);
      var total := |SplitLines(text)|;
      && StartsWith(text, content)
      && (note.Some? <==> maxLines.Some? && total > maxLines.value)
      && (note.Some? ==> note.value == Truncation(maxLines.value, total)
                         && StartsWith(text, content + "\n")
                         && Count(content, '\n') == maxLines.value - 1
                         && |content| < |text|)
      && (note.None? ==> content == text)
  {
    var (content, note) := ShowLines(text, maxLines);
    if note.Some? {
      ShownLines(text, maxLines.value);
    } else {
      assert text[..|text|] == text;
    }
  }

  /** The first `m` of more than `m` lines, joined: followed by a line break they start
      the text, and they hold `m` - 1 line breaks. */
  lemma ShownLines(text: string, m: nat)
    requires 1 <= m < |SplitLines(text)|
    ensures var content := Join(SplitLines(text)[..m], '\n');
      && StartsWith(text, content + "\n")
      && StartsWith(text, content)
      && Count(content, '\n') == m - 1
      && |content| < |text|
  {
    var content := Join(SplitLines(text)[..m], '\n');
    CountJoin(SplitLines(text)[..m], '\n');
    var parts := Split(text, '\n');
    SplitLinesPrefix(text);
    assert SplitLines(text)[..m] == parts[..m];
    var longer := Join(parts[..m + 1], '\n');
    JoinedPieces(text, m);
    assert text[..|content + "\n"|] == longer[..|content + "\n"|] == content + "\n";
    assert text[..|content|] == (content + "\n")[..|content|] == content;
  }

  /** The first `m` + 1 pieces of the '\n' split, joined, start the text and are the first
      `m` pieces, a line break and piece `m`. */
  lemma JoinedPieces(text: string, m: nat)
    requires m + 1 <= |Split(text, '\n')| && m >= 1
    ensures var parts := Split(text, '\n');
      var longer := Join(parts[..m + 1], '\n');
      && StartsWith(text, longer)
      && longer == Join(parts[..m], '\n') + "\n" + parts[m]
  {
    var parts := Split(text, '\n');
    JoinSplit(text, '\n');
    JoinPrefix(parts, m + 1, '\n');
    assert parts[..m + 1] == parts[..m] + [parts[m]];
    JoinSnoc(parts[..m], parts[m], '\n');
  }

  /** `fs_read_file` (without its metadata line): directories are refused, a missing file,
      one beneath a file, or one the process may not open fails through `_handle_error`;
      otherwise the text, read in universal-newline mode, is shown through the `max_lines`
      truncation, and the size is that of the stored bytes. */
  function ReadFile(fs: FsMap, root: Path, denied: set<Path>, raw: string, maxLines: Option<nat>)
    : (r: Result<ReadReport, ToolError>)
    requires IsNormal(root) && raw != ""
    requires maxLines.Some? ==> 1 <= maxLines.value <= 10000
    ensures SafePath(root, raw).Err? ==> r == Err(Caught(SafePath(root, raw).error))
    ensures SafePath(root, raw).Ok? ==>
      var target := SafePath(root, raw).value;
      && (IsDir(fs, target) ==> r == Err(ReadDirectory(raw)))
      && (target !in fs && FileAbove(fs, target) ==>
            r == Err(Caught(OsFailure(NotADirectory, Render(target)))))
      && (target !in fs && !FileAbove(fs, target) ==> r == Err(Caught(FileNotFound(Render(target)))))
      && (IsFile(fs, target) && target in denied ==> r == Err(Caught(PermissionDenied(Render(target)))))
      && (r.Ok? <==> IsFile(fs, target) && target !in denied)
      && (r.Ok? ==> StartsWith(Universal(fs[target].content), r.value.content)
                    && (r.value.content, r.value.note) == ShowLines(Universal(fs[target].content), maxLines)
                    && r.value.sizeBytes == Utf8Length(fs[target].content))
  {
    match SafePath(root, raw)
    case Err(e) => Err(Caught(e))
    case Ok(target) =>
      if IsDir(fs, target) then Err(ReadDirectory(raw))
      else if target !in fs then Err(Caught(Missing(fs, target)))
      else if target in denied then Err(Caught(PermissionDenied(Render(target))))
      else
        var text := Universal(fs[target].content);
        ShowLinesMeaning(text, maxLines);
        var (content, note) := ShowLines(text, maxLines);
        Ok(ReadReport(content, note, Utf8Length(fs[target].content)))
  }

  // ---- fs_write_file ----

  /** No file stands at `p` or at any of its ancestors. */
  predicate NoFileOnWay(fs: FsMap, p: Path)
  {
    forall k :: 0 <= k <= |p| ==> !IsFile(fs, p[..k])
  }

  /** `p.mkdir(parents=True, exist_ok=True)`: creates `p` and its missing ancestors. It
      fails with FileExistsError when `p` is a file, and with NotADirectoryError naming `p`
      when a file stands on the way (the first `os.mkdir(p)` already fails so). A missing
      parent makes `os.mkdir` fail with ENOENT, whereupon the parent is made first. */
  function MakeDirs(fs: FsMap, p: Path): (r: Result<FsMap, Raised>)
    ensures IsFile(fs, p) ==> r == Err(OsFailure(FileExists, Render(p)))
    ensures r.Err? ==> r.error.OsFailure? && r.error.filename == Render(p)
    ensures r.Ok? ==> IsDir(r.value, p) && forall q :: q in fs ==> q in r.value && r.value[q] == fs[q]
    decreases |p|
  {
    if p in fs then
      (if fs[p].Dir? then Ok(fs) else Err(OsFailure(FileExists, Render(p))))
    else if FileAbove(fs, p) then Err(OsFailure(NotADirectory, Render(p)))
    else if p == [] || Parent(p) in fs then Ok(fs[p := Dir])
    else
      match MakeDirs(fs, Parent(p))
      case Err(e) => Err(OsFailure(e.kind, Render(p)))
      case Ok(made) => Ok(made[p := Dir])
  }

  lemma NoFileOnWayStep(fs: FsMap, p: Path)
    requires p != []
    ensures NoFileOnWay(fs, p) <==> NoFileOnWay(fs, Parent(p)) && !IsFile(fs, p)
  {
    var q := Parent(p);
    assert forall k :: 0 <= k <= |q| ==> q[..k] == p[..k];
    assert p[..|p|] == p;
  }

  lemma DirOnWay(fs: FsMap, p: Path)
    requires WellFormed(fs) && IsDir(fs, p)
    ensures NoFileOnWay(fs, p)
  {
    forall k | 0 <= k <= |p| ensures !IsFile(fs, p[..k]) {
      if k < |p| { AncestorsAreDirs(fs, p, k); } else { assert p[..k] == p; }
    }
  }

  /** A file stands above `p` exactly when one stands on the way to its parent. */
  lemma {:induction false} FileAboveWay(fs: FsMap, p: Path)
    ensures FileAbove(fs, p) <==> p != [] && !NoFileOnWay(fs, Parent(p))
    decreases |p|
  {
    if p != [] {
      var q := Parent(p);
      FileAboveWay(fs, q);
      if q == [] {
        assert q[..0] == q;
      } else {
        NoFileOnWayStep(fs, q);
      }
    }
  }

  /** `mkdir` succeeds exactly when no file is in the way. */
  lemma {:induction false} MakeDirsSucceeds(fs: FsMap, p: Path)
    requires WellFormed(fs)
    ensures MakeDirs(fs, p).Ok? <==> NoFileOnWay(fs, p)
    decreases |p|
  {
    if p in fs {
      if fs[p].Dir? { DirOnWay(fs, p); } else { assert p[..|p|] == p; }
    } else if p != [] {
      var q := Parent(p);
      FileAboveWay(fs, p);
      NoFileOnWayStep(fs, p);
      if q !in fs && !FileAbove(fs, p) {
        MakeDirsSucceeds(fs, q);
      }
    }
  }

  /** A successful `mkdir` makes `p` a directory, keeps every existing entry, adds only
      directories on the way to `p`, and keeps the filesystem well formed. */
  lemma {:induction false} MakeDirsEffect(fs: FsMap, p: Path)
    requires WellFormed(fs) && IsNormal(p)
    requires MakeDirs(fs, p).Ok?
    ensures var made := MakeDirs(fs, p).value;
      && WellFormed(made) && IsDir(made, p)
      && (forall q :: q in fs ==> q in made && made[q] == fs[q])
      && (forall q :: q in made && q !in fs ==> Under(q, p) && made[q] == Dir)
    decreases |p|
  {
    if p !in fs {
      var q := Parent(p);
      MakeDirsStep(fs, p);
      var base := if q in fs then fs else MakeDirs(fs, q).value;
      if q !in fs {
        MakeDirsEffect(fs, q);
        forall r | r in base && r !in fs ensures Under(r, p) {
          assert Under(r, q);
          assert p[..|r|] == q[..|r|];
        }
      }
      AddDir(base, p);
    }
  }

  /** One level of a successful `mkdir` on a missing path: the parent is made first when
      it is missing, and then the path is added as a directory. */
  lemma MakeDirsStep(fs: FsMap, p: Path)
    requires WellFormed(fs) && IsNormal(p)
    requires p !in fs && MakeDirs(fs, p).Ok?
    ensures p != [] && IsNormal(Parent(p)) && !IsFile(fs, Parent(p))
    ensures Parent(p) in fs ==> MakeDirs(fs, p).value == fs[p := Dir]
    ensures Parent(p) !in fs ==>
      (MakeDirs(fs, Parent(p)).Ok? && MakeDirs(fs, p).value == MakeDirs(fs, Parent(p)).value[p := Dir])
  {
  }

  /** Adding a directory whose parent is a directory keeps the filesystem well formed. */
  lemma AddDir(fs: FsMap, p: Path)
    requires WellFormed(fs) && IsNormal(p) && p != [] && IsDir(fs, Parent(p))
    ensures WellFormed(fs[p := Dir]) && IsDir(fs[p := Dir], p)
  {
  }

  /** `fs_write_file` reports the UTF-8 size and the '\n' count plus one. */
  datatype WriteReport = WriteReport(bytes: nat, lines: nat)

  /** `fs_write_file`: the new filesystem and the report, or the failure. An existing
      target is only replaced with `overwrite`; missing parent directories are created;
      writing onto a directory fails with IsADirectoryError. */
  function WriteFile(fs: FsMap, root: Path, raw: string, content: string, overwrite: bool)
    : (r: Result<(FsMap, WriteReport), ToolError>)
    requires IsNormal(root) && raw != ""
    ensures SafePath(root, raw).Err? ==> r == Err(Caught(SafePath(root, raw).error))
    ensures SafePath(root, raw).Ok? && SafePath(root, raw).value in fs && !overwrite ==>
      r == Err(AlreadyExists(raw))
    ensures r.Ok? ==>
      && SafePath(root, raw).Ok?
      && SafePath(root, raw).value in r.value.0
      && r.value.0[SafePath(root, raw).value] == File(content)
      && r.value.1 == WriteReport(Utf8Length(content), |Split(content, '\n')|)
  {
    match SafePath(root, raw)
    case Err(e) => Err(Caught(e))
    case Ok(target) => WriteAt(fs, raw, target, content, overwrite)
  }

  /** The part of `fs_write_file` after the path has been admitted as `target`. */
  function WriteAt(fs: FsMap, raw: string, target: Path, content: string, overwrite: bool)
    : (r: Result<(FsMap, WriteReport), ToolError>)
    ensures target in fs && !overwrite ==> r == Err(AlreadyExists(raw))
    ensures r.Ok? ==> target in r.value.0 && r.value.0[target] == File(content)
                      && r.value.1 == WriteReport(Utf8Length(content), |Split(content, '\n')|)
  {
    if target in fs && !overwrite then Err(AlreadyExists(raw))
    else
      match MakeDirs(fs, Parent(target))
      case Err(e) => Err(Caught(e))
      case Ok(made) =>
        if IsDir(made, target) then Err(Caught(OsFailure(IsADirectory, Render(target))))
        else Ok((made[target := File(content)], WriteReport(Utf8Length(content), Count(content, '\n') + 1)))
  }

  /** When a write succeeds: the target holds exactly `content`, every other existing entry
      is unchanged, the only new entries are the directories on the way to the target, and
      the report counts the UTF-8 bytes and the '\n'-separated pieces of `content`. */
  lemma WriteMeaning(fs: FsMap, root: Path, raw: string, content: string, overwrite: bool)
    requires IsNormal(root) && raw != "" && WellFormed(fs)
    requires WriteFile(fs, root, raw, content, overwrite).Ok?
    ensures var (after, report) := WriteFile(fs, root, raw, content, overwrite).value;
      var target := SafePath(root, raw).value;
      && SafePath(root, raw).Ok?
      && after[target] == File(content)
      && (forall q :: q in fs && q != target ==> q in after && after[q] == fs[q])
      && (forall q :: q in after && q !in fs ==> q == target || (Under(q, target) && after[q] == Dir))
      && report.bytes == Utf8Length(content)
      && report.lines == |Split(content, '\n')|
  {
    var target := SafePath(root, raw).value;
    var parent := Parent(target);
    assert IsNormal(parent);
    MakeDirsEffect(fs, parent);
    var made := MakeDirs(fs, parent).value;
    var after := made[target := File(content)];
    WriteFileOk(fs, root, raw, content, overwrite);
    assert Under(parent, target) by {
      if target != [] { assert target[..|parent|] == parent; }
    }
    forall q | q in after && q !in fs && q != target ensures Under(q, target) {
      UnderTransitive(q, parent, target);
    }
  }

  /** What a successful write returns: the filesystem after `mkdir` of the parent, with the
      target's content replaced, and the report. */
  lemma WriteFileOk(fs: FsMap, root: Path, raw: string, content: string, overwrite: bool)
    requires IsNormal(root) && raw != ""
    requires WriteFile(fs, root, raw, content, overwrite).Ok?
    ensures SafePath(root, raw).Ok?
    ensures var target := SafePath(root, raw).value;
      && MakeDirs(fs, Parent(target)).Ok?
      && WriteFile(fs, root, raw, content, overwrite).value
         == (MakeDirs(fs, Parent(target)).value[target := File(content)],
             WriteReport(Utf8Length(content), Count(content, '\n') + 1))
  {
    var target := SafePath(root, raw).value;
    assert WriteFile(fs, root, raw, content, overwrite) == WriteAt(fs, raw, target, content, overwrite);
    WriteAtOk(fs, raw, target, content, overwrite);
  }

  lemma WriteAtOk(fs: FsMap, raw: string, target: Path, content: string, overwrite: bool)
    requires WriteAt(fs, raw, target, content, overwrite).Ok?
    ensures MakeDirs(fs, Parent(target)).Ok?
      && WriteAt(fs, raw, target, content, overwrite).value
         == (MakeDirs(fs, Parent(target)).value[target := File(content)],
             WriteReport(Utf8Length(content), Count(content, '\n') + 1))
  {
  }

  /** A successful write leaves the filesystem well formed. */
  lemma WriteWellFormed(fs: FsMap, root: Path, raw: string, content: string, overwrite: bool)
    requires IsNormal(root) && raw != "" && WellFormed(fs)
    requires WriteFile(fs, root, raw, content, overwrite).Ok?
    ensures WellFormed(WriteFile(fs, root, raw, content, overwrite).value.0)
  {
    var target := SafePath(root, raw).value;
    var parent := Parent(target);
    assert IsNormal(parent);
    MakeDirsEffect(fs, parent);
    var made := MakeDirs(fs, parent).value;
    assert WriteFile(fs, root, raw, content, overwrite).value.0 == made[target := File(content)];
    PutFileWellFormed(made, target, content);
  }

  /** Storing a file where no directory stands, inside an existing directory, keeps the
      filesystem well formed. */
  lemma PutFileWellFormed(fs: FsMap, target: Path, content: string)
    requires WellFormed(fs) && IsNormal(target) && target != []
    requires IsDir(fs, Parent(target)) && !IsDir(fs, target)
    ensures WellFormed(fs[target := File(content)])
  {
    var after := fs[target := File(content)];
    forall p | p in after && p != []
      ensures IsDir(after, Parent(p))
    {
      assert Parent(p) != target;
    }
  }

  /** Write succeeds exactly when the target is admitted, may be written (absent, or
      `overwrite` given), is not a directory, and no file blocks its parent's creation. */
  lemma WriteSucceedsExactly(fs: FsMap, root: Path, raw: string, content: string, overwrite: bool)
    requires IsNormal(root) && raw != "" && WellFormed(fs)
    ensures WriteFile(fs, root, raw, content, overwrite).Ok? <==>
      && SafePath(root, raw).Ok?
      && var target := SafePath(root, raw).value;
      && (target !in fs || overwrite)
      && !IsDir(fs, target)
      && NoFileOnWay(fs, Parent(target))
  {
    if SafePath(root, raw).Ok? {
      var target := SafePath(root, raw).value;
      MakeDirsSucceeds(fs, Parent(target));
      if MakeDirs(fs, Parent(target)).Ok? {
        assert IsNormal(Parent(target));
        MakeDirsEffect(fs, Parent(target));
      }
    }
  }

  /** The non-destructive default: an existing target without `overwrite` is refused. */
  lemma WriteRefusesExisting(fs: FsMap, root: Path, raw: string, content: string)
    requires IsNormal(root) && raw != ""
    requires SafePath(root, raw).Ok? && SafePath(root, raw).value in fs
    ensures WriteFile(fs, root, raw, content, false) == Err(AlreadyExists(raw))
  {
  }

  /** After a first write, a second write without `overwrite` is refused and the first
      content stays. */
  lemma SecondWriteRefused(fs: FsMap, root: Path, raw: string, first: string, second: string)
    requires IsNormal(root) && raw != "" && WellFormed(fs)
    requires WriteFile(fs, root, raw, first, false).Ok?
    ensures var after := WriteFile(fs, root, raw, first, false).value.0;
      && WriteFile(after, root, raw, second, false) == Err(AlreadyExists(raw))
      && after[SafePath(root, raw).value] == File(first)
  {
    WriteMeaning(fs, root, raw, first, false);
  }

  /** Round trip: reading back a written file without truncation (or with a limit the
      text does not exceed) gives the written content with its line breaks read as '\n',
      which is exactly the written content when it holds no '\r'. */
  lemma ReadAfterWrite(fs: FsMap, root: Path, denied: set<Path>, raw: string, content: string,
                       overwrite: bool, maxLines: Option<nat>)
    requires IsNormal(root) && raw != "" && WellFormed(fs)
    requires WriteFile(fs, root, raw, content, overwrite).Ok?
    requires SafePath(root, raw).Ok? ==> SafePath(root, raw).value !in denied
    requires maxLines.Some? ==>
      |SplitLines(Universal(content))| <= maxLines.value <= 10000 && maxLines.value >= 1
    ensures var after := WriteFile(fs, root, raw, content, overwrite).value.0;
      ReadFile(after, root, denied, raw, maxLines)
        == Ok(ReadReport(Universal(content), None, Utf8Length(content)))
    ensures var after := WriteFile(fs, root, raw, content, overwrite).value.0;
      '\r' !in content ==> ReadFile(after, root, denied, raw, maxLines).value.content == content
  {
    WriteMeaning(fs, root, raw, content, overwrite);
    if '\r' !in content {
      UniversalKeeps(content);
    }
  }

  // ---- fs_delete_file ----

  /** `fs_delete_file`: only an existing file is removed. */
  function DeleteFile(fs: FsMap, root: Path, raw: string): (r: Result<FsMap, ToolError>)
    requires IsNormal(root) && raw != ""
    ensures SafePath(root, raw).Err? ==> r == Err(Caught(SafePath(root, raw).error))
    ensures r.Ok? ==> SafePath(root, raw).Ok? && IsFile(fs, SafePath(root, raw).value)
                      && SafePath(root, raw).value !in r.value
                      && forall q :: q in fs && q != SafePath(root, raw).value ==>
                           q in r.value && r.value[q] == fs[q]
  {
    match SafePath(root, raw)
    case Err(e) => Err(Caught(e))
    case Ok(target) =>
      if target !in fs then Err(DoesNotExist(raw))
      else if fs[target].Dir? then Err(DeleteDirectory(raw))
      else Ok(fs - {target})
  }

  /** Delete fails on a missing path and on a directory (which stays), and otherwise
      removes exactly that one file, keeping the filesystem well formed. */
  lemma DeleteMeaning(fs: FsMap, root: Path, raw: string)
    requires IsNormal(root) && raw != "" && WellFormed(fs)
    ensures var r := DeleteFile(fs, root, raw);
      && (r.Ok? <==> SafePath(root, raw).Ok? && IsFile(fs, SafePath(root, raw).value))
      && (SafePath(root, raw).Ok? && SafePath(root, raw).value !in fs ==> r == Err(DoesNotExist(raw)))
      && (SafePath(root, raw).Ok? && IsDir(fs, SafePath(root, raw).value) ==> r == Err(DeleteDirectory(raw)))
      && (r.Ok? ==> r.value.Keys == fs.Keys - {SafePath(root, raw).value}
                    && (forall q :: q in r.value ==> r.value[q] == fs[q])
                    && WellFormed(r.value))
  {
    var r := DeleteFile(fs, root, raw);
    if r.Ok? {
      var target := SafePath(root, raw).value;
      forall q | q in r.value && q != [] ensures IsDir(r.value, Parent(q)) {
        assert IsDir(fs, Parent(q));
      }
    }
  }

  // ---- descriptors and fs_file_info ----

  /** `_file_info` without the modification time: the size of a directory is left to the
      platform. */
  datatype EntryInfo = EntryInfo(name: string, path: Path, sizeBytes: Option<nat>, isDir: bool)

  /** `_file_info(p)`; `relative_to` raises ValueError for a path outside the root. */
  function Describe(fs: FsMap, root: Path, p: Path): (r: Result<EntryInfo, Raised>)
    requires p in fs
    ensures r.Ok? <==> Under(root, p)
    ensures r.Err? ==> r.error == ValueError(NotRelativeMessage(root, p))
    ensures r.Ok? ==> root + r.value.path == p && r.value.name == Name(p)
                      && r.value.isDir == fs[p].Dir?
                      && r.value.sizeBytes == (if fs[p].File? then Some(Utf8Length(fs[p].content)) else None)
  {
    match RelativeTo(root, p)
    case None => Err(ValueError(NotRelativeMessage(root, p)))
    case Some(rel) =>
      Ok(EntryInfo(Name(p), rel, if fs[p].File? then Some(Utf8Length(fs[p].content)) else None,
                   fs[p].Dir?))
  }

  /** Index of the last '.' in `name`, if any. */
  function LastDot(name: string): (r: Option<nat>)
    ensures r.Some? ==> r.value < |name| && name[r.value] == '.' && '.' !in name[r.value + 1..]
    ensures r.None? ==> '.' !in name
  {
    if name == [] then None
    else if name[|name| - 1] == '.' then Some(|name| - 1)
    else
      var r := LastDot(name[..|name| - 1]);
      assert name == name[..|name| - 1] + [name[|name| - 1]];
      if r.Some? then
        assert name[r.value + 1..] == name[..|name| - 1][r.value + 1..] + [name[|name| - 1]];
        r
      else r
  }

  /** `path.suffix`: from the last '.' on, unless that dot starts the name or ends it. */
  function Suffix(name: string): (r: string)
    ensures r != "" <==> |name| > 0 && name[|name| - 1] != '.'
                         && exists i :: 0 < i < |name| && name[i] == '.'
    ensures r != "" ==> |r| >= 2 && r[0] == '.' && '.' !in r[1..] && |r| < |name|
                        && name[|name| - |r|..] == r
  {
    match LastDot(name)
    case Some(i) =>
      if 0 < i < |name| - 1 then name[i..]
      else
        LastDotLast(name, i);
        ""
    case None => ""
  }

  /** When the last '.' starts or ends the name, no other character after the first is a
      '.' or the name ends with one. */
  lemma LastDotLast(name: string, i: nat)
    requires i < |name| && name[i] == '.' && '.' !in name[i + 1..]
    requires !(0 < i < |name| - 1)
    ensures !(name[|name| - 1] != '.' && exists j :: 0 < j < |name| && name[j] == '.')
  {
    if name[|name| - 1] != '.' {
      assert i == 0;
      forall j | 0 < j < |name| ensures name[j] != '.' {
        assert name[j] == name[i + 1..][j - 1];
      }
    }
  }

  datatype FileFacts = FileFacts(lineCount: Option<nat>, extension: string)

  /** What `fs_file_info` returns: the descriptor and, for files, the '\n' count plus one
      of the text as read (absent when the file cannot be read) and the extension. */
  datatype InfoReport = InfoReport(info: EntryInfo, facts: Option<FileFacts>)

  /** `fs_file_info`: fails when the path is refused, is not an entry (`stat` raises) or lies
      outside the root (`relative_to` raises); otherwise reports the entry's descriptor and,
      for a file, its extension or "(none)". */
  function FileInfo(fs: FsMap, root: Path, denied: set<Path>, raw: string): (r: Result<InfoReport, ToolError>)
    requires IsNormal(root)
    ensures r.Ok? ==> SafePath(root, raw).Ok? && SafePath(root, raw).value in fs
    ensures r.Ok? ==> (r.value.facts.Some? <==> IsFile(fs, SafePath(root, raw).value))
    ensures SafePath(root, raw).Err? ==> r == Err(Caught(SafePath(root, raw).error))
    ensures SafePath(root, raw).Ok? ==>
      var target := SafePath(root, raw).value;
      && (target !in fs && FileAbove(fs, target) ==>
            r == Err(Caught(OsFailure(NotADirectory, Render(target)))))
      && (target !in fs && !FileAbove(fs, target) ==> r == Err(Caught(FileNotFound(Render(target)))))
      && (target in fs && !Under(root, target) ==>
            r == Err(Caught(ValueError(NotRelativeMessage(root, target)))))
      && (r.Ok? <==> target in fs && Under(root, target))
      && (r.Ok? ==> r.value.info == Describe(fs, root, target).value
                    && (r.value.facts.Some? ==>
                          var ext := Suffix(Name(target));
                          r.value.facts.value.extension == if ext == "" then "(none)" else ext))
  {
    match SafePath(root, raw)
    case Err(e) => Err(Caught(e))
    case Ok(target) =>
      if target !in fs then Err(Caught(Missing(fs, target)))
      else
        match Describe(fs, root, target)
        case Err(e) => Err(Caught(e))
        case Ok(info) =>
          if fs[target].File? then
            var lines := if target in denied then None
                         else Some(Count(Universal(fs[target].content), '\n') + 1);
            var ext := Suffix(Name(target));
            Ok(InfoReport(info, Some(FileFacts(lines, if ext == "" then "(none)" else ext))))
          else Ok(InfoReport(info, None))
  }

  /** The line count of a readable file is the number of '\n'-separated pieces of its
      text read in universal-newline mode, so "\r\n" and a lone '\r' each end a line; an
      unreadable file has none. */
  lemma FileInfoLines(fs: FsMap, root: Path, denied: set<Path>, raw: string)
    requires IsNormal(root)
    requires FileInfo(fs, root, denied, raw).Ok? && FileInfo(fs, root, denied, raw).value.facts.Some?
    ensures var target := SafePath(root, raw).value;
      var lines := FileInfo(fs, root, denied, raw).value.facts.value.lineCount;
      && (target in denied <==> lines.None?)
      && (lines.Some? ==> lines.value == |Split(Universal(fs[target].content), '\n')|)
  {
  }

  // ---- the mutable filesystem ----

  /** The filesystem seen by the server: a fixed working root and the entries, which the
      writing tools update in place. */
  class FileStore {
    const root: Path
    var entries: FsMap

    /** The working root is a directory of a well-formed filesystem. */
    ghost predicate Valid()
      reads this
    {
      IsNormal(root) && WellFormed(entries) && IsDir(entries, root)
    }

    constructor (root: Path, entries: FsMap)
      requires IsNormal(root) && WellFormed(entries) && IsDir(entries, root)
      ensures Valid() && this.root == root && this.entries == entries
    {
      this.root := root;
      this.entries := entries;
    }

    /** `fs_write_file`: creates the parent directories, then replaces the target's
        content; on failure nothing changes. */
    method Write(raw: string, content: string, overwrite: bool) returns (r: Result<WriteReport, ToolError>)
      requires Valid() && raw != ""
      modifies this
      ensures Valid()
      ensures match WriteFile(old(entries), root, raw, content, overwrite)
        case Ok((after, report)) => r == Ok(report) && entries == after
        case Err(e) => r == Err(e) && entries == old(entries)
    {
      var resolved := SafePath(root, raw);
      if resolved.Err? {
        return Err(Caught(resolved.error));
      }
      var target := resolved.value;
      if target in entries && !overwrite {
        return Err(AlreadyExists(raw));
      }
      var made := MakeDirs(entries, Parent(target));
      if made.Err? {
        return Err(Caught(made.error));
      }
      if IsDir(made.value, target) {
        return Err(Caught(OsFailure(IsADirectory, Render(target))));
      }
      ghost var before := entries;
      entries := made.value;
      entries := entries[target := File(content)];
      r := Ok(WriteReport(Utf8Length(content), Count(content, '\n') + 1));
      WriteMeaning(before, root, raw, content, overwrite);
      WriteWellFormed(before, root, raw, content, overwrite);
      assert root != target;
    }

    /** `fs_delete_file`: unlinks the target when it is a file; on failure nothing
        changes. */
    method Delete(raw: string) returns (r: Result<(), ToolError>)
      requires Valid() && raw != ""
      modifies this
      ensures Valid()
      ensures match DeleteFile(old(entries), root, raw)
        case Ok(after) => r == Ok(()) && entries == after
        case Err(e) => r == Err(e) && entries == old(entries)
    {
      DeleteMeaning(entries, root, raw);
      var resolved := SafePath(root, raw);
      if resolved.Err? {
        return Err(Caught(resolved.error));
      }
      var target := resolved.value;
      if target !in entries {
        return Err(DoesNotExist(raw));
      }
      if entries[target].Dir? {
        return Err(DeleteDirectory(raw));
      }
      entries := entries - {target};
      r := Ok(());
    }
  }
}
