/** `fs_list_directory` and `fs_search_files`: the entries of one directory, or the files
    whose names match a pattern, each described by `_file_info`. */
module Listing {
  import opened Wrappers
  import opened Text
  import opened Errors
  import opened Paths
  import opened Order
  import opened Glob
  import opened FileSystem

  /** The entries directly inside `dir` (what `iterdir` yields). */
  function Children(fs: FsMap, dir: Path): set<Path>
  {
    set p | p in fs && |p| == |dir| + 1 && p[..|dir|] == dir
  }

  /** The listing key `(p.is_file(), p.name.lower())`. */
  function KeyOf(fs: FsMap, p: Path): (r: Key)
    ensures r.isFile <==> IsFile(fs, p)
    ensures |r.lowered| == |Name(p)|
    ensures forall i :: 0 <= i < |r.lowered| ==> !('A' <= r.lowered[i] <= 'Z')
  {
    Key(IsFile(fs, p), Lower(Name(p)))
  }

  predicate Hidden(name: string)
  {
    StartsWith(name, ".")
  }

  /** Whether `fs_list_directory` reports the entry `p`. */
  predicate Listed(showHidden: bool, p: Path)
  {
    showHidden || !Hidden(Name(p))
  }

  /** A finite non-empty set has an element whose key no other element's key precedes. */
  lemma {:induction false} MinimalKeyExists(s: set<Path>, key: Path -> Key)
    requires s != {}
    ensures exists m :: m in s && forall q :: q in s ==> !KeyLess(key(q), key(m))
    decreases s
  {
    var x :| x in s;
    var others := s - {x};
    KeyLessIrreflexive(key(x));
    if others != {} {
      MinimalKeyExists(others, key);
      var m :| m in others && forall q :: q in others ==> !KeyLess(key(q), key(m));
      if KeyLess(key(x), key(m)) {
        forall q | q in s ensures !KeyLess(key(q), key(x)) {
          if KeyLess(key(q), key(x)) {
            KeyLessTransitive(key(q), key(x), key(m));
            KeyLessIrreflexive(key(q));
          }
        }
      } else {
        assert forall q :: q in s ==> !KeyLess(key(q), key(m));
      }
    } else {
      assert s == {x};
    }
  }

  /** `sorted(items, key=key)`: every item once, in non-decreasing key order. Items with
      equal keys keep the order the directory yields them in, which the model leaves
      open. */
  method SortByKey(s: set<Path>, key: Path -> Key) returns (r: seq<Path>)
    ensures forall p :: p in r <==> p in s
    ensures forall i, j :: 0 <= i < j < |r| ==> r[i] != r[j]
    ensures forall i, j :: 0 <= i < j < |r| ==> !KeyLess(key(r[j]), key(r[i]))
  {
    var rest := s;
    r := [];
    while rest != {}
      invariant rest <= s
      invariant forall p :: p in r ==> p in s && p !in rest
      invariant forall p :: p in s ==> p in r || p in rest
      invariant forall i, j :: 0 <= i < j < |r| ==> r[i] != r[j]
      invariant forall i, j :: 0 <= i < j < |r| ==> !KeyLess(key(r[j]), key(r[i]))
      invariant forall i, q :: 0 <= i < |r| && q in rest ==> !KeyLess(key(q), key(r[i]))
      decreases rest
    {
      MinimalKeyExists(rest, key);
      var m :| m in rest && forall q :: q in rest ==> !KeyLess(key(q), key(m));
      r := r + [m];
      rest := rest - {m};
    }
  }

  /** The items of `s` that `keep` admits, in their order (a `continue` or an `if` inside
      the tools' loops). */
  function Filter(s: seq<Path>, keep: Path -> bool): (r: seq<Path>)
    ensures |r| <= |s|
  {
    if s == [] then []
    else Filter(s[..|s| - 1], keep) + (if keep(s[|s| - 1]) then [s[|s| - 1]] else [])
  }

  /** An item survives filtering exactly when it is in the sequence and admitted. */
  lemma {:induction false} FilterMembers(s: seq<Path>, keep: Path -> bool, p: Path)
    ensures p in Filter(s, keep) <==> p in s && keep(p)
  {
    if s != [] {
      var front := s[..|s| - 1];
      FilterMembers(front, keep, p);
      assert s == front + [s[|s| - 1]];
    }
  }

  /** Filtering one more item appends it when admitted. */
  lemma FilterSnoc(s: seq<Path>, keep: Path -> bool, i: nat)
    requires i < |s|
    ensures Filter(s[..i + 1], keep) == Filter(s[..i], keep) + (if keep(s[i]) then [s[i]] else [])
  {
    assert s[..i + 1][..i] == s[..i];
  }

  /** `x` occurs in `s` before an occurrence of `y`. */
  predicate Precedes(s: seq<Path>, x: Path, y: Path)
  {
    exists a, b :: 0 <= a < b < |s| && s[a] == x && s[b] == y
  }

  /** Filtering keeps the relative order: any two kept items stand in the same order in
      the original sequence. */
  lemma {:induction false} FilterPairs(s: seq<Path>, keep: Path -> bool, i: nat, j: nat)
    requires i < j < |Filter(s, keep)|
    ensures Precedes(s, Filter(s, keep)[i], Filter(s, keep)[j])
  {
    var front := s[..|s| - 1];
    var f := Filter(front, keep);
    if j < |f| {
      FilterPairs(front, keep, i, j);
      var a, b :| 0 <= a < b < |front| && front[a] == f[i] && front[b] == f[j];
      assert s[a] == front[a] && s[b] == front[b];
    } else {
      assert f[i] in f;
      FilterMembers(front, keep, f[i]);
      var a :| 0 <= a < |front| && front[a] == f[i];
      assert s[a] == front[a];
    }
  }

  /** A child lies under the root whenever its directory does. */
  lemma ChildUnder(root: Path, dir: Path, child: Path)
    requires |child| == |dir| + 1 && child[..|dir|] == dir
    ensures Under(root, dir) ==> Under(root, child)
  {
    if Under(root, dir) {
      assert child[..|root|] == dir[..|root|];
    }
  }

  /** The loop both tools share: `_file_info` of every admitted item, in order; the first
      item that cannot be described ends the loop with its error. */
  method DescribeEach(fs: FsMap, root: Path, items: seq<Path>, keep: Path -> bool)
    returns (r: Result<seq<EntryInfo>, Raised>)
    requires forall p :: p in items ==> p in fs
    ensures r.Ok? ==>
      && |r.value| == |Filter(items, keep)|
      && forall k :: 0 <= k < |r.value| ==>
           Filter(items, keep)[k] in fs && Describe(fs, root, Filter(items, keep)[k]) == Ok(r.value[k])
    ensures r.Err? ==>
      exists i :: 0 <= i < |items| && keep(items[i]) && Describe(fs, root, items[i]) == Err(r.error)
        && forall j :: 0 <= j < i && keep(items[j]) ==> Describe(fs, root, items[j]).Ok?
  {
    var entries: seq<EntryInfo> := [];
    ghost var kept: seq<Path> := [];
    var i := 0;
    while i < |items|
      invariant 0 <= i <= |items|
      invariant kept == Filter(items[..i], keep)
      invariant |entries| == |kept|
      invariant forall k :: 0 <= k < |entries| ==>
        kept[k] in fs && Describe(fs, root, kept[k]) == Ok(entries[k])
      invariant forall j :: 0 <= j < i && keep(items[j]) ==> Describe(fs, root, items[j]).Ok?
    {
      var item := items[i];
      FilterSnoc(items, keep, i);
      if keep(item) {
        var info := Describe(fs, root, item);
        if info.Err? {
          FirstFailure(fs, root, items, keep, i, info.error);
          return Err(info.error);
        }
        DescribedSnoc(fs, root, kept, entries, item, info.value);
        entries := entries + [info.value];
        kept := kept + [item];
      }
      DescribedPrefix(fs, root, items, keep, i);
      i := i + 1;
    }
    assert items[..|items|] == items;
    return Ok(entries);
  }

  /** The admitted items before `i + 1` are described when those before `i` are and
      item `i` is. */
  lemma DescribedPrefix(fs: FsMap, root: Path, items: seq<Path>, keep: Path -> bool, i: nat)
    requires forall p :: p in items ==> p in fs
    requires i < |items|
    requires forall j :: 0 <= j < i && keep(items[j]) ==> Describe(fs, root, items[j]).Ok?
    requires keep(items[i]) ==> Describe(fs, root, items[i]).Ok?
    ensures forall j :: 0 <= j < i + 1 && keep(items[j]) ==> Describe(fs, root, items[j]).Ok?
  {
  }

  /** An admitted item that cannot be described, with every admitted item before it
      described, is the failure the loop reports. */
  lemma FirstFailure(fs: FsMap, root: Path, items: seq<Path>, keep: Path -> bool, i: nat,
                     e: Raised)
    requires forall p :: p in items ==> p in fs
    requires i < |items| && keep(items[i]) && Describe(fs, root, items[i]) == Err(e)
    requires forall j :: 0 <= j < i && keep(items[j]) ==> Describe(fs, root, items[j]).Ok?
    ensures exists i :: 0 <= i < |items| && keep(items[i]) && Describe(fs, root, items[i]) == Err(e)
                        && forall j :: 0 <= j < i && keep(items[j]) ==> Describe(fs, root, items[j]).Ok?
  {
  }

  /** One more described item extends the pairing of items and entries. */
  lemma DescribedSnoc(fs: FsMap, root: Path, kept: seq<Path>, es: seq<EntryInfo>, p: Path,
                      e: EntryInfo)
    requires |es| == |kept| && p in fs && Describe(fs, root, p) == Ok(e)
    requires forall k :: 0 <= k < |es| ==> kept[k] in fs && Describe(fs, root, kept[k]) == Ok(es[k])
    ensures var kept', es' := kept + [p], es + [e];
      |es'| == |kept'|
      && forall k :: 0 <= k < |es'| ==> kept'[k] in fs && Describe(fs, root, kept'[k]) == Ok(es'[k])
  {
  }

  /** What the shared loop's result says about the entries, read item by item: each
      entry names an admitted item, every admitted item has an entry, and entries keep
      the items' order. */
  lemma DescribedItems(fs: FsMap, root: Path, items: seq<Path>, keep: Path -> bool,
                       es: seq<EntryInfo>)
    requires |es| == |Filter(items, keep)|
    requires forall k :: 0 <= k < |es| ==>
      Filter(items, keep)[k] in fs && Describe(fs, root, Filter(items, keep)[k]) == Ok(es[k])
    ensures forall k :: 0 <= k < |es| ==>
      var p := root + es[k].path;
      p in items && keep(p) && p in fs && es[k].name == Name(p) && es[k].isDir == fs[p].Dir?
      && Describe(fs, root, p) == Ok(es[k])
    ensures forall p :: p in items && keep(p) ==> exists k :: 0 <= k < |es| && root + es[k].path == p
    ensures forall k, l :: 0 <= k < l < |es| ==>
      Precedes(items, root + es[k].path, root + es[l].path)
  {
    DescribedEach(fs, root, items, keep, es);
    DescribedAll(fs, root, items, keep, es);
    DescribedInOrder(fs, root, items, keep, es);
  }

  lemma DescribedEach(fs: FsMap, root: Path, items: seq<Path>, keep: Path -> bool,
                      es: seq<EntryInfo>)
    requires |es| == |Filter(items, keep)|
    requires forall k :: 0 <= k < |es| ==>
      Filter(items, keep)[k] in fs && Describe(fs, root, Filter(items, keep)[k]) == Ok(es[k])
    ensures forall k :: 0 <= k < |es| ==>
      var p := root + es[k].path;
      p in items && keep(p) && p in fs && es[k].name == Name(p) && es[k].isDir == fs[p].Dir?
      && Describe(fs, root, p) == Ok(es[k])
  {
    var shown := Filter(items, keep);
    forall k | 0 <= k < |es|
      ensures root + es[k].path in items && keep(root + es[k].path)
      ensures root + es[k].path == shown[k]
    {
      assert shown[k] in shown;
      FilterMembers(items, keep, shown[k]);
    }
  }

  lemma DescribedAll(fs: FsMap, root: Path, items: seq<Path>, keep: Path -> bool,
                     es: seq<EntryInfo>)
    requires |es| == |Filter(items, keep)|
    requires forall k :: 0 <= k < |es| ==>
      Filter(items, keep)[k] in fs && Describe(fs, root, Filter(items, keep)[k]) == Ok(es[k])
    ensures forall p :: p in items && keep(p) ==> exists k :: 0 <= k < |es| && root + es[k].path == p
  {
    var shown := Filter(items, keep);
    forall p | p in items && keep(p)
      ensures exists k :: 0 <= k < |es| && root + es[k].path == p
    {
      FilterMembers(items, keep, p);
      var k :| 0 <= k < |shown| && shown[k] == p;
      assert root + es[k].path == p;
    }
  }

  lemma DescribedInOrder(fs: FsMap, root: Path, items: seq<Path>, keep: Path -> bool,
                         es: seq<EntryInfo>)
    requires |es| == |Filter(items, keep)|
    requires forall k :: 0 <= k < |es| ==>
      Filter(items, keep)[k] in fs && Describe(fs, root, Filter(items, keep)[k]) == Ok(es[k])
    ensures forall k, l :: 0 <= k < l < |es| ==>
      Precedes(items, root + es[k].path, root + es[l].path)
  {
    forall k, l | 0 <= k < l < |es|
      ensures Precedes(items, root + es[k].path, root + es[l].path)
    {
      var shown := Filter(items, keep);
      FilterPairs(items, keep, k, l);
      assert root + es[k].path == shown[k] && root + es[l].path == shown[l];
    }
  }

  /** `es` is a faithful listing of `dir`: each entry is the descriptor of a reported
      child (its name, kind and size), every reported child has an entry, no child twice,
      in the order of the key `(is_file, lowercase name)` of the children themselves. */
  predicate ListingOf(fs: FsMap, root: Path, dir: Path, showHidden: bool, es: seq<EntryInfo>)
  {
    && (forall i :: 0 <= i < |es| ==>
          var p := root + es[i].path;
          p in Children(fs, dir) && Listed(showHidden, p)
          && es[i].name == Name(p) && es[i].isDir == fs[p].Dir?
          && Describe(fs, root, p) == Ok(es[i]))
    && (forall c :: c in Children(fs, dir) && Listed(showHidden, c) ==>
          exists i :: 0 <= i < |es| && root + es[i].path == c)
    && (forall i, j :: 0 <= i < j < |es| ==> es[i].path != es[j].path)
    && (forall i, j :: 0 <= i < j < |es| ==>
          !KeyLess(KeyOf(fs, root + es[j].path), KeyOf(fs, root + es[i].path)))
  }

  /** `c` is a reported child that could not be described, and every reported child whose
      key sorts strictly before it was described: the first failure of the sorted loop. */
  predicate FirstListingFailure(fs: FsMap, root: Path, dir: Path, showHidden: bool, c: Path, e: Raised)
  {
    && c in Children(fs, dir) && Listed(showHidden, c) && Describe(fs, root, c) == Err(e)
    && forall q :: q in Children(fs, dir) && Listed(showHidden, q) && KeyLess(KeyOf(fs, q), KeyOf(fs, c))
         ==> Describe(fs, root, q).Ok?
  }

  /** The body of `fs_list_directory` once the directory is known: list it (which raises
      PermissionError for a directory in `locked`), sort the children by key, skip hidden
      ones unless asked, describe the rest. */
  method ListEntries(fs: FsMap, root: Path, locked: set<Path>, target: Path, showHidden: bool)
    returns (r: Result<seq<EntryInfo>, Raised>)
    requires WellFormed(fs)
    ensures target in locked ==> r == Err(PermissionDenied(Render(target)))
    ensures r.Ok? ==> ListingOf(fs, root, target, showHidden, r.value)
    ensures r.Err? && target !in locked ==> !Under(root, target)
    ensures r.Err? && target !in locked ==>
      exists c :: FirstListingFailure(fs, root, target, showHidden, c, r.error)
  {
    if target in locked {
      return Err(PermissionDenied(Render(target)));
    }
    var kids := Children(fs, target);
    var key := p => KeyOf(fs, p);
    var order := SortByKey(kids, key);
    var keep := p => Listed(showHidden, p);
    var described := DescribeEach(fs, root, order, keep);
    if described.Err? {
      ListingFailure(fs, root, target, showHidden, order, keep, described.error);
      return Err(described.error);
    }
    ListingFromOrder(fs, root, target, showHidden, order, keep, described.value);
    return Ok(described.value);
  }

  /** When the loop over the sorted children fails, the directory lies outside the root
      and the failing child is the first failure in key order. */
  lemma ListingFailure(fs: FsMap, root: Path, dir: Path, showHidden: bool, order: seq<Path>,
                       keep: Path -> bool, e: Raised)
    requires forall p :: keep(p) == Listed(showHidden, p)
    requires forall p :: p in order <==> p in Children(fs, dir)
    requires forall p :: p in order ==> p in fs
    requires forall a, b :: 0 <= a < b < |order| ==> !KeyLess(KeyOf(fs, order[b]), KeyOf(fs, order[a]))
    requires exists i :: 0 <= i < |order| && keep(order[i]) && Describe(fs, root, order[i]) == Err(e)
                         && forall j :: 0 <= j < i && keep(order[j]) ==> Describe(fs, root, order[j]).Ok?
    ensures !Under(root, dir)
    ensures exists c :: FirstListingFailure(fs, root, dir, showHidden, c, e)
  {
    var i :| 0 <= i < |order| && keep(order[i]) && Describe(fs, root, order[i]) == Err(e)
      && forall j :: 0 <= j < i && keep(order[j]) ==> Describe(fs, root, order[j]).Ok?;
    assert order[i] in Children(fs, dir);
    ChildUnder(root, dir, order[i]);
    FirstInKeyOrder(fs, root, dir, showHidden, order, i, e);
  }

  /** The first failure in a loop over the children sorted by key is the first failure
      in key order. */
  lemma FirstInKeyOrder(fs: FsMap, root: Path, dir: Path, showHidden: bool, order: seq<Path>,
                        i: nat, e: Raised)
    requires forall p :: p in order <==> p in Children(fs, dir)
    requires forall p :: p in order ==> p in fs
    requires forall a, b :: 0 <= a < b < |order| ==> !KeyLess(KeyOf(fs, order[b]), KeyOf(fs, order[a]))
    requires i < |order| && Listed(showHidden, order[i])
    requires Describe(fs, root, order[i]) == Err(e)
    requires forall j :: 0 <= j < i && Listed(showHidden, order[j]) ==> Describe(fs, root, order[j]).Ok?
    ensures FirstListingFailure(fs, root, dir, showHidden, order[i], e)
  {
    var c := order[i];
    forall q | q in Children(fs, dir) && Listed(showHidden, q) && KeyLess(KeyOf(fs, q), KeyOf(fs, c))
      ensures Describe(fs, root, q).Ok?
    {
      var a :| 0 <= a < |order| && order[a] == q;
      KeyLessIrreflexive(KeyOf(fs, c));
      assert a < i;
    }
  }

  /** Describing the admitted children, taken in sorted order, gives a faithful listing. */
  lemma ListingFromOrder(fs: FsMap, root: Path, dir: Path, showHidden: bool, order: seq<Path>,
                         keep: Path -> bool, es: seq<EntryInfo>)
    requires forall p :: keep(p) == Listed(showHidden, p)
    requires forall p :: p in order <==> p in Children(fs, dir)
    requires |es| == |Filter(order, keep)|
    requires forall k :: 0 <= k < |es| ==>
      Filter(order, keep)[k] in fs && Describe(fs, root, Filter(order, keep)[k]) == Ok(es[k])
    requires forall i, j :: 0 <= i < j < |order| ==> order[i] != order[j]
    requires forall i, j :: 0 <= i < j < |order| ==> !KeyLess(KeyOf(fs, order[j]), KeyOf(fs, order[i]))
    ensures ListingOf(fs, root, dir, showHidden, es)
  {
    ListedChildren(fs, root, dir, showHidden, order, keep, es);
    ListingComplete(fs, root, dir, showHidden, order, keep, es);
    ListingOrdered(fs, root, dir, showHidden, order, keep, es);
  }

  lemma ListedChildren(fs: FsMap, root: Path, dir: Path, showHidden: bool, order: seq<Path>,
                         keep: Path -> bool, es: seq<EntryInfo>)
    requires forall p :: keep(p) == Listed(showHidden, p)
    requires forall p :: p in order <==> p in Children(fs, dir)
    requires |es| == |Filter(order, keep)|
    requires forall k :: 0 <= k < |es| ==>
      Filter(order, keep)[k] in fs && Describe(fs, root, Filter(order, keep)[k]) == Ok(es[k])
    ensures forall i :: 0 <= i < |es| ==>
      var p := root + es[i].path;
      p in Children(fs, dir) && Listed(showHidden, p)
      && es[i].name == Name(p) && es[i].isDir == fs[p].Dir?
      && Describe(fs, root, p) == Ok(es[i])
  {
    DescribedItems(fs, root, order, keep, es);
  }

  lemma ListingComplete(fs: FsMap, root: Path, dir: Path, showHidden: bool, order: seq<Path>,
                         keep: Path -> bool, es: seq<EntryInfo>)
    requires forall p :: keep(p) == Listed(showHidden, p)
    requires forall p :: p in order <==> p in Children(fs, dir)
    requires |es| == |Filter(order, keep)|
    requires forall k :: 0 <= k < |es| ==>
      Filter(order, keep)[k] in fs && Describe(fs, root, Filter(order, keep)[k]) == Ok(es[k])
    ensures forall c :: c in Children(fs, dir) && Listed(showHidden, c) ==>
          exists i :: 0 <= i < |es| && root + es[i].path == c
  {
    DescribedItems(fs, root, order, keep, es);
    forall c | c in Children(fs, dir) && Listed(showHidden, c)
      ensures exists k :: 0 <= k < |es| && root + es[k].path == c
    {
      assert c in order && keep(c);
    }
  }

  lemma ListingOrdered(fs: FsMap, root: Path, dir: Path, showHidden: bool, order: seq<Path>,
                         keep: Path -> bool, es: seq<EntryInfo>)
    requires forall p :: keep(p) == Listed(showHidden, p)
    requires forall p :: p in order <==> p in Children(fs, dir)
    requires |es| == |Filter(order, keep)|
    requires forall k :: 0 <= k < |es| ==>
      Filter(order, keep)[k] in fs && Describe(fs, root, Filter(order, keep)[k]) == Ok(es[k])
    requires forall i, j :: 0 <= i < j < |order| ==> order[i] != order[j]
    requires forall i, j :: 0 <= i < j < |order| ==> !KeyLess(KeyOf(fs, order[j]), KeyOf(fs, order[i]))
    ensures forall i, j :: 0 <= i < j < |es| ==> es[i].path != es[j].path
    ensures forall i, j :: 0 <= i < j < |es| ==>
      !KeyLess(KeyOf(fs, root + es[j].path), KeyOf(fs, root + es[i].path))
  {
    DescribedInOrder(fs, root, order, keep, es);
    forall k, l | 0 <= k < l < |es|
      ensures es[k].path != es[l].path
      ensures !KeyLess(KeyOf(fs, root + es[l].path), KeyOf(fs, root + es[k].path))
    {
      var a, b :| 0 <= a < b < |order| && order[a] == root + es[k].path
                                        && order[b] == root + es[l].path;
    }
  }

  /** The JSON object `fs_list_directory` returns. */
  datatype DirListing = DirListing(directory: string, count: nat, entries: seq<EntryInfo>)

  /** `fs_list_directory`. The target must be a directory that can be listed; hidden
      names are dropped unless asked for; describing an entry outside the root fails. */
  method ListDirectory(fs: FsMap, root: Path, locked: set<Path>, raw: string, showHidden: bool)
    returns (r: Result<DirListing, ToolError>)
    requires IsNormal(root) && WellFormed(fs)
    ensures SafePath(root, raw).Err? ==> r == Err(Caught(SafePath(root, raw).error))
    ensures SafePath(root, raw).Ok? && !IsDir(fs, SafePath(root, raw).value) ==>
      r == Err(NotADirectoryPath(raw))
    ensures SafePath(root, raw).Ok? && IsDir(fs, SafePath(root, raw).value)
            && SafePath(root, raw).value in locked ==>
      r == Err(Caught(PermissionDenied(Render(SafePath(root, raw).value))))
    ensures r.Err? && SafePath(root, raw).Ok? && IsDir(fs, SafePath(root, raw).value)
            && SafePath(root, raw).value !in locked ==>
      && !Under(root, SafePath(root, raw).value)
      && exists c, e :: FirstListingFailure(fs, root, SafePath(root, raw).value, showHidden, c, e)
                        && r.error == Caught(e)
    ensures r.Ok? ==>
      && SafePath(root, raw).Ok? && IsDir(fs, SafePath(root, raw).value)
      && r.value.directory == Display(raw)
      && r.value.count == |r.value.entries|
      && ListingOf(fs, root, SafePath(root, raw).value, showHidden, r.value.entries)
    ensures r.Ok? && !showHidden ==>
      forall i :: 0 <= i < |r.value.entries| ==> !StartsWith(r.value.entries[i].name, ".")
  {
    var resolved := SafePath(root, raw);
    if resolved.Err? {
      return Err(Caught(resolved.error));
    }
    var target := resolved.value;
    if !IsDir(fs, target) {
      return Err(NotADirectoryPath(raw));
    }
    var entries := ListEntries(fs, root, locked, target, showHidden);
    if entries.Err? {
      return Err(Caught(entries.error));
    }
    r := Ok(DirListing(Display(raw), |entries.value|, entries.value));
  }

  // ---- fs_search_files ----

  /** `p` lies below `dir`: anywhere for `rglob`, directly inside for `glob`. */
  predicate Below(dir: Path, p: Path, recursive: bool)
  {
    Under(dir, p) && |p| > |dir| && (recursive || |p| == |dir| + 1)
  }

  /** The walk from `dir` reaches `p`: no directory from `dir` down to the parent of `p`
      is in `locked`, the directories whose listing raises PermissionError. */
  predicate Reached(locked: set<Path>, dir: Path, p: Path)
  {
    forall k :: |dir| <= k < |p| ==> p[..k] !in locked
  }

  /** What `glob` / `rglob` yield for a name pattern they can build a selector for (see
      `GlobRaises`): the entries below `dir` whose name matches, directories included.
      A directory that cannot be listed is skipped silently, together with everything
      below it. */
  function Walk(fs: FsMap, locked: set<Path>, dir: Path, pattern: string, recursive: bool)
    : (r: set<Path>)
    ensures dir in locked ==> r == {}
    ensures !recursive && dir !in locked ==>
      r == set c | c in Children(fs, dir) && Match(pattern, Name(c))
  {
    set p | p in fs && Below(dir, p, recursive) && Reached(locked, dir, p) && Match(pattern, Name(p))
  }

  /** Nothing below a directory that cannot be listed is walked. */
  lemma WalkPrunes(fs: FsMap, locked: set<Path>, dir: Path, pattern: string, recursive: bool,
                   a: Path, p: Path)
    requires a in locked && Under(dir, a) && Under(a, p) && |a| < |p|
    ensures p !in Walk(fs, locked, dir, pattern, recursive)
  {
    assert p[..|a|] == a;
  }

  /** `glob` drops "." parts when it parses a pattern, so the pattern "." leaves no part,
      and building the selector then indexes the empty tuple of parts. `rglob` puts "**"
      in front of the parts, so it never fails this way. */
  predicate GlobRaises(pattern: string, recursive: bool)
  {
    !recursive && pattern == "."
  }

  /** The exception `glob(".")` raises. */
  const NoPatternPart: Raised := Other("IndexError", "tuple index out of range")

  /** A pattern that is not blank after stripping. */
  predicate NotBlank(s: string)
  {
    exists i :: 0 <= i < |s| && !IsSpace(s[i])
  }

  /** The JSON object `fs_search_files` returns. */
  datatype SearchReport = SearchReport(pattern: string, directory: string, recursive: bool,
                                       count: nat, matches: seq<EntryInfo>)

  /** A file the name search reports: a regular file below `dir` that the walk reaches and
      whose name matches. */
  predicate Found(fs: FsMap, locked: set<Path>, dir: Path, pattern: string, recursive: bool, p: Path)
  {
    IsFile(fs, p) && Below(dir, p, recursive) && Reached(locked, dir, p) && Match(pattern, Name(p))
  }

  /** `ms` describes exactly the files the walk reaches below `dir` whose names match
      (each by its own name, kind and size), in ascending path order. */
  ghost predicate SearchOf(fs: FsMap, root: Path, locked: set<Path>, dir: Path, pattern: string,
                           recursive: bool, ms: seq<EntryInfo>)
  {
    && (forall i :: 0 <= i < |ms| ==>
          var p := root + ms[i].path;
          Found(fs, locked, dir, pattern, recursive, p) && !ms[i].isDir
          && ms[i].name == Name(p) && Describe(fs, root, p) == Ok(ms[i]))
    && (forall p :: Found(fs, locked, dir, pattern, recursive, p) ==>
          exists i :: 0 <= i < |ms| && root + ms[i].path == p)
    && (forall i, j :: 0 <= i < j < |ms| ==> PathLess(root + ms[i].path, root + ms[j].path))
  }

  /** Each described file is a matching file, in the walk's ascending order. */
  lemma SearchSound(fs: FsMap, root: Path, locked: set<Path>, dir: Path, pattern: string,
                    recursive: bool, order: seq<Path>, keep: Path -> bool, ms: seq<EntryInfo>)
    requires forall p :: keep(p) == IsFile(fs, p)
    requires Ascending(order)
    requires forall p :: p in order <==> p in Walk(fs, locked, dir, pattern, recursive)
    requires |ms| == |Filter(order, keep)|
    requires forall k :: 0 <= k < |ms| ==>
      Filter(order, keep)[k] in fs && Describe(fs, root, Filter(order, keep)[k]) == Ok(ms[k])
    ensures forall i :: 0 <= i < |ms| ==>
      var p := root + ms[i].path;
      Found(fs, locked, dir, pattern, recursive, p) && !ms[i].isDir
      && ms[i].name == Name(p) && Describe(fs, root, p) == Ok(ms[i])
    ensures forall i, j :: 0 <= i < j < |ms| ==> PathLess(root + ms[i].path, root + ms[j].path)
  {
    DescribedItems(fs, root, order, keep, ms);
  }

  /** Every matching file is described. */
  lemma SearchComplete(fs: FsMap, root: Path, locked: set<Path>, dir: Path, pattern: string,
                       recursive: bool, order: seq<Path>, keep: Path -> bool, ms: seq<EntryInfo>)
    requires forall p :: keep(p) == IsFile(fs, p)
    requires forall p :: p in order <==> p in Walk(fs, locked, dir, pattern, recursive)
    requires |ms| == |Filter(order, keep)|
    requires forall k :: 0 <= k < |ms| ==>
      Filter(order, keep)[k] in fs && Describe(fs, root, Filter(order, keep)[k]) == Ok(ms[k])
    ensures forall p :: Found(fs, locked, dir, pattern, recursive, p) ==>
      exists i :: 0 <= i < |ms| && root + ms[i].path == p
  {
    DescribedItems(fs, root, order, keep, ms);
    forall p | Found(fs, locked, dir, pattern, recursive, p)
      ensures exists k :: 0 <= k < |ms| && root + ms[k].path == p
    {
      assert p in Walk(fs, locked, dir, pattern, recursive);
      assert p in order && keep(p);
    }
  }

  /** `p` is a reported file that could not be described, and every reported file before
      it in path order was described: the first failure of the sorted loop. */
  ghost predicate FirstSearchFailure(fs: FsMap, root: Path, locked: set<Path>, dir: Path,
                                     pattern: string, recursive: bool, p: Path, e: Raised)
  {
    && Found(fs, locked, dir, pattern, recursive, p) && Describe(fs, root, p) == Err(e)
    && forall q :: Found(fs, locked, dir, pattern, recursive, q) && PathLess(q, p) ==>
         Describe(fs, root, q).Ok?
  }

  /** When the loop over the sorted walk fails, the directory lies outside the root and
      the failing file is the first failure in path order. */
  lemma SearchFailure(fs: FsMap, root: Path, locked: set<Path>, dir: Path, pattern: string,
                      recursive: bool, order: seq<Path>, keep: Path -> bool, e: Raised)
    requires forall p :: keep(p) == IsFile(fs, p)
    requires Ascending(order)
    requires forall p :: p in order <==> p in Walk(fs, locked, dir, pattern, recursive)
    requires exists i :: 0 <= i < |order| && keep(order[i]) && order[i] in fs
                         && Describe(fs, root, order[i]) == Err(e)
                         && forall j :: 0 <= j < i && keep(order[j]) ==>
                              order[j] in fs && Describe(fs, root, order[j]).Ok?
    ensures !Under(root, dir)
    ensures exists p :: FirstSearchFailure(fs, root, locked, dir, pattern, recursive, p, e)
  {
    var i :| 0 <= i < |order| && keep(order[i]) && order[i] in fs
             && Describe(fs, root, order[i]) == Err(e)
             && forall j :: 0 <= j < i && keep(order[j]) ==>
                  order[j] in fs && Describe(fs, root, order[j]).Ok?;
    var p := order[i];
    assert p in Walk(fs, locked, dir, pattern, recursive);
    UnderTransitive(root, dir, p);
    forall q | Found(fs, locked, dir, pattern, recursive, q) && PathLess(q, p)
      ensures Describe(fs, root, q).Ok?
    {
      assert q in Walk(fs, locked, dir, pattern, recursive);
      var a :| 0 <= a < |order| && order[a] == q;
      PathLessIrreflexive(p);
      if a > i {
        PathLessTransitive(p, q, p);
      }
      assert a < i;
    }
    assert FirstSearchFailure(fs, root, locked, dir, pattern, recursive, p, e);
  }

  /** The body of `fs_search_files` once the directory is known: build the selector, walk,
      sort, keep the files, describe them. */
  method SearchEntries(fs: FsMap, root: Path, locked: set<Path>, dir: Path, pattern: string,
                       recursive: bool)
    returns (r: Result<seq<EntryInfo>, Raised>)
    requires WellFormed(fs)
    ensures GlobRaises(pattern, recursive) ==> r == Err(NoPatternPart)
    ensures r.Ok? ==> SearchOf(fs, root, locked, dir, pattern, recursive, r.value)
    ensures r.Err? && !GlobRaises(pattern, recursive) ==> !Under(root, dir)
    ensures r.Err? && !GlobRaises(pattern, recursive) ==>
      exists p :: FirstSearchFailure(fs, root, locked, dir, pattern, recursive, p, r.error)
    ensures dir in locked && !GlobRaises(pattern, recursive) ==> r == Ok([])
  {
    if GlobRaises(pattern, recursive) {
      return Err(NoPatternPart);
    }
    var found := Walk(fs, locked, dir, pattern, recursive);
    var order := SortPaths(found);
    var keep := p => IsFile(fs, p);
    var described := DescribeEach(fs, root, order, keep);
    if described.Err? {
      SearchFailure(fs, root, locked, dir, pattern, recursive, order, keep, described.error);
      return Err(described.error);
    }
    SearchSound(fs, root, locked, dir, pattern, recursive, order, keep, described.value);
    SearchComplete(fs, root, locked, dir, pattern, recursive, order, keep, described.value);
    return Ok(described.value);
  }

  /** `fs_search_files`: the files (never directories) whose names match, in ascending
      path order; describing a file outside the root fails, and so does `glob(".")`. */
  method SearchFiles(fs: FsMap, root: Path, locked: set<Path>, pattern: string, rawDir: string,
                     recursive: bool)
    returns (r: Result<SearchReport, ToolError>)
    requires IsNormal(root) && WellFormed(fs)
    requires NotBlank(pattern)
    ensures SafePath(root, rawDir).Err? ==> r == Err(Caught(SafePath(root, rawDir).error))
    ensures SafePath(root, rawDir).Ok? && !IsDir(fs, SafePath(root, rawDir).value) ==>
      r == Err(NotADirectoryPath(rawDir))
    ensures SafePath(root, rawDir).Ok? && IsDir(fs, SafePath(root, rawDir).value)
            && GlobRaises(pattern, recursive) ==>
      r == Err(Caught(NoPatternPart))
    ensures r.Err? && SafePath(root, rawDir).Ok? && IsDir(fs, SafePath(root, rawDir).value)
            && !GlobRaises(pattern, recursive) ==>
      && !Under(root, SafePath(root, rawDir).value)
      && exists p, e :: FirstSearchFailure(fs, root, locked, SafePath(root, rawDir).value, pattern,
                                           recursive, p, e)
                        && r.error == Caught(e)
    ensures SafePath(root, rawDir).Ok? && IsDir(fs, SafePath(root, rawDir).value)
            && SafePath(root, rawDir).value in locked && !GlobRaises(pattern, recursive) ==>
      r.Ok? && r.value.count == 0 && r.value.matches == []
    ensures r.Ok? ==>
      && SafePath(root, rawDir).Ok? && IsDir(fs, SafePath(root, rawDir).value)
      && r.value.count == |r.value.matches|
      && r.value.pattern == pattern && r.value.directory == rawDir && r.value.recursive == recursive
      && SearchOf(fs, root, locked, SafePath(root, rawDir).value, pattern, recursive, r.value.matches)
  {
    var resolved := SafePath(root, rawDir);
    if resolved.Err? {
      return Err(Caught(resolved.error));
    }
    var dir := resolved.value;
    if !IsDir(fs, dir) {
      return Err(NotADirectoryPath(rawDir));
    }
    var matches := SearchEntries(fs, root, locked, dir, pattern, recursive);
    if matches.Err? {
      return Err(Caught(matches.error));
    }
    r := Ok(SearchReport(pattern, rawDir, recursive, |matches.value|, matches.value));
  }
}
