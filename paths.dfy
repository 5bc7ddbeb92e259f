/** `_safe_path`: joining a caller's path string to the working directory, normalising it
    lexically, and admitting it when the normalised path's string starts with the working
    directory's string. A path is the sequence of its names below "/". */
module Paths {
  import opened Wrappers
  import opened Text
  import opened Errors

  type Path = seq<string>

  /** A name that can stand in a normalised absolute path. */
  predicate IsName(s: string)
  {
    s != "" && '/' !in s && s != "." && s != ".."
  }

  predicate IsNormal(p: Path)
  {
    forall i :: 0 <= i < |p| ==> IsName(p[i])
  }

  predicate IsAbsolute(raw: string)
  {
    |raw| > 0 && raw[0] == '/'
  }

  /** Drops the empty and "." pieces, as pathlib does when it parses a path string. */
  function Keep(pieces: seq<string>): (r: seq<string>)
    ensures forall i :: 0 <= i < |r| ==> r[i] != "" && r[i] != "." && r[i] in pieces
  {
    if pieces == [] then []
    else if pieces[0] == "" || pieces[0] == "." then Keep(pieces[1..])
    else [pieces[0]] + Keep(pieces[1..])
  }

  /** The components pathlib keeps for `raw`; ".." stays, for `resolve` to handle. */
  function Components(raw: string): (r: seq<string>)
    ensures forall i :: 0 <= i < |r| ==> r[i] != "" && r[i] != "." && '/' !in r[i]
  {
    Keep(Split(raw, '/'))
  }

  /** One step of lexical normalisation: ".." climbs one level (and stays at "/"),
      empty and "." components are skipped, any other name descends. */
  function Step(acc: Path, c: string): Path
  {
    if c == ".." then (if acc == [] then [] else acc[..|acc| - 1])
    else if c == "" || c == "." then acc
    else acc + [c]
  }

  /** The path `resolve` arrives at from `acc` after the components `rest`. */
  function Resolve(acc: Path, rest: seq<string>): (r: Path)
    ensures IsNormal(acc) && (forall i :: 0 <= i < |rest| ==> '/' !in rest[i]) ==> IsNormal(r)
    decreases rest
  {
    if rest == [] then acc
    else Resolve(Step(acc, rest[0]), rest[1..])
  }

  /** `(WORK_DIR / raw).resolve()`: an absolute `raw` replaces the working directory. */
  function ResolvePath(root: Path, raw: string): Path
  {
    Resolve([], if IsAbsolute(raw) then Components(raw) else root + Components(raw))
  }

  /** `str(path)` of a name sequence without the leading root: "/a/b" for ["a", "b"]. */
  function RenderNames(p: Path): string
  {
    if p == [] then "" else "/" + p[0] + RenderNames(p[1..])
  }

  /** `str(path)` of an absolute path. */
  function Render(p: Path): string
  {
    if p == [] then "/" else RenderNames(p)
  }

  /** `_safe_path`. `resolve` looks up every name with `lstat`, which raises ValueError
      for a string holding a NUL character; otherwise the check compares characters, not
      names. */
  function SafePath(root: Path, raw: string): (r: Result<Path, Raised>)
    requires IsNormal(root)
    ensures r.Ok? ==> '\0' !in raw && IsNormal(r.value) && StartsWith(Render(r.value), Render(root))
    ensures '\0' in raw ==> r == Err(ValueError(NullByteMessage))
    ensures '\0' !in raw && r.Err? ==> r.error == ValueError(EscapeMessage(root, raw))
  {
    if '\0' in raw then Err(ValueError(NullByteMessage))
    else
      var resolved := ResolvePath(root, raw);
      if StartsWith(Render(resolved), Render(root)) then Ok(resolved)
      else Err(ValueError(EscapeMessage(root, raw)))
  }

  const NullByteMessage: string := "embedded null byte"

  function EscapeMessage(root: Path, raw: string): string
  {
    "Path '" + raw + "' resolves outside the working directory '" + Render(root)
    + "'. Only paths inside the working directory are allowed."
  }

  /** `root` is `p` or one of its ancestors. */
  predicate Under(root: Path, p: Path)
  {
    |root| <= |p| && p[..|root|] == root
  }

  /** Lying under is transitive. */
  lemma UnderTransitive(a: Path, b: Path, c: Path)
    ensures Under(a, b) && Under(b, c) ==> Under(a, c)
  {
    if Under(a, b) && Under(b, c) {
      assert c[..|a|] == b[..|a|];
    }
  }

  /** `p` agrees with `root` except that its name at the root's depth merely starts with
      the root's last name, as "/work2/x" does with the root "/work". */
  predicate Sibling(root: Path, p: Path)
  {
    |root| >= 1 && |root| <= |p| && p[..|root| - 1] == root[..|root| - 1]
    && |root[|root| - 1]| < |p[|root| - 1]|
    && p[|root| - 1][..|root[|root| - 1]|] == root[|root| - 1]
  }

  // ---- rendering ----

  lemma {:induction false} RenderNamesAppend(a: Path, b: Path)
    ensures RenderNames(a + b) == RenderNames(a) + RenderNames(b)
  {
    if a != [] {
      assert (a + b)[0] == a[0] && (a + b)[1..] == a[1..] + b;
      RenderNamesAppend(a[1..], b);
    } else {
      assert a + b == b;
    }
  }

  /** Where the first name and the separator after it stand in a rendering. */
  lemma RenderHead(p: Path)
    requires |p| >= 1
    ensures var s := RenderNames(p);
      |s| >= 1 + |p[0]| && s[0] == '/'
      && (forall k :: 0 <= k < |p[0]| ==> s[1 + k] == p[0][k])
      && (|p| == 1 ==> |s| == 1 + |p[0]|)
      && (|p| > 1 ==> |s| > 1 + |p[0]| && s[1 + |p[0]|] == '/')
  {
    var s := RenderNames(p);
    assert s == "/" + p[0] + RenderNames(p[1..]);
    if |p| > 1 {
      assert RenderNames(p[1..]) == "/" + p[1..][0] + RenderNames(p[1..][1..]);
    }
  }

  /** A rendering that starts with the rendering of `root` belongs to a path under the
      root or to a sibling of it. */
  lemma {:induction false} PrefixShape(root: Path, p: Path)
    requires |root| >= 1 && IsNormal(root) && IsNormal(p)
    requires StartsWith(RenderNames(p), RenderNames(root))
    ensures Under(root, p) || Sibling(root, p)
  {
    HeadsAgree(root, p);
    var a, b := root[0], p[0];
    if |root| == 1 {
      if |b| == |a| {
        assert b == a;
        assert p[..1] == [b];
      } else {
        assert p[..0] == root[..0];
      }
    } else {
      var rs, ps := root[1..], p[1..];
      TailPrefix(root, p);
      assert IsNormal(rs) && IsNormal(ps);
      PrefixShape(rs, ps);
      assert root == [a] + rs && p == [a] + ps;
      if Under(rs, ps) {
        assert p[..|root|] == [a] + ps[..|rs|];
      } else {
        assert p[..|root| - 1] == [a] + ps[..|rs| - 1];
        assert root[..|root| - 1] == [a] + rs[..|rs| - 1];
        assert p[|root| - 1] == ps[|rs| - 1] && root[|root| - 1] == rs[|rs| - 1];
      }
    }
  }

  /** A name holds no separator. */
  lemma NameChars(a: string)
    requires IsName(a)
    ensures forall k :: 0 <= k < |a| ==> a[k] != '/'
  {
    forall k | 0 <= k < |a| ensures a[k] != '/' { assert a[k] in a; }
  }

  /** When one rendering starts another, the first names agree: the longer path's first
      name extends the root's, and equals it when the root goes on. */
  lemma HeadsAgree(root: Path, p: Path)
    requires |root| >= 1 && IsNormal(root) && IsNormal(p)
    requires StartsWith(RenderNames(p), RenderNames(root))
    ensures |p| >= 1 && |p[0]| >= |root[0]| && p[0][..|root[0]|] == root[0]
    ensures |root| > 1 ==> p[0] == root[0]
  {
    var R, P := RenderNames(root), RenderNames(p);
    RenderHead(root);
    assert p != [];
    RenderHead(p);
    var a, b := root[0], p[0];
    assert IsName(a) && IsName(b);
    NameChars(a);
    NameChars(b);
    PrefixChars(P, R);
    assert |b| >= |a|;
    assert b[..|a|] == a by {
      forall k | 0 <= k < |a| ensures b[k] == a[k] {
        assert P[1 + k] == R[1 + k];
      }
    }
    if |root| > 1 {
      assert |b| == |a|;
    }
  }

  /** A prefix agrees with the whole, character by character. */
  lemma PrefixChars(s: string, prefix: string)
    requires StartsWith(s, prefix)
    ensures forall k :: 0 <= k < |prefix| ==> s[k] == prefix[k]
  {
    forall k | 0 <= k < |prefix| ensures s[k] == prefix[k] {
      assert s[..|prefix|][k] == s[k];
    }
  }

  /** With equal first names, the renderings of the rests keep the prefix relation. */
  lemma TailPrefix(root: Path, p: Path)
    requires |root| > 1 && |p| >= 1 && p[0] == root[0]
    requires StartsWith(RenderNames(p), RenderNames(root))
    ensures StartsWith(RenderNames(p[1..]), RenderNames(root[1..]))
  {
    var R, P := RenderNames(root), RenderNames(p);
    var rs, ps := RenderNames(root[1..]), RenderNames(p[1..]);
    var n := 1 + |root[0]|;
    assert R == "/" + root[0] + rs;
    assert P == "/" + root[0] + ps;
    assert rs == R[n..];
    assert |rs| <= |ps|;
    forall k | 0 <= k < |rs| ensures ps[k] == rs[k] {
      assert ps[k] == P[n + k] && rs[k] == R[n + k];
      assert P[..|R|][n + k] == P[n + k];
    }
  }

  /** A path under the root or a sibling of it renders with the root's rendering first. */
  lemma ShapePrefix(root: Path, p: Path)
    requires |root| >= 1
    requires Under(root, p) || Sibling(root, p)
    ensures StartsWith(RenderNames(p), RenderNames(root))
  {
    if Under(root, p) {
      assert p == root + p[|root|..];
      RenderNamesAppend(root, p[|root|..]);
    } else {
      var n := |root| - 1;
      var front := root[..n];
      assert p == front + [p[n]] + p[n + 1..];
      assert root == front + [root[n]];
      RenderNamesAppend(front + [p[n]], p[n + 1..]);
      RenderNamesAppend(front, [p[n]]);
      RenderNamesAppend(front, [root[n]]);
      assert RenderNames([p[n]]) == "/" + p[n];
      assert RenderNames([root[n]]) == "/" + root[n];
      assert p[n] == root[n] + p[n][|root[n]|..];
    }
  }

  /** Resolution yields a normal path. */
  lemma ResolvePathNormal(root: Path, raw: string)
    requires IsNormal(root)
    ensures IsNormal(ResolvePath(root, raw))
  {
    var c := if IsAbsolute(raw) then Components(raw) else root + Components(raw);
    assert forall i :: 0 <= i < |c| ==> '/' !in c[i];
  }

  /** The confinement check, stated on names: `_safe_path` admits exactly the inputs
      without a NUL character that resolve to the root, below it, or to a sibling whose
      name extends the root's last name. */
  lemma AdmitsExactly(root: Path, raw: string)
    requires IsNormal(root)
    ensures var p := ResolvePath(root, raw);
      SafePath(root, raw).Ok? <==> '\0' !in raw && (Under(root, p) || Sibling(root, p))
  {
    var p := ResolvePath(root, raw);
    ResolvePathNormal(root, raw);
    assert SafePath(root, raw).Ok? <==> '\0' !in raw && StartsWith(Render(p), Render(root));
    RenderPrefixExactly(root, p);
  }

  /** The string-prefix test on renderings, stated on names. */
  lemma RenderPrefixExactly(root: Path, p: Path)
    requires IsNormal(root) && IsNormal(p)
    ensures StartsWith(Render(p), Render(root)) <==> Under(root, p) || Sibling(root, p)
  {
    if root == [] {
      assert Render(p)[0] == '/' by {
        if p != [] { RenderHead(p); }
      }
      assert Under(root, p);
    } else if p == [] {
      RenderHead(root);
      assert |Render(root)| > 1;
    } else {
      if StartsWith(Render(p), Render(root)) {
        PrefixShape(root, p);
      }
      if Under(root, p) || Sibling(root, p) {
        ShapePrefix(root, p);
      }
    }
  }

  // ---- normalisation ----

  lemma {:induction false} ResolveAppend(acc: Path, a: seq<string>, b: seq<string>)
    ensures Resolve(acc, a + b) == Resolve(Resolve(acc, a), b)
    decreases a
  {
    if a != [] {
      assert (a + b)[0] == a[0] && (a + b)[1..] == a[1..] + b;
      ResolveAppend(Step(acc, a[0]), a[1..], b);
    } else {
      assert a + b == b;
    }
  }

  /** Normal names only descend. */
  lemma {:induction false} ResolveNormal(acc: Path, p: Path)
    requires IsNormal(p)
    ensures Resolve(acc, p) == acc + p
    decreases p
  {
    if p != [] {
      ResolveNormal(acc + [p[0]], p[1..]);
      assert acc + [p[0]] + p[1..] == acc + p;
    }
  }

  /** A relative path without ".." is admitted and names the path below the root that its
      components spell. */
  lemma RelativeDescendsAdmitted(root: Path, raw: string)
    requires IsNormal(root)
    requires !IsAbsolute(raw) && ".." !in Components(raw) && '\0' !in raw
    ensures SafePath(root, raw) == Ok(root + Components(raw))
  {
    var c := Components(raw);
    assert IsNormal(c) by {
      forall i | 0 <= i < |c| ensures IsName(c[i]) {
        assert c[i] in c;
      }
    }
    ResolveAppend([], root, c);
    ResolveNormal([], root);
    ResolveNormal(root, c);
    assert [] + root == root;
    assert Under(root, root + c) by { assert (root + c)[..|root|] == root; }
    AdmitsExactly(root, raw);
  }

  function Ups(k: nat): seq<string>
  {
    seq(k, _ => "..")
  }

  lemma {:induction false} ResolveUps(acc: Path, k: nat)
    ensures Resolve(acc, Ups(k)) == if k <= |acc| then acc[..|acc| - k] else []
  {
    if k > 0 {
      assert Ups(k)[0] == ".." && Ups(k)[1..] == Ups(k - 1);
      ResolveUps(Step(acc, ".."), k - 1);
    }
  }

  /** Climbing: `k` ".." components ("..", "../..", ...) from a root other than "/" end
      above the root, and `_safe_path` rejects them. */
  lemma ClimbRejected(root: Path, k: nat)
    requires IsNormal(root) && |root| >= 1 && k >= 1
    ensures SafePath(root, Join(Ups(k), '/')).Err?
  {
    var raw := Join(Ups(k), '/');
    assert forall i :: 0 <= i < k ==> Ups(k)[i] == "..";
    SplitJoin(Ups(k), '/');
    KeepUps(k);
    assert Components(raw) == Ups(k);
    assert !IsAbsolute(raw) by {
      JoinHead(Ups(k), '/');
    }
    ResolveAppend([], root, Ups(k));
    ResolveNormal([], root);
    assert [] + root == root;
    ResolveUps(root, k);
    AdmitsExactly(root, raw);
  }

  /** Pieces that are neither empty nor "." are all kept. */
  lemma {:induction false} KeepNames(pieces: seq<string>)
    requires forall i :: 0 <= i < |pieces| ==> pieces[i] != "" && pieces[i] != "."
    ensures Keep(pieces) == pieces
  {
    if pieces != [] {
      KeepNames(pieces[1..]);
      assert pieces == [pieces[0]] + pieces[1..];
    }
  }

  /** Parsing a path string written out from names gives those names back, whether it is
      written relative ("a/b") or absolute ("/a/b"): every name that is not empty or "."
      is kept, in order. */
  lemma ComponentsJoin(names: seq<string>)
    requires forall i :: 0 <= i < |names| ==> names[i] != "" && names[i] != "." && '/' !in names[i]
    ensures Components(Join(names, '/')) == names
    ensures Components("/" + Join(names, '/')) == names
  {
    RelativeJoin(names);
    AbsoluteJoin(names);
  }

  lemma RelativeJoin(names: seq<string>)
    requires forall i :: 0 <= i < |names| ==> names[i] != "" && names[i] != "." && '/' !in names[i]
    ensures Components(Join(names, '/')) == names
  {
    KeepNames(names);
    if names != [] {
      SplitJoin(names, '/');
    }
  }

  lemma AbsoluteJoin(names: seq<string>)
    requires forall i :: 0 <= i < |names| ==> names[i] != "" && names[i] != "." && '/' !in names[i]
    ensures Components("/" + Join(names, '/')) == names
  {
    LeadingSlash(Join(names, '/'));
    RelativeJoin(names);
  }

  /** A leading "/" only adds an empty first piece, which is not kept. */
  lemma LeadingSlash(x: string)
    ensures Components("/" + x) == Components(x)
  {
    var s := "/" + x;
    assert s[0] == '/' && s[1..] == x;
    assert Split(s, '/') == [""] + Split(x, '/');
    assert ([""] + Split(x, '/'))[1..] == Split(x, '/');
  }

  lemma {:induction false} KeepUps(k: nat)
    ensures Keep(Ups(k)) == Ups(k)
  {
    if k > 0 {
      assert Ups(k)[0] == ".." && Ups(k)[1..] == Ups(k - 1);
      KeepUps(k - 1);
      assert Ups(k) == [".."] + Ups(k - 1);
    }
  }

  lemma JoinHead(parts: seq<string>, sep: char)
    requires |parts| >= 1 && |parts[0]| >= 1
    ensures |Join(parts, sep)| >= 1 && Join(parts, sep)[0] == parts[0][0]
  {
  }

  /** The sibling case: extending the root's last name (the root "/work", the path
      "/work2/x") gives a path that is admitted although it is not under the root. */
  lemma SiblingAdmitted(root: Path, ext: string, rest: Path)
    requires IsNormal(root) && |root| >= 1 && IsNormal(rest)
    requires ext != "" && '/' !in ext
    requires var p := root[..|root| - 1] + [root[|root| - 1] + ext] + rest;
      '\0' !in Render(p)
    ensures var p := root[..|root| - 1] + [root[|root| - 1] + ext] + rest;
      SafePath(root, Render(p)) == Ok(p) && !Under(root, p)
  {
    var last := root[|root| - 1];
    var p := root[..|root| - 1] + [last + ext] + rest;
    assert p[|root| - 1] == last + ext;
    assert IsName(last + ext) by {
      assert (last + ext)[..|last|] == last;
    }
    assert IsNormal(p) by {
      forall i | 0 <= i < |p| ensures IsName(p[i]) {
        if i < |root| - 1 {
          assert p[i] == root[i];
        } else if i >= |root| {
          assert p[i] == rest[i - |root|];
        }
      }
    }
    assert Sibling(root, p) by {
      assert p[..|root| - 1] == root[..|root| - 1];
      assert p[|root| - 1][..|last|] == last;
    }
    RenderJoin(p);
    AbsoluteJoin(p);
    AbsoluteAdmitted(root, Render(p));
  }

  /** An absolute input free of ".." and NUL, whose names fall under the root or beside
      it, is admitted as exactly those names. */
  lemma AbsoluteAdmitted(root: Path, raw: string)
    requires IsNormal(root) && '\0' !in raw && IsAbsolute(raw) && IsNormal(Components(raw))
    requires Under(root, Components(raw)) || Sibling(root, Components(raw))
    ensures SafePath(root, raw) == Ok(Components(raw))
  {
    ResolveNormal([], Components(raw));
    assert [] + Components(raw) == Components(raw);
    AdmitsExactly(root, raw);
    SafePathValue(root, raw);
  }

  /** An admitted input names the path it resolves to. */
  lemma SafePathValue(root: Path, raw: string)
    requires IsNormal(root) && SafePath(root, raw).Ok?
    ensures SafePath(root, raw).value == ResolvePath(root, raw)
  {
  }


  /** `path.relative_to(WORK_DIR)`: the names below the root, or failure when the path
      is not under it. */
  function RelativeTo(root: Path, p: Path): (r: Option<Path>)
    ensures r.Some? <==> Under(root, p)
    ensures r.Some? ==> root + r.value == p
  {
    if Under(root, p) then Some(p[|root|..]) else None
  }

  /** The ValueError `relative_to` raises. */
  function NotRelativeMessage(root: Path, p: Path): string
  {
    "'" + Render(p) + "' is not in the subpath of '" + Render(root) + "'"
  }

  /** `str(Path(raw))`: the parsed path, before resolution, written in normal form. It
      parses back to the same names and is absolute exactly when `raw` is. */
  function Display(raw: string): (r: string)
    ensures Components(r) == Components(raw)
    ensures IsAbsolute(r) == IsAbsolute(raw)
  {
    var c := Components(raw);
    ComponentsJoin(c);
    if IsAbsolute(raw) then
      if c == [] then
        assert "/" == "/" + Join(c, '/');
        "/"
      else
        RenderJoin(c);
        RenderNames(c)
    else if c == [] then
      assert "."[1..] == "" && ['.'] + "" == ".";
      assert Split(".", '/') == ["."];
      "."
    else
      assert c[0] in c;
      JoinHead(c, '/');
      Join(c, '/')
  }

  /** The rendering of a non-empty path is "/" followed by its names joined with '/'. */
  lemma {:induction false} RenderJoin(p: Path)
    requires |p| >= 1
    ensures RenderNames(p) == "/" + Join(p, '/')
  {
    if |p| > 1 {
      RenderJoin(p[1..]);
    }
  }

  /** The last name of a path (`path.name`; empty for "/"). */
  function Name(p: Path): string
  {
    if p == [] then "" else p[|p| - 1]
  }

  function Parent(p: Path): Path
  {
    if p == [] then [] else p[..|p| - 1]
  }
}
