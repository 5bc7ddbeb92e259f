/** The orders `sorted` uses: strings by code point, paths name by name (how pathlib
    compares two absolute paths), and the listing key `(is_file, lowercase name)`. */
module Order {
  import opened Paths

  /** `a < b` on strings. */
  predicate StrLess(a: string, b: string)
  {
    if a == [] then b != []
    else if b == [] then false
    else a[0] < b[0] || (a[0] == b[0] && StrLess(a[1..], b[1..]))
  }

  /** `p < q` on absolute paths: lexicographic over the names. */
  predicate PathLess(p: Path, q: Path)
  {
    if p == [] then q != []
    else if q == [] then false
    else StrLess(p[0], q[0]) || (p[0] == q[0] && PathLess(p[1..], q[1..]))
  }

  lemma {:induction false} StrLessIrreflexive(a: string)
    ensures !StrLess(a, a)
  {
    if a != [] { StrLessIrreflexive(a[1..]); }
  }

  lemma {:induction false} StrLessTransitive(a: string, b: string, c: string)
    requires StrLess(a, b) && StrLess(b, c)
    ensures StrLess(a, c)
  {
    if a != [] && b != [] && c != [] && a[0] == b[0] == c[0] {
      StrLessTransitive(a[1..], b[1..], c[1..]);
    }
  }

  lemma {:induction false} StrLessTotal(a: string, b: string)
    ensures a == b || StrLess(a, b) || StrLess(b, a)
  {
    if a != [] && b != [] && a[0] == b[0] {
      StrLessTotal(a[1..], b[1..]);
      assert a == [a[0]] + a[1..] && b == [b[0]] + b[1..];
    }
  }

  lemma {:induction false} PathLessIrreflexive(p: Path)
    ensures !PathLess(p, p)
  {
    if p != [] {
      StrLessIrreflexive(p[0]);
      PathLessIrreflexive(p[1..]);
    }
  }

  lemma {:induction false} PathLessTransitive(p: Path, q: Path, r: Path)
    requires PathLess(p, q) && PathLess(q, r)
    ensures PathLess(p, r)
  {
    if p != [] && q != [] && r != [] {
      if StrLess(p[0], q[0]) && StrLess(q[0], r[0]) {
        StrLessTransitive(p[0], q[0], r[0]);
      } else if p[0] == q[0] == r[0] {
        PathLessTransitive(p[1..], q[1..], r[1..]);
      }
    }
  }

  lemma {:induction false} PathLessTotal(p: Path, q: Path)
    ensures p == q || PathLess(p, q) || PathLess(q, p)
  {
    if p != [] && q != [] {
      StrLessTotal(p[0], q[0]);
      if p[0] == q[0] {
        PathLessTotal(p[1..], q[1..]);
        assert p == [p[0]] + p[1..] && q == [q[0]] + q[1..];
      }
    }
  }

  /** Strictly ascending, hence also free of repetitions. */
  predicate Ascending(s: seq<Path>)
  {
    forall i, j :: 0 <= i < j < |s| ==> PathLess(s[i], s[j])
  }

  /** A finite non-empty set of paths has a least element. */
  lemma {:induction false} LeastExists(s: set<Path>)
    requires s != {}
    ensures exists m :: m in s && forall q :: q in s && q != m ==> PathLess(m, q)
    decreases s
  {
    var x :| x in s;
    var others := s - {x};
    if others == {} {
      assert s == {x};
    } else {
      LeastExists(others);
      var m :| m in others && forall q :: q in others && q != m ==> PathLess(m, q);
      PathLessTotal(x, m);
      if PathLess(x, m) {
        forall q | q in s && q != x ensures PathLess(x, q) {
          if q != m { PathLessTransitive(x, m, q); }
        }
      } else {
        assert forall q :: q in s && q != m ==> PathLess(m, q);
      }
    }
  }

  /** The ascending sequence of a set's paths, as a specification: the least path first,
      then the rest. */
  ghost function Sorted(s: set<Path>): (r: seq<Path>)
    ensures Ascending(r)
    ensures forall p :: p in r <==> p in s
    decreases s
  {
    if s == {} then []
    else
      LeastExists(s);
      var m :| m in s && forall q :: q in s && q != m ==> PathLess(m, q);
      [m] + Sorted(s - {m})
  }

  /** `sorted(paths)`: the paths of the set, each once, in ascending order. */
  method SortPaths(s: set<Path>) returns (r: seq<Path>)
    ensures Ascending(r)
    ensures forall p :: p in r <==> p in s
    ensures r == Sorted(s)
  {
    var rest := s;
    r := [];
    while rest != {}
      invariant rest <= s
      invariant forall p :: p in r ==> p in s && p !in rest
      invariant forall p :: p in s ==> p in r || p in rest
      invariant Ascending(r)
      invariant forall i, q :: 0 <= i < |r| && q in rest ==> PathLess(r[i], q)
      decreases rest
    {
      LeastExists(rest);
      var m :| m in rest && forall q :: q in rest && q != m ==> PathLess(m, q);
      r := r + [m];
      rest := rest - {m};
    }
    AscendingUnique(r, Sorted(s));
  }

  /** Two ascending sequences with the same elements are equal: `sorted` does not depend on
      the order in which the directory walk produced the paths. */
  lemma {:induction false} AscendingUnique(a: seq<Path>, b: seq<Path>)
    requires Ascending(a) && Ascending(b)
    requires forall p :: p in a <==> p in b
    ensures a == b
    decreases |a|
  {
    assert a != [] ==> a[0] in b;
    assert b != [] ==> b[0] in a;
    if a != [] && b != [] {
      assert a[0] == b[0] by {
        assert a[0] in b && b[0] in a;
        if a[0] != b[0] {
          var i :| 0 <= i < |b| && b[i] == a[0];
          var j :| 0 <= j < |a| && a[j] == b[0];
          assert PathLess(b[0], a[0]) && PathLess(a[0], b[0]);
          PathLessTransitive(a[0], b[0], a[0]);
          PathLessIrreflexive(a[0]);
        }
      }
      forall p ensures p in a[1..] <==> p in b[1..] {
        if p in a[1..] {
          var i :| 0 <= i < |a[1..]| && a[1..][i] == p;
          assert a[i + 1] == p && PathLess(a[0], p);
          PathLessIrreflexive(p);
          assert p in a && p in b;
          var k :| 0 <= k < |b| && b[k] == p;
          assert k != 0 && b[1..][k - 1] == p;
        }
        if p in b[1..] {
          var i :| 0 <= i < |b[1..]| && b[1..][i] == p;
          assert b[i + 1] == p && PathLess(b[0], p);
          PathLessIrreflexive(p);
          assert p in b && p in a;
          var k :| 0 <= k < |a| && a[k] == p;
          assert k != 0 && a[1..][k - 1] == p;
        }
      }
      AscendingUnique(a[1..], b[1..]);
      assert a == [a[0]] + a[1..] && b == [b[0]] + b[1..];
    }
  }

  /** The listing key `(p.is_file(), p.name.lower())`. */
  datatype Key = Key(isFile: bool, lowered: string)

  /** Tuple order on keys: directories (and anything else that is not a plain file)
      before files, then by lowercase name. */
  predicate KeyLess(a: Key, b: Key)
  {
    (!a.isFile && b.isFile) || (a.isFile == b.isFile && StrLess(a.lowered, b.lowered))
  }

  lemma KeyLessIrreflexive(a: Key)
    ensures !KeyLess(a, a)
  {
    StrLessIrreflexive(a.lowered);
  }

  lemma KeyLessTransitive(a: Key, b: Key, c: Key)
    requires KeyLess(a, b) && KeyLess(b, c)
    ensures KeyLess(a, c)
  {
    if a.isFile == b.isFile == c.isFile {
      StrLessTransitive(a.lowered, b.lowered, c.lowered);
    }
  }
}
