/** The string operations the server relies on: str.split, str.join, str.splitlines
    (line breaks restricted to '\n'), str.count, str.lower (ASCII letters), str.rstrip,
    the substring test `in`, str.startswith and the length of the UTF-8 encoding. */
module Text {

  /** `s.split(sep)`: the pieces between the occurrences of `sep`; there is always one more
      piece than there are separators, and no piece contains the separator. */
  function Split(s: string, sep: char): (r: seq<string>)
    ensures |r| == Count(s, sep) + 1
    ensures forall i :: 0 <= i < |r| ==> sep !in r[i]
  {
    if s == [] then [""]
    else
      var rest := Split(s[1..], sep);
      if s[0] == sep then [""] + rest
      else [[s[0]] + rest[0]] + rest[1..]
  }

  /** `sep.join(parts)` */
  function Join(parts: seq<string>, sep: char): string
  {
    if |parts| == 0 then ""
    else if |parts| == 1 then parts[0]
    else parts[0] + [sep] + Join(parts[1..], sep)
  }

  /** `s.count(c)` for a single character. */
  function Count(s: string, c: char): nat
  {
    if s == [] then 0 else (if s[0] == c then 1 else 0) + Count(s[1..], c)
  }

  /** Joining the pieces of a split gives the original string back. */
  lemma {:induction false} JoinSplit(s: string, sep: char)
    ensures Join(Split(s, sep), sep) == s
  {
    if s != [] {
      var rest := Split(s[1..], sep);
      JoinSplit(s[1..], sep);
      if s[0] == sep {
        assert Split(s, sep) == [""] + rest;
        assert ([""] + rest)[1..] == rest;
      } else if |rest| == 1 {
        assert Split(s, sep) == [[s[0]] + rest[0]];
      } else {
        var r := Split(s, sep);
        assert r == [[s[0]] + rest[0]] + rest[1..];
        assert r[1..] == rest[1..];
        assert Join(rest, sep) == rest[0] + [sep] + Join(rest[1..], sep);
        assert s == [s[0]] + s[1..];
      }
    }
  }

  /** Splitting a separator-free prefix onto a string extends the first piece. */
  lemma {:induction false} SplitPrepend(a: string, t: string, sep: char)
    requires sep !in a
    ensures Split(a + t, sep) == [a + Split(t, sep)[0]] + Split(t, sep)[1..]
  {
    if a != [] {
      SplitPrepend(a[1..], t, sep);
      assert (a + t)[1..] == a[1..] + t;
      assert (a + t)[0] == a[0];
      assert [a[0]] + (a[1..] + Split(t, sep)[0]) == a + Split(t, sep)[0];
    } else {
      var r := Split(t, sep);
      assert a + t == t && a + r[0] == r[0];
      assert r == [r[0]] + r[1..];
    }
  }

  /** Splitting a join of separator-free pieces gives the pieces back. */
  lemma {:induction false} SplitJoin(parts: seq<string>, sep: char)
    requires |parts| >= 1
    requires forall i :: 0 <= i < |parts| ==> sep !in parts[i]
    ensures Split(Join(parts, sep), sep) == parts
  {
    if |parts| == 1 {
      SplitPrepend(parts[0], "", sep);
      assert parts[0] + "" == parts[0];
    } else {
      var tail := Join(parts[1..], sep);
      SplitJoin(parts[1..], sep);
      SplitPrepend(parts[0], [sep] + tail, sep);
      assert parts[0] + [sep] + tail == parts[0] + ([sep] + tail);
      assert ([sep] + tail)[1..] == tail;
      assert Split([sep] + tail, sep) == [""] + parts[1..];
      assert parts[0] + "" == parts[0];
      assert parts == [parts[0]] + parts[1..];
    }
  }

  /** A join of the first k pieces is a prefix of the join of all pieces. */
  lemma {:induction false} JoinPrefix(parts: seq<string>, k: nat, sep: char)
    requires k <= |parts|
    ensures StartsWith(Join(parts, sep), Join(parts[..k], sep))
  {
    if k > 0 && |parts| > 1 {
      if k == 1 {
        assert parts[..1] == [parts[0]];
      } else {
        JoinPrefix(parts[1..], k - 1, sep);
        assert parts[..k][1..] == parts[1..][..k - 1];
        var j := Join(parts[1..][..k - 1], sep);
        assert Join(parts[..k], sep) == parts[0] + [sep] + j;
      }
    }
  }

  /** Joining one more piece appends the separator and that piece. */
  lemma {:induction false} JoinSnoc(parts: seq<string>, x: string, sep: char)
    requires |parts| >= 1
    ensures Join(parts + [x], sep) == Join(parts, sep) + [sep] + x
  {
    if |parts| == 1 {
      assert parts + [x] == [parts[0], x];
      assert [parts[0], x][1..] == [x];
    } else {
      JoinSnoc(parts[1..], x, sep);
      assert (parts + [x])[1..] == parts[1..] + [x];
    }
  }

  /** `text.splitlines()` when '\n' is the only line boundary: the pieces between the
      line breaks, without a trailing empty piece after a final line break. */
  function SplitLines(text: string): (lines: seq<string>)
    ensures forall i :: 0 <= i < |lines| ==> '\n' !in lines[i]
    ensures text == [] <==> lines == []
  {
    if text == [] then []
    else
      var parts := Split(text, '\n');
      if parts[|parts| - 1] == "" then parts[..|parts| - 1] else parts
  }

  /** Joining the lines with '\n' gives the text back, less its final line break if it
      has one. */
  lemma SplitLinesJoin(text: string)
    requires text != []
    ensures var lines := SplitLines(text);
      Join(lines, '\n') == text || Join(lines, '\n') + ['\n'] == text
  {
    var parts := Split(text, '\n');
    JoinSplit(text, '\n');
    if parts[|parts| - 1] == "" {
      var n := |parts| - 1;
      JoinSnoc(parts[..n], parts[n], '\n');
      assert parts[..n] + [parts[n]] == parts;
    }
  }

  /** What `read_text` makes of a file's text in universal-newline mode: each "\r\n" and
      each lone '\r' becomes '\n'. */
  function Universal(s: string): (r: string)
    ensures |r| <= |s|
    decreases |s|
  {
    if s == [] then []
    else [if s[0] == '\r' then '\n' else s[0]] + Universal(s[Skip(s)..])
  }

  /** How many characters the first character read takes: two for "\r\n", else one. */
  function Skip(s: string): (n: nat)
    requires s != []
    ensures 1 <= n <= |s|
  {
    if |s| >= 2 && s[0] == '\r' && s[1] == '\n' then 2 else 1
  }

  /** A text without '\r' reads back unchanged. */
  lemma {:induction false} UniversalKeeps(s: string)
    requires '\r' !in s
    ensures Universal(s) == s
    decreases |s|
  {
    if s != [] {
      UniversalKeeps(s[1..]);
    }
  }

  /** Helpers that hand the solver one concatenation fact at a time. */
  lemma ConcatAssoc(x: string, y: string, z: string)
    ensures (x + y) + z == x + (y + z)
  {
  }

  lemma SuffixOfConcat(a: string, b: string, k: nat)
    requires k <= |a|
    ensures (a + b)[k..] == a[k..] + b
  {
  }

  /** The translation works piece by piece, except across a '\r' that ends `a` and a '\n'
      that starts `b`, which form one "\r\n". */
  lemma {:induction false} UniversalConcat(a: string, b: string)
    requires !(a != [] && a[|a| - 1] == '\r' && b != [] && b[0] == '\n')
    ensures Universal(a + b) == Universal(a) + Universal(b)
    decreases |a|
  {
    var c := a + b;
    if a == [] {
      assert c == b;
    } else {
      var k := Skip(a);
      assert Skip(c) == k && c[0] == a[0];
      SuffixOfConcat(a, b, k);
      UniversalConcat(a[k..], b);
      ConcatAssoc([if a[0] == '\r' then '\n' else a[0]], Universal(a[k..]), Universal(b));
    }
  }

  /** No '\r' survives the translation. */
  lemma {:induction false} UniversalNoCr(s: string)
    ensures forall i :: 0 <= i < |Universal(s)| ==> Universal(s)[i] != '\r'
    decreases |s|
  {
    if s != [] {
      UniversalNoCr(s[Skip(s)..]);
    }
  }

  /** A Windows line break "\r\n" reads back as '\n'. */
  lemma CrLfRead(a: string, b: string)
    ensures Universal(a + ['\r', '\n'] + b) == Universal(a) + ['\n'] + Universal(b)
  {
    var crlf := ['\r', '\n'] + b;
    ConcatAssoc(a, ['\r', '\n'], b);
    UniversalConcat(a, crlf);
    assert Skip(crlf) == 2 && crlf[2..] == b;
    ConcatAssoc(Universal(a), ['\n'], Universal(b));
  }

  /** A lone '\r' (an old-Mac line break) reads back as '\n'. */
  lemma CrRead(a: string, b: string)
    requires b == [] || b[0] != '\n'
    ensures Universal(a + ['\r'] + b) == Universal(a) + ['\n'] + Universal(b)
  {
    var cr := ['\r'] + b;
    ConcatAssoc(a, ['\r'], b);
    UniversalConcat(a, cr);
    assert Skip(cr) == 1 && cr[1..] == b;
    ConcatAssoc(Universal(a), ['\n'], Universal(b));
  }

  /** Python's `str.isspace` for one character: the Unicode whitespace characters. */
  predicate IsSpace(c: char)
  {
    var n := c as int;
    (0x09 <= n <= 0x0D) || (0x1C <= n <= 0x20) || n == 0x85 || n == 0xA0 || n == 0x1680
    || (0x2000 <= n <= 0x200A) || n == 0x2028 || n == 0x2029 || n == 0x202F || n == 0x205F
    || n == 0x3000
  }

  /** `s.rstrip()`: the longest prefix of `s` that does not end in whitespace, where
      everything removed is whitespace. */
  function RStrip(s: string): (r: string)
    ensures StartsWith(s, r)
    ensures r == [] || !IsSpace(r[|r| - 1])
    ensures forall i :: |r| <= i < |s| ==> IsSpace(s[i])
  {
    if s != [] && IsSpace(s[|s| - 1]) then RStrip(s[..|s| - 1]) else s
  }

  function LowerChar(c: char): char
  {
    if 'A' <= c <= 'Z' then (c as int + 32) as char else c
  }

  /** `s.lower()` on ASCII letters; every other character is kept. */
  function Lower(s: string): (r: string)
    ensures |r| == |s|
    ensures forall i :: 0 <= i < |s| ==> r[i] == LowerChar(s[i])
    ensures forall i :: 0 <= i < |r| ==> !('A' <= r[i] <= 'Z')
    ensures forall i :: 0 <= i < |s| && !('A' <= s[i] <= 'Z') ==> r[i] == s[i]
  {
    seq(|s|, i requires 0 <= i < |s| => LowerChar(s[i]))
  }

  /** `needle in hay` */
  predicate Contains(hay: string, needle: string)
  {
    exists i :: 0 <= i <= |hay| - |needle| && OccursAt(hay, needle, i)
  }

  predicate OccursAt(hay: string, needle: string, i: int)
    requires 0 <= i <= |hay| - |needle|
  {
    hay[i..i + |needle|] == needle
  }

  /** Lowering both sides keeps an occurrence: whatever `needle in hay` finds, the
      lowered search finds too. */
  lemma ContainsLower(hay: string, needle: string)
    requires Contains(hay, needle)
    ensures Contains(Lower(hay), Lower(needle))
  {
    var i :| 0 <= i <= |hay| - |needle| && OccursAt(hay, needle, i);
    assert Lower(hay)[i..i + |needle|] == Lower(needle) by {
      forall k | 0 <= k < |needle| ensures Lower(hay)[i..i + |needle|][k] == Lower(needle)[k] {
        assert hay[i + k] == needle[k];
      }
    }
    assert OccursAt(Lower(hay), Lower(needle), i);
  }

  /** `s.startswith(prefix)` */
  predicate StartsWith(s: string, prefix: string)
  {
    |prefix| <= |s| && s[..|prefix|] == prefix
  }

  /** Number of bytes UTF-8 uses for one Unicode scalar value. */
  function Utf8Width(c: char): nat
  {
    if c as int < 0x80 then 1
    else if c as int < 0x800 then 2
    else if c as int < 0x10000 then 3
    else 4
  }

  /** `len(s.encode())` */
  function Utf8Length(s: string): nat
  {
    if s == [] then 0 else Utf8Width(s[0]) + Utf8Length(s[1..])
  }

  predicate IsAscii(s: string)
  {
    forall i :: 0 <= i < |s| ==> s[i] as int < 0x80
  }

  /** The encoded length lies between one and four bytes per character, and equals the
      number of characters exactly when the text is ASCII. */
  lemma {:induction false} Utf8LengthBounds(s: string)
    ensures |s| <= Utf8Length(s) <= 4 * |s|
    ensures Utf8Length(s) == |s| <==> IsAscii(s)
  {
    if s != [] {
      Utf8LengthBounds(s[1..]);
      if IsAscii(s) {
        assert IsAscii(s[1..]) by {
          forall i | 0 <= i < |s| - 1 ensures s[1..][i] as int < 0x80 {
            assert s[1..][i] == s[i + 1];
          }
        }
      }
      if Utf8Length(s) == |s| {
        forall i | 0 <= i < |s| ensures s[i] as int < 0x80 {
          if i > 0 { assert s[i] == s[1..][i - 1]; }
        }
      }
    }
  }
}
