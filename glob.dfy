/** The name patterns of `Path.glob` and `Path.rglob`, restricted to the wildcards `*`
    (any run of characters, including a leading '.') and `?` (one character). */
module Glob {

  /** Whether `name` matches `pattern`; without '*' every pattern character stands for
      exactly one name character. */
  function Match(pattern: string, name: string): (r: bool)
    ensures r && '*' !in pattern ==> |name| == |pattern|
    decreases |pattern| + |name|
  {
    if pattern == [] then name == []
    else if pattern[0] == '*' then
      Match(pattern[1..], name) || (name != [] && Match(pattern, name[1..]))
    else if pattern[0] == '?' then name != [] && Match(pattern[1..], name[1..])
    else name != [] && name[0] == pattern[0] && Match(pattern[1..], name[1..])
  }

  predicate IsLiteral(pattern: string)
  {
    '*' !in pattern && '?' !in pattern
  }

  /** "*" matches every name. */
  lemma {:induction false} StarMatchesAll(name: string)
    ensures Match("*", name)
  {
    if name != [] {
      StarMatchesAll(name[1..]);
    }
  }

  /** A pattern without wildcards matches exactly the name it spells. */
  lemma {:induction false} LiteralMatchesItself(pattern: string, name: string)
    requires IsLiteral(pattern)
    ensures Match(pattern, name) <==> pattern == name
  {
    if pattern != [] && name != [] {
      assert pattern[0] in pattern;
      assert IsLiteral(pattern[1..]) by {
        forall c | c in pattern[1..] ensures c in pattern { }
      }
      LiteralMatchesItself(pattern[1..], name[1..]);
      assert pattern == [pattern[0]] + pattern[1..] && name == [name[0]] + name[1..];
    } else if pattern != [] {
      assert pattern[0] in pattern;
    }
  }

  /** A leading "*" lets the rest of the pattern match any suffix of the name. */
  lemma {:induction false} LeadingStar(rest: string, name: string)
    ensures Match("*" + rest, name) <==> exists k :: 0 <= k <= |name| && Match(rest, name[k..])
  {
    var pat := "*" + rest;
    assert pat[0] == '*' && pat[1..] == rest;
    assert name[0..] == name;
    if name != [] {
      LeadingStar(rest, name[1..]);
      if Match(pat, name[1..]) {
        var k :| 0 <= k <= |name[1..]| && Match(rest, name[1..][k..]);
        assert name[1..][k..] == name[k + 1..];
      }
      if exists k :: 0 <= k <= |name| && Match(rest, name[k..]) {
        var k :| 0 <= k <= |name| && Match(rest, name[k..]);
        if k > 0 {
          assert name[1..][k - 1..] == name[k..];
        }
      }
    }
  }

  /** The grep default "*.*" selects exactly the names that contain a '.'. */
  lemma DefaultPatternNeedsDot(name: string)
    ensures Match("*.*", name) <==> '.' in name
  {
    LeadingStar(".*", name);
    assert "*.*" == "*" + ".*";
    forall k | 0 <= k <= |name|
      ensures Match(".*", name[k..]) <==> k < |name| && name[k] == '.'
    {
      var pat := ".*";
      assert pat[1..] == "*";
      if k < |name| {
        StarMatchesAll(name[k..][1..]);
      }
    }
    if '.' in name {
      var k :| 0 <= k < |name| && name[k] == '.';
      assert Match(".*", name[k..]);
    }
  }
}
