/** The key patterns of `MockRedis.keys`. The store turns a pattern into the
    regular expression `^` + pattern + `$`, every `*` rewritten as `.*`, and
    keeps the keys the expression accepts. This module states what that
    expression accepts for patterns made of ordinary characters and `*`. */
module Glob {

  /** The characters an ECMAScript `.` does not match: the line terminators. */
  predicate IsLineTerminator(c: char) {
    c == '\n' || c == '\r' || c == '\U{2028}' || c == '\U{2029}'
  }

  /** `s` holds no line terminator, so `.*` can consume all of it. */
  predicate OnOneLine(s: string) {
    forall i :: 0 <= i < |s| ==> !IsLineTerminator(s[i])
  }

  /** Characters other than `*` that a regular expression does not read literally. */
  predicate IsRegexMeta(c: char) {
    || c == '\\' || c == '^' || c == '$' || c == '.' || c == '|' || c == '?' || c == '+'
    || c == '(' || c == ')' || c == '[' || c == ']' || c == '{' || c == '}'
  }

  /** A pattern in which every character except `*` stands for itself. */
  predicate Plain(pattern: string) {
    forall i :: 0 <= i < |pattern| ==> !IsRegexMeta(pattern[i])
  }

  /** Whether the anchored expression built from `pattern` accepts `s`:
      `*` consumes any run of non-line-terminators, every other character
      must be matched by the same character. */
  function Matches(pattern: string, s: string): bool
    decreases |pattern| + |s|
  {
    if pattern == [] then s == []
    else if pattern[0] == '*' then
      Matches(pattern[1..], s) || (s != [] && !IsLineTerminator(s[0]) && Matches(pattern, s[1..]))
    else
      s != [] && s[0] == pattern[0] && Matches(pattern[1..], s[1..])
  }

  /** Number of `*` in a pattern. */
  function Stars(pattern: string): nat {
    if pattern == [] then 0
    else (if pattern[0] == '*' then 1 else 0) + Stars(pattern[1..])
  }

  /** The string obtained from `pattern` by putting `fills[i]` in place of its i-th `*`. */
  function Expand(pattern: string, fills: seq<string>): string
    requires |fills| == Stars(pattern)
  {
    if pattern == [] then []
    else if pattern[0] == '*' then fills[0] + Expand(pattern[1..], fills[1..])
    else [pattern[0]] + Expand(pattern[1..], fills)
  }

  predicate AllOnOneLine(fills: seq<string>) {
    forall i :: 0 <= i < |fills| ==> OnOneLine(fills[i])
  }

  /** A leading `*` may swallow any one-line prefix. */
  lemma {:induction false} StarSwallows(rest: string, w: string, t: string)
    requires OnOneLine(w) && Matches(rest, t)
    ensures Matches(['*'] + rest, w + t)
    decreases |w|
  {
    var p := ['*'] + rest;
    assert p[0] == '*' && p[1..] == rest;
    if w == [] {
      assert w + t == t;
    } else {
      StarSwallows(rest, w[1..], t);
      assert (w + t)[0] == w[0];
      assert (w + t)[1..] == w[1..] + t;
    }
  }

  /** Every expansion of a pattern by one-line fills is accepted. */
  lemma {:induction false} ExpansionMatches(pattern: string, fills: seq<string>)
    requires |fills| == Stars(pattern) && AllOnOneLine(fills)
    ensures Matches(pattern, Expand(pattern, fills))
    decreases |pattern|
  {
    if pattern == [] {
    } else if pattern[0] == '*' {
      assert AllOnOneLine(fills[1..]);
      ExpansionMatches(pattern[1..], fills[1..]);
      StarSwallows(pattern[1..], fills[0], Expand(pattern[1..], fills[1..]));
      assert ['*'] + pattern[1..] == pattern;
    } else {
      ExpansionMatches(pattern[1..], fills);
      var s := Expand(pattern, fills);
      assert s[0] == pattern[0] && s[1..] == Expand(pattern[1..], fills);
    }
  }

  /** Growing the first fill of a `*`-led pattern by one character grows the expansion by it. */
  lemma WidenFirstFill(pattern: string, more: seq<string>, c: char)
    requires pattern != [] && pattern[0] == '*'
    requires |more| == Stars(pattern) && AllOnOneLine(more) && !IsLineTerminator(c)
    ensures AllOnOneLine([[c] + more[0]] + more[1..])
    ensures Expand(pattern, [[c] + more[0]] + more[1..]) == [c] + Expand(pattern, more)
  {
    var first := [c] + more[0];
    var fills := [first] + more[1..];
    assert Expand(pattern, fills) == [c] + Expand(pattern, more) by {
      assert fills[0] == first && fills[1..] == more[1..];
      var tail := Expand(pattern[1..], more[1..]);
      assert Expand(pattern, fills) == first + tail;
      assert Expand(pattern, more) == more[0] + tail;
    }
    assert OnOneLine(first) by {
      assert OnOneLine(more[0]);
      forall j | 0 < j < |first| ensures !IsLineTerminator(first[j]) {
        assert first[j] == more[0][j - 1];
      }
    }
    forall i | 0 < i < |fills| ensures OnOneLine(fills[i]) {
      assert fills[i] == more[i];
    }
  }

  /** `fills` are one-line strings that turn `pattern` into `s`. */
  predicate ExpandsTo(pattern: string, fills: seq<string>, s: string) {
    |fills| == Stars(pattern) && AllOnOneLine(fills) && Expand(pattern, fills) == s
  }

  /** Every accepted string is an expansion of the pattern by one-line fills. */
  lemma {:induction false} MatchIsExpansion(pattern: string, s: string)
    requires Matches(pattern, s)
    ensures exists fills :: ExpandsTo(pattern, fills, s)
    decreases |pattern| + |s|
  {
    if pattern == [] {
      assert ExpandsTo(pattern, [], s);
    } else if pattern[0] == '*' {
      if Matches(pattern[1..], s) {
        MatchIsExpansion(pattern[1..], s);
        var rest :| ExpandsTo(pattern[1..], rest, s);
        var fills := [""] + rest;
        assert fills[1..] == rest;
        assert ExpandsTo(pattern, fills, s);
      } else {
        MatchIsExpansion(pattern, s[1..]);
        var more :| ExpandsTo(pattern, more, s[1..]);
        WidenFirstFill(pattern, more, s[0]);
        var fills := [[s[0]] + more[0]] + more[1..];
        assert Expand(pattern, fills) == [s[0]] + s[1..] == s;
        assert ExpandsTo(pattern, fills, s);
      }
    } else {
      MatchIsExpansion(pattern[1..], s[1..]);
      var fills :| ExpandsTo(pattern[1..], fills, s[1..]);
      assert Expand(pattern, fills) == [s[0]] + s[1..] == s;
      assert ExpandsTo(pattern, fills, s);
    }
  }

  /** A pattern without `*` accepts exactly itself. */
  lemma {:induction false} LiteralMatchesOnlyItself(pattern: string, s: string)
    requires Stars(pattern) == 0
    ensures Matches(pattern, s) <==> s == pattern
    decreases |pattern|
  {
    if pattern != [] {
      LiteralMatchesOnlyItself(pattern[1..], if s == [] then s else s[1..]);
      if s != [] && s[0] == pattern[0] && s[1..] == pattern[1..] {
        assert s == [s[0]] + s[1..] && pattern == [pattern[0]] + pattern[1..];
      }
    }
  }

  /** `*` alone accepts exactly the one-line strings. */
  lemma {:induction false} StarMatchesOneLine(s: string)
    ensures Matches("*", s) <==> OnOneLine(s)
    decreases |s|
  {
    assert "*"[1..] == [];
    if s != [] {
      StarMatchesOneLine(s[1..]);
      assert OnOneLine(s) <==> !IsLineTerminator(s[0]) && OnOneLine(s[1..]) by {
        if !IsLineTerminator(s[0]) && OnOneLine(s[1..]) {
          forall i | 0 < i < |s| ensures !IsLineTerminator(s[i]) {
            assert s[i] == s[1..][i - 1];
          }
        }
      }
    }
  }

  /** `prefix*`, for a prefix without `*`, accepts exactly the strings that
      start with the prefix and continue on one line. */
  lemma {:induction false} PrefixStarMatches(prefix: string, s: string)
    requires Stars(prefix) == 0
    ensures Matches(prefix + "*", s) <==> |prefix| <= |s| && s[..|prefix|] == prefix && OnOneLine(s[|prefix|..])
    decreases |prefix|
  {
    if prefix == [] {
      assert prefix + "*" == "*";
      StarMatchesOneLine(s);
    } else {
      var p := prefix + "*";
      assert p[0] == prefix[0] && p[1..] == prefix[1..] + "*";
      if s != [] {
        PrefixStarMatches(prefix[1..], s[1..]);
        if |prefix| <= |s| {
          assert s[..|prefix|] == [s[0]] + s[1..][..|prefix| - 1];
          assert prefix == [prefix[0]] + prefix[1..];
          assert s[|prefix|..] == s[1..][|prefix| - 1..];
        }
      }
    }
  }
}
