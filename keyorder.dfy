/** Sequences of keys in the order a JavaScript `Map` iterates them: a key
    keeps the place of its insertion since it was last deleted, deleting it
    closes the gap, and the other keys keep their relative order. */
module KeyOrder {

  predicate NoDups(s: seq<string>) {
    forall i, j :: 0 <= i < j < |s| ==> s[i] != s[j]
  }

  /** The elements of a sequence, as a set. */
  function Elems(s: seq<string>): set<string> {
    set x | x in s
  }

  /** `a` can be obtained from `b` by dropping elements. */
  predicate SubsequenceOf(a: seq<string>, b: seq<string>)
    decreases |b|
  {
    if a == [] then true
    else if b == [] then false
    else if a[0] == b[0] then SubsequenceOf(a[1..], b[1..])
    else SubsequenceOf(a, b[1..])
  }

  /** `s` with every element of `ks` deleted. */
  function Without(s: seq<string>, ks: set<string>): seq<string> {
    if s == [] then []
    else if s[0] in ks then Without(s[1..], ks)
    else [s[0]] + Without(s[1..], ks)
  }

  /** Deleting keeps the survivors in their order. */
  lemma {:induction false} WithoutIsSubsequence(s: seq<string>, ks: set<string>)
    ensures SubsequenceOf(Without(s, ks), s)
    decreases |s|
  {
    if s != [] {
      WithoutIsSubsequence(s[1..], ks);
      var rest := Without(s[1..], ks);
      if s[0] in ks {
        SkipHead(rest, s);
      } else {
        assert ([s[0]] + rest)[1..] == rest;
      }
    }
  }

  /** Deleting from a sequence without repetitions leaves none. */
  lemma {:induction false} WithoutNoDups(s: seq<string>, ks: set<string>)
    requires NoDups(s)
    ensures NoDups(Without(s, ks))
    decreases |s|
  {
    if s != [] {
      NoDupsHead(s);
      WithoutNoDups(s[1..], ks);
      var rest := Without(s[1..], ks);
      if s[0] !in ks {
        var r := [s[0]] + rest;
        assert r[1..] == rest;
        if s[0] in rest {
          WithoutIsSubsequence(s[1..], ks);
          SubsequenceMember(rest, s[1..], s[0]);
        }
        forall i, j | 0 <= i < j < |r| ensures r[i] != r[j] {
          if i == 0 {
            assert r[j] == rest[j - 1];
          } else {
            assert r[i] == rest[i - 1] && r[j] == rest[j - 1];
          }
        }
      }
    }
  }

  /** Exactly the elements outside `ks` survive. */
  lemma {:induction false} WithoutMembers(s: seq<string>, ks: set<string>)
    ensures forall x :: x in Without(s, ks) <==> x in s && x !in ks
    decreases |s|
  {
    if s != [] {
      WithoutMembers(s[1..], ks);
      assert s == [s[0]] + s[1..];
    }
  }

  /** Elements of a subsequence occur in the whole. */
  lemma {:induction false} SubsequenceMember(a: seq<string>, b: seq<string>, x: string)
    requires SubsequenceOf(a, b) && x in a
    ensures x in b
    decreases |b|
  {
    if a[0] == b[0] {
      if x != a[0] {
        assert x in a[1..];
        SubsequenceMember(a[1..], b[1..], x);
      }
    } else {
      SubsequenceMember(a, b[1..], x);
    }
  }

  /** A subsequence of `b[1..]` is a subsequence of `b`. */
  lemma {:induction false} SkipHead(a: seq<string>, b: seq<string>)
    requires b != [] && SubsequenceOf(a, b[1..])
    ensures SubsequenceOf(a, b)
    decreases |a| + |b|, 1
  {
    if a != [] && a[0] == b[0] {
      DropHead(a, b[1..]);
    }
  }

  /** Dropping the first element of a subsequence keeps it a subsequence. */
  lemma {:induction false} DropHead(a: seq<string>, b: seq<string>)
    requires a != [] && SubsequenceOf(a, b)
    ensures SubsequenceOf(a[1..], b)
    decreases |a| + |b|, 0
  {
    if a[0] != b[0] {
      DropHead(a, b[1..]);
    }
    SkipHead(a[1..], b);
  }

  lemma NoDupsHead(s: seq<string>)
    requires s != [] && NoDups(s)
    ensures s[0] !in s[1..] && NoDups(s[1..])
  {
    forall i | 0 <= i < |s| - 1 ensures s[1..][i] != s[0] {
      assert s[1..][i] == s[i + 1];
    }
  }

  /** Deleting `a` and then `b` is deleting `a + b`. */
  lemma {:induction false} WithoutWithout(s: seq<string>, a: set<string>, b: set<string>)
    ensures Without(Without(s, a), b) == Without(s, a + b)
    decreases |s|
  {
    if s != [] {
      WithoutWithout(s[1..], a, b);
      var once := Without(s, a);
      if s[0] !in a {
        assert once[0] == s[0] && once[1..] == Without(s[1..], a);
      } else {
        assert once == Without(s[1..], a);
      }
    }
  }

  /** Deleting elements that do not occur changes nothing. */
  lemma {:induction false} WithoutAbsent(s: seq<string>, ks: set<string>)
    requires forall x :: x in ks ==> x !in s
    ensures Without(s, ks) == s
    decreases |s|
  {
    if s != [] {
      WithoutAbsent(s[1..], ks);
      assert s == [s[0]] + s[1..];
    }
  }

  /** The elements of a longer prefix. */
  lemma ElemsSnoc(s: seq<string>, i: nat)
    requires i < |s|
    ensures Elems(s[..i + 1]) == Elems(s[..i]) + {s[i]}
  {
    assert s[..i + 1] == s[..i] + [s[i]];
  }

  /** Appending a new element keeps a sequence free of repetitions. */
  lemma NoDupsSnoc(s: seq<string>, x: string)
    requires NoDups(s) && x !in s
    ensures NoDups(s + [x])
  {
  }
}
