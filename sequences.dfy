/** Order-preserving selection over sequences: the meaning of JavaScript's
    Array.prototype.filter, and of a query that returns the rows satisfying
    a condition. */
module Sequences {

  /** The elements of `s` that satisfy `keep`, in their original order. */
  function Select<T>(s: seq<T>, keep: T -> bool): (r: seq<T>)
    ensures |r| <= |s|
  {
    if s == [] then [] else (if keep(s[0]) then [s[0]] else []) + Select(s[1..], keep)
  }

  /** The selection holds exactly the elements of `s` that satisfy `keep`. */
  lemma {:induction false} SelectMembers<T(!new)>(s: seq<T>, keep: T -> bool)
    ensures forall x :: x in Select(s, keep) <==> x in s && keep(x)
  {
    if s != [] {
      SelectMembers(s[1..], keep);
      assert s == [s[0]] + s[1..];
    }
  }

  /** `a` can be obtained from `b` by deleting elements, keeping the order. */
  predicate IsSubsequence<T(==)>(a: seq<T>, b: seq<T>)
    decreases |b|
  {
    a == [] || (b != [] && if a[0] == b[0] then IsSubsequence(a[1..], b[1..]) else IsSubsequence(a, b[1..]))
  }

  /** A selection keeps the relative order of what it keeps. */
  lemma {:induction false} SelectIsSubsequence<T(!new)>(s: seq<T>, keep: T -> bool)
    ensures IsSubsequence(Select(s, keep), s)
  {
    if s != [] {
      SelectIsSubsequence(s[1..], keep);
      var a := Select(s, keep);
      if keep(s[0]) {
        assert a[0] == s[0] && a[1..] == Select(s[1..], keep);
      } else {
        SelectMembers(s, keep);
        assert a == Select(s[1..], keep);
        if a != [] {
          assert a[0] in a;
          assert a[0] != s[0];
        }
      }
    }
  }

  /** Selecting with a weaker condition keeps everything a stronger one keeps,
      in the same order. */
  lemma {:induction false} SelectMonotone<T(!new)>(s: seq<T>, strong: T -> bool, weak: T -> bool)
    requires forall x :: strong(x) ==> weak(x)
    ensures IsSubsequence(Select(s, strong), Select(s, weak))
  {
    if s != [] {
      SelectMonotone(s[1..], strong, weak);
      var a, b := Select(s, strong), Select(s, weak);
      if strong(s[0]) {
        assert a[0] == b[0] == s[0];
        assert a[1..] == Select(s[1..], strong) && b[1..] == Select(s[1..], weak);
      } else if weak(s[0]) {
        SelectMembers(s, strong);
        assert a == Select(s[1..], strong);
        assert b[1..] == Select(s[1..], weak);
        if a != [] {
          assert a[0] in a;
          assert a[0] != b[0];
        }
      } else {
        assert a == Select(s[1..], strong) && b == Select(s[1..], weak);
      }
    }
  }

  /** Selection depends only on the values of the condition. */
  lemma {:induction false} SelectCongruent<T(!new)>(s: seq<T>, p: T -> bool, q: T -> bool)
    requires forall x :: x in s ==> p(x) == q(x)
    ensures Select(s, p) == Select(s, q)
  {
    if s != [] {
      SelectCongruent(s[1..], p, q);
    }
  }

  /** A condition that holds everywhere in `s` keeps all of `s`. */
  lemma {:induction false} SelectKeepsAll<T(!new)>(s: seq<T>, keep: T -> bool)
    requires forall x :: x in s ==> keep(x)
    ensures Select(s, keep) == s
  {
    if s != [] {
      SelectKeepsAll(s[1..], keep);
    }
  }

  /** Two selections in a row are one selection with both conditions. */
  lemma {:induction false} SelectTwice<T(!new)>(s: seq<T>, first: T -> bool, second: T -> bool, both: T -> bool)
    requires forall x :: x in s ==> both(x) == (first(x) && second(x))
    ensures Select(Select(s, first), second) == Select(s, both)
  {
    if s != [] {
      var head := if first(s[0]) then [s[0]] else [];
      var tail := Select(s[1..], first);
      assert Select(s, first) == head + tail;
      SelectTwice(s[1..], first, second, both);
      SelectAppend(head, tail, second);
      assert Select(head, second) == if both(s[0]) then [s[0]] else [] by {
        if first(s[0]) { assert head[1..] == []; }
      }
    }
  }

  /** Selection distributes over concatenation. */
  lemma {:induction false} SelectAppend<T(!new)>(a: seq<T>, b: seq<T>, keep: T -> bool)
    ensures Select(a + b, keep) == Select(a, keep) + Select(b, keep)
  {
    if a != [] {
      SelectAppend(a[1..], b, keep);
      assert (a + b)[1..] == a[1..] + b;
    } else {
      assert a + b == b;
    }
  }

  /** A condition and its negation split `s` between them. */
  lemma {:induction false} SelectSplits<T(!new)>(s: seq<T>, p: T -> bool, q: T -> bool)
    requires forall x :: x in s ==> q(x) == !p(x)
    ensures |Select(s, p)| + |Select(s, q)| == |s|
  {
    if s != [] {
      SelectSplits(s[1..], p, q);
    }
  }

  /** No element occurs twice. */
  predicate NoDuplicates<T(==)>(s: seq<T>) {
    forall i, j :: 0 <= i < j < |s| ==> s[i] != s[j]
  }

  /** A selection from a sequence without repeats has no repeats. */
  lemma {:induction false} SelectNoDuplicates<T(!new)>(s: seq<T>, keep: T -> bool)
    requires NoDuplicates(s)
    ensures NoDuplicates(Select(s, keep))
  {
    if s != [] {
      var rest := Select(s[1..], keep);
      assert NoDuplicates(s[1..]) by {
        forall i, j | 0 <= i < j < |s| - 1 ensures s[1..][i] != s[1..][j] {
          assert s[1..][i] == s[i + 1] && s[1..][j] == s[j + 1];
        }
      }
      SelectNoDuplicates(s[1..], keep);
      if keep(s[0]) {
        SelectMembers(s[1..], keep);
        assert s[0] !in s[1..] by {
          forall i | 0 <= i < |s| - 1 ensures s[1..][i] != s[0] {
            assert s[1..][i] == s[i + 1];
          }
        }
        var r := Select(s, keep);
        assert r == [s[0]] + rest;
        forall i, j | 0 <= i < j < |r| ensures r[i] != r[j] {
          if i == 0 {
            assert r[j] == rest[j - 1] && rest[j - 1] in rest;
          } else {
            assert r[i] == rest[i - 1] && r[j] == rest[j - 1];
          }
        }
      } else {
        assert Select(s, keep) == rest;
      }
    }
  }
}
