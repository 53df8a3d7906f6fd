/** All orderings of a sequence, in the order Python's `itertools.permutations`
    emits them: lexicographic in the positions of the input, so the first
    element cycles slowest and the input order itself comes first. */
module Permutations {
  import opened Tours

  /** The sequence without its i-th element. */
  function Remove<T>(s: seq<T>, i: nat): (r: seq<T>)
    requires i < |s|
  {
    s[..i] + s[i + 1..]
  }

  /** Every sequence of ps with x put in front of it. */
  function Prepend<T>(x: T, ps: seq<seq<T>>): seq<seq<T>>
  {
    seq(|ps|, k requires 0 <= k < |ps| => [x] + ps[k])
  }

  /** All orderings of s. */
  function Perms<T>(s: seq<T>): seq<seq<T>>
    decreases |s|, |s| + 1
  {
    if |s| == 0 then [[]] else PermsFrom(s, 0)
  }

  /** The orderings of s that start with one of s[i..], grouped by that first
      element in the order it has in s. */
  function PermsFrom<T>(s: seq<T>, i: nat): seq<seq<T>>
    requires i <= |s|
    decreases |s|, |s| - i
  {
    if i == |s| then [] else Prepend(s[i], Perms(Remove(s, i))) + PermsFrom(s, i + 1)
  }

  lemma RemoveElements<T>(s: seq<T>, i: nat)
    requires i < |s| && Distinct(s)
    ensures |Remove(s, i)| == |s| - 1
    ensures Distinct(Remove(s, i))
    ensures forall x :: x in Remove(s, i) <==> x in s && x != s[i]
  {
    var r := Remove(s, i);
    assert forall k :: 0 <= k < |r| ==> r[k] == if k < i then s[k] else s[k + 1];
    forall x | x in s && x != s[i] ensures x in r {
      var k :| 0 <= k < |s| && s[k] == x;
      if k < i { assert r[k] == x; } else { assert r[k - 1] == x; }
    }
  }

  /** Every element of Perms(s) is an ordering of s: same length, same
      elements, no repeats. */
  lemma {:induction false} PermsSound<T>(s: seq<T>, p: seq<T>)
    requires Distinct(s) && p in Perms(s)
    ensures |p| == |s| && Distinct(p)
    ensures forall x :: x in p <==> x in s
    decreases |s|, |s| + 1
  {
    if |s| > 0 {
      PermsFromSound(s, 0, p);
    }
  }

  lemma {:induction false} PermsFromSound<T>(s: seq<T>, i: nat, p: seq<T>)
    requires i <= |s| && Distinct(s) && p in PermsFrom(s, i)
    ensures |p| == |s| && Distinct(p)
    ensures forall x :: x in p <==> x in s
    decreases |s|, |s| - i
  {
    if i < |s| {
      var block := Prepend(s[i], Perms(Remove(s, i)));
      if p in block {
        var k :| 0 <= k < |block| && block[k] == p;
        var q := Perms(Remove(s, i))[k];
        assert p == [s[i]] + q;
        RemoveElements(s, i);
        PermsSound(Remove(s, i), q);
        assert s[i] !in q;
        forall x ensures x in p <==> x in s {
          assert x in p <==> x == s[i] || x in q;
        }
      } else {
        PermsFromSound(s, i + 1, p);
      }
    }
  }

  /** A block of orderings starting with s[i] is contained in PermsFrom(s, j)
      for every j <= i. */
  lemma {:induction false} BlockInPermsFrom<T>(s: seq<T>, j: nat, i: nat, p: seq<T>)
    requires j <= i < |s| && p in Prepend(s[i], Perms(Remove(s, i)))
    ensures p in PermsFrom(s, j)
    decreases i - j
  {
    if j < i {
      BlockInPermsFrom(s, j + 1, i, p);
    }
  }

  /** Every ordering of s occurs in Perms(s). */
  lemma {:induction false} PermsComplete<T>(s: seq<T>, p: seq<T>)
    requires Distinct(s) && Distinct(p) && |p| == |s|
    requires forall x :: x in p <==> x in s
    ensures p in Perms(s)
    decreases |s|
  {
    if |s| > 0 {
      assert p[0] in p;
      var i :| 0 <= i < |s| && s[i] == p[0];
      var q := p[1..];
      RemoveElements(s, i);
      forall x ensures x in q <==> x in Remove(s, i) {
        assert x in p <==> x == p[0] || x in q;
        if x in q {
          var k :| 0 <= k < |q| && q[k] == x;
          assert p[k + 1] == x;
        }
      }
      PermsComplete(Remove(s, i), q);
      var ps := Perms(Remove(s, i));
      var k :| 0 <= k < |ps| && ps[k] == q;
      assert p == [s[i]] + q;
      assert Prepend(s[i], ps)[k] == p;
      BlockInPermsFrom(s, 0, i, p);
    }
  }

  /** The input order is the first ordering produced, so there is always at
      least one. */
  lemma {:induction false} PermsFirst<T>(s: seq<T>)
    ensures |Perms(s)| >= 1 && Perms(s)[0] == s
    decreases |s|
  {
    if |s| > 0 {
      PermsFirst(Remove(s, 0));
      assert Remove(s, 0) == s[1..];
      assert [s[0]] + s[1..] == s;
    }
  }
}
