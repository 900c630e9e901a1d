/** Small sequence helpers shared by the scheduler, the store and the layout engine. */
module Seqs {

  /** Concatenation of a list of lists, left to right (JavaScript's `flat()`). */
  function Flatten<T>(gs: seq<seq<T>>): seq<T>
  {
    if gs == [] then [] else Flatten(gs[..|gs| - 1]) + gs[|gs| - 1]
  }

  /** Appending one more inner list appends its elements. */
  lemma {:induction false} FlattenSnoc<T>(a: seq<seq<T>>, x: seq<T>)
    ensures Flatten(a + [x]) == Flatten(a) + x
  {
    assert (a + [x])[..|a|] == a;
  }

  lemma {:induction false} FlattenAppend<T>(a: seq<seq<T>>, b: seq<seq<T>>)
    ensures Flatten(a + b) == Flatten(a) + Flatten(b)
    decreases |b|
  {
    if b == [] {
      assert a + b == a;
    } else {
      var b', x := b[..|b| - 1], b[|b| - 1];
      assert b == b' + [x];
      assert a + b == (a + b') + [x];
      FlattenAppend(a, b');
      FlattenSnoc(a + b', x);
      FlattenSnoc(b', x);
    }
  }

  /** `s.filter(y => y !== x)`: every occurrence of x removed, the rest in order. */
  function Without<T(==)>(s: seq<T>, x: T): (r: seq<T>)
    ensures x !in r
    ensures multiset(r) == multiset(s)[x := 0]
  {
    if s == [] then []
    else
      assert s == [s[0]] + s[1..];
      (if s[0] == x then [] else [s[0]]) + Without(s[1..], x)
  }

  lemma {:induction false} WithoutAppend<T>(a: seq<T>, b: seq<T>, x: T)
    ensures Without(a + b, x) == Without(a, x) + Without(b, x)
    decreases |a|
  {
    if a == [] {
      assert a + b == b;
    } else {
      assert (a + b)[0] == a[0];
      assert (a + b)[1..] == a[1..] + b;
      WithoutAppend(a[1..], b, x);
    }
  }

  lemma {:induction false} WithoutIdempotent<T>(s: seq<T>, x: T)
    ensures Without(Without(s, x), x) == Without(s, x)
    decreases |s|
  {
    if s != [] {
      WithoutIdempotent(s[1..], x);
      if s[0] == x {
        assert Without(s, x) == Without(s[1..], x);
      } else {
        var r := Without(s[1..], x);
        assert Without(s, x) == [s[0]] + r;
        assert ([s[0]] + r)[0] == s[0] && ([s[0]] + r)[1..] == r;
      }
    }
  }

  lemma {:induction false} WithoutAbsent<T>(s: seq<T>, x: T)
    requires x !in s
    ensures Without(s, x) == s
    decreases |s|
  {
    if s != [] {
      WithoutAbsent(s[1..], x);
      assert [s[0]] + s[1..] == s;
    }
  }

  /** An empty inner list contributes nothing to the concatenation. */
  lemma {:induction false} FlattenSkipsEmpty<T>(a: seq<seq<T>>, b: seq<seq<T>>)
    ensures Flatten(a + [[]] + b) == Flatten(a + b)
  {
    var empty: seq<seq<T>> := [[]];
    FlattenAppend(a + empty, b);
    FlattenAppend(a, empty);
    FlattenAppend(a, b);
    assert Flatten(empty) == Flatten(empty[..0]) + [];
  }

  /** No element occurs twice. */
  predicate NoDuplicates<T(==)>(s: seq<T>)
  {
    forall i, j :: 0 <= i < j < |s| ==> s[i] != s[j]
  }

  function Last<T>(s: seq<T>): T requires s != [] { s[|s| - 1] }

  /** Every entry of every inner list appears in the concatenation. */
  lemma {:induction false} FlattenMember<T>(gs: seq<seq<T>>, k: nat, m: nat)
    requires k < |gs| && m < |gs[k]|
    ensures gs[k][m] in Flatten(gs)
    decreases |gs|
  {
    var init := gs[..|gs| - 1];
    if k < |init| {
      FlattenMember(init, k, m);
    }
  }

  /** Every element of the concatenation comes from one of the inner lists. */
  lemma {:induction false} FlattenMemberInverse<T>(gs: seq<seq<T>>, x: T)
    requires x in Flatten(gs)
    ensures exists k, m :: 0 <= k < |gs| && 0 <= m < |gs[k]| && gs[k][m] == x
    decreases |gs|
  {
    var init := gs[..|gs| - 1];
    if x in Flatten(init) {
      FlattenMemberInverse(init, x);
      var k, m :| 0 <= k < |init| && 0 <= m < |init[k]| && init[k][m] == x;
      assert gs[k][m] == x;
    } else {
      var last := gs[|gs| - 1];
      var m :| 0 <= m < |last| && last[m] == x;
    }
  }
}
