/** Sequence operations the Ruby code uses on arrays: `uniq`, `flatten`, `reject`. */
module Seqs {

  /** No element occurs twice. */
  predicate NoDup<T(==)>(s: seq<T>) {
    forall i, j :: 0 <= i < j < |s| ==> s[i] != s[j]
  }

  /** Index of the first occurrence of `x` in `s`. */
  function FirstIndex<T(==)>(s: seq<T>, x: T): (k: nat)
    requires x in s
    ensures k < |s| && s[k] == x && x !in s[..k]
  {
    if s[0] == x then 0
    else
      var k := FirstIndex(s[1..], x);
      assert s[1..][..k] == s[1..k + 1];
      1 + k
  }

  /** Ruby's `Array#uniq`: drops every element already seen earlier, keeping the first occurrence. */
  function Uniq<T(==)>(s: seq<T>): seq<T>
    decreases |s|
  {
    if s == [] then []
    else if s[|s| - 1] in s[..|s| - 1] then Uniq(s[..|s| - 1])
    else Uniq(s[..|s| - 1]) + [s[|s| - 1]]
  }

  /** `uniq` keeps exactly the elements of its input. */
  lemma {:induction false} UniqMembers<T>(s: seq<T>)
    ensures forall x :: x in Uniq(s) ==> x in s
    ensures forall x :: x in s ==> x in Uniq(s)
  {
    if s != [] {
      var init := s[..|s| - 1];
      UniqMembers(init);
      assert s == init + [s[|s| - 1]];
    }
  }

  /** `uniq` leaves no duplicate. */
  lemma {:induction false} UniqNoDup<T>(s: seq<T>)
    ensures NoDup(Uniq(s))
  {
    if s != [] {
      var init := s[..|s| - 1];
      UniqNoDup(init);
      UniqMembers(init);
    }
  }

  /** The first occurrence of an element of a prefix is not moved by appending. */
  lemma FirstIndexAppend<T>(a: seq<T>, b: seq<T>, x: T)
    requires x in a
    ensures FirstIndex(a + b, x) == FirstIndex(a, x)
  {
    var r, q := FirstIndex(a + b, x), FirstIndex(a, x);
    assert (a + b)[..q] == a[..q];
    assert (a + b)[q] == x;
  }

  /** `uniq` lists the distinct elements in the order of their first occurrences. */
  lemma {:induction false} UniqOrder<T>(s: seq<T>, i: nat, j: nat)
    requires i < j < |Uniq(s)|
    ensures Uniq(s)[i] in s && Uniq(s)[j] in s
    ensures FirstIndex(s, Uniq(s)[i]) < FirstIndex(s, Uniq(s)[j])
  {
    var init, last := s[..|s| - 1], s[|s| - 1];
    assert s == init + [last];
    UniqMembers(s);
    UniqMembers(init);
    var u := Uniq(init);
    if last in init || j < |u| {
      UniqOrder(init, i, j);
      assert u[i] in u && u[j] in u;
      FirstIndexAppend(init, [last], u[i]);
      FirstIndexAppend(init, [last], u[j]);
    } else {
      assert Uniq(s) == u + [last] && j == |u|;
      assert u[i] in u;
      FirstIndexAppend(init, [last], u[i]);
      assert s[|init|] == last && s[..|init|] == init;
    }
  }

  /** `uniq` changes nothing on a duplicate-free sequence. */
  lemma {:induction false} UniqOfNoDup<T>(s: seq<T>)
    requires NoDup(s)
    ensures Uniq(s) == s
  {
    if s != [] {
      var init := s[..|s| - 1];
      assert NoDup(init);
      UniqOfNoDup(init);
      assert s == init + [s[|s| - 1]];
    }
  }

  /** Ruby's `uniq!`, the loop over the array keeping a set of what it has seen. */
  method UniqInPlace<T(==)>(s: seq<T>) returns (r: seq<T>)
    ensures r == Uniq(s)
  {
    r := [];
    var seen: set<T> := {};
    var i := 0;
    while i < |s|
      invariant 0 <= i <= |s|
      invariant r == Uniq(s[..i])
      invariant forall x :: x in seen <==> x in s[..i]
    {
      assert s[..i + 1][..i] == s[..i];
      if s[i] !in seen {
        r := r + [s[i]];
        seen := seen + {s[i]};
      }
      assert forall x :: x in s[..i + 1] <==> x in s[..i] || x == s[i];
      i := i + 1;
    }
    assert s[..i] == s;
  }

  /** Concatenation of the members, `flatten` one level deep. */
  function Flatten<T>(ss: seq<seq<T>>): seq<T>
    decreases |ss|
  {
    if ss == [] then [] else ss[0] + Flatten(ss[1..])
  }

  /** An element is in the concatenation iff it is in one of the parts. */
  lemma {:induction false} FlattenMembers<T>(ss: seq<seq<T>>, x: T)
    ensures x in Flatten(ss) <==> exists k :: 0 <= k < |ss| && x in ss[k]
  {
    if ss != [] {
      FlattenMembers(ss[1..], x);
      if x in Flatten(ss[1..]) {
        var k :| 0 <= k < |ss[1..]| && x in ss[1..][k];
        assert x in ss[k + 1];
      }
      if exists k :: 0 <= k < |ss| && x in ss[k] {
        var k :| 0 <= k < |ss| && x in ss[k];
        if k > 0 { assert x in ss[1..][k - 1]; }
      }
    }
  }

  /** Flattening distributes over appending one more part. */
  lemma {:induction false} FlattenSnoc<T>(ss: seq<seq<T>>, t: seq<T>)
    ensures Flatten(ss + [t]) == Flatten(ss) + t
  {
    if ss != [] {
      assert (ss + [t])[1..] == ss[1..] + [t];
      FlattenSnoc(ss[1..], t);
    }
  }

  /** Number of occurrences of `x`. */
  function Count<T(==)>(s: seq<T>, x: T): nat
    decreases |s|
  {
    if s == [] then 0 else (if s[0] == x then 1 else 0) + Count(s[1..], x)
  }

  lemma {:induction false} CountAppend<T>(a: seq<T>, b: seq<T>, x: T)
    ensures Count(a + b, x) == Count(a, x) + Count(b, x)
  {
    if a == [] {
      assert a + b == b;
    } else {
      assert (a + b)[0] == a[0] && (a + b)[1..] == a[1..] + b;
      CountAppend(a[1..], b, x);
    }
  }
}
