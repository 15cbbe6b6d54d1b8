/** Sequence operations shared by the JavaScript and the Java code: filtering
    (`Array.prototype.filter`, `ArrayList.retainAll`), deduplication through a
    JavaScript `Set`, and the order facts about them. */
module Seqs {

  /** `r` can be obtained from `s` by deleting elements: order is kept. */
  predicate Subseq<T(==)>(r: seq<T>, s: seq<T>)
    decreases |s|
  {
    if r == [] then true
    else if s == [] then false
    else (r[0] == s[0] && Subseq(r[1..], s[1..])) || Subseq(r, s[1..])
  }

  lemma {:induction false} SubseqTrans<T>(a: seq<T>, b: seq<T>, c: seq<T>)
    requires Subseq(a, b) && Subseq(b, c)
    ensures Subseq(a, c)
    decreases |c|
  {
    if a != [] {
      if b[0] == c[0] && Subseq(b[1..], c[1..]) {
        if a[0] == b[0] && Subseq(a[1..], b[1..]) {
          SubseqTrans(a[1..], b[1..], c[1..]);
        } else {
          SubseqTrans(a, b[1..], c[1..]);
        }
      } else {
        SubseqTrans(a, b, c[1..]);
      }
    }
  }

  predicate NoDups<T(==)>(s: seq<T>)
  {
    forall i, j :: 0 <= i < j < |s| ==> s[i] != s[j]
  }

  /** JavaScript `s.filter(p)`: the elements satisfying `p`, in order. */
  function Filter<T(!new)>(s: seq<T>, p: T -> bool): (r: seq<T>)
    ensures |r| <= |s|
    ensures forall x :: x in r <==> x in s && p(x)
  {
    if s == [] then [] else (if p(s[0]) then [s[0]] else []) + Filter(s[1..], p)
  }

  lemma {:induction false} FilterSubseq<T(!new)>(s: seq<T>, p: T -> bool)
    ensures Subseq(Filter(s, p), s)
  {
    if s != [] {
      FilterSubseq(s[1..], p);
      if !p(s[0]) && Filter(s[1..], p) != [] {
        assert Filter(s, p) == Filter(s[1..], p);
      }
    }
  }

  /** Filtering a sequence extended by one element extends the filtered
      sequence by that element exactly when it satisfies `p`. */
  lemma {:induction false} FilterAppend<T(!new)>(s: seq<T>, x: T, p: T -> bool)
    ensures Filter(s + [x], p) == Filter(s, p) + (if p(x) then [x] else [])
  {
    if s == [] {
      assert [] + [x] == [x];
    } else {
      var head := if p(s[0]) then [s[0]] else [];
      var tail := if p(x) then [x] else [];
      assert (s + [x])[0] == s[0];
      assert (s + [x])[1..] == s[1..] + [x];
      assert Filter(s + [x], p) == head + Filter(s[1..] + [x], p);
      FilterAppend(s[1..], x, p);
      var rest := Filter(s[1..], p);
      assert Filter(s + [x], p) == head + (rest + tail);
      assert head + (rest + tail) == (head + rest) + tail;
      assert Filter(s, p) == head + rest;
    }
  }

  /** A filter that keeps every element is the identity. */
  lemma {:induction false} FilterAll<T(!new)>(s: seq<T>, p: T -> bool)
    requires forall x :: x in s ==> p(x)
    ensures Filter(s, p) == s
  {
    if s != [] {
      FilterAll(s[1..], p);
    }
  }

  /** Filtering by `p` and by its negation splits `s` in two. */
  lemma {:induction false} FilterPartition<T(!new)>(s: seq<T>, p: T -> bool, q: T -> bool)
    requires forall x :: x in s ==> q(x) == !p(x)
    ensures |Filter(s, p)| + |Filter(s, q)| == |s|
  {
    if s != [] {
      FilterPartition(s[1..], p, q);
    }
  }

  /** `s.filter(x => keep.includes(x))`, which is also what Java's
      `s.retainAll(keep)` leaves in the list: the elements of `s` that occur in
      `keep`, in the order of `s`, duplicates of `s` included. */
  function KeepIn<T(==,!new)>(s: seq<T>, keep: seq<T>): (r: seq<T>)
    ensures |r| <= |s|
    ensures forall x :: x in r <==> x in s && x in keep
  {
    if s == [] then []
    else KeepIn(s[..|s| - 1], keep) + (if s[|s| - 1] in keep then [s[|s| - 1]] else [])
  }

  /** `f` applied to every element, in order. */
  function Apply<A, B>(s: seq<A>, f: A -> B): (r: seq<B>)
    ensures |r| == |s|
    ensures forall k :: 0 <= k < |s| ==> r[k] == f(s[k])
  {
    if s == [] then [] else Apply(s[..|s| - 1], f) + [f(s[|s| - 1])]
  }

  lemma ApplyAppend<A, B>(s: seq<A>, x: A, f: A -> B)
    ensures Apply(s + [x], f) == Apply(s, f) + [f(x)]
  {
    assert (s + [x])[..|s|] == s;
  }

  /** `KeepIn` only deletes elements: the order of `s` is preserved. */
  lemma {:induction false} KeepInSubseq<T(!new)>(s: seq<T>, keep: seq<T>)
    ensures Subseq(KeepIn(s, keep), s)
    decreases |s|
  {
    if s != [] {
      var init, x := s[..|s| - 1], s[|s| - 1];
      KeepInSubseq(init, keep);
      SubseqAppend(KeepIn(init, keep), init, if x in keep then [x] else [x][..0], [x]);
      assert init + [x] == s;
    }
  }

  /** `KeepIn` keeps every copy of a kept element and no copy of any other:
      duplicates of `s` survive as often as they occur. */
  lemma {:induction false} KeepInCounts<T(!new)>(s: seq<T>, keep: seq<T>)
    ensures forall x :: multiset(KeepIn(s, keep))[x] == if x in keep then multiset(s)[x] else 0
    decreases |s|
  {
    if s != [] {
      var init, y := s[..|s| - 1], s[|s| - 1];
      KeepInCounts(init, keep);
      assert s == init + [y];
      assert multiset(s) == multiset(init) + multiset{y};
      var tail := if y in keep then [y] else [];
      assert multiset(KeepIn(s, keep)) == multiset(KeepIn(init, keep)) + multiset(tail);
    }
  }

  lemma {:induction false} SubseqAppend<T>(a: seq<T>, b: seq<T>, c: seq<T>, d: seq<T>)
    requires Subseq(a, b) && Subseq(c, d)
    ensures Subseq(a + c, b + d)
    decreases |b| + |d|
  {
    if a == [] {
      if c != [] {
        if b == [] {
          assert a + c == c && b + d == d;
        } else {
          SubseqAppend(a, b[1..], c, d);
          assert (b + d)[1..] == b[1..] + d;
        }
      }
    } else {
      assert (a + c)[0] == a[0] && (a + c)[1..] == a[1..] + c;
      assert (b + d)[0] == b[0] && (b + d)[1..] == b[1..] + d;
      if a[0] == b[0] && Subseq(a[1..], b[1..]) {
        SubseqAppend(a[1..], b[1..], c, d);
      } else {
        SubseqAppend(a, b[1..], c, d);
      }
    }
  }

  /** Keeping elements of a duplicate-free sequence gives one too. */
  lemma {:induction false} KeepInNoDups<T(!new)>(s: seq<T>, keep: seq<T>)
    requires NoDups(s)
    ensures NoDups(KeepIn(s, keep))
    decreases |s|
  {
    if s != [] {
      var init := s[..|s| - 1];
      assert NoDups(init);
      KeepInNoDups(init, keep);
    }
  }

  /** Index of the first occurrence of `x` in `s`. */
  function FirstIndex<T(==)>(s: seq<T>, x: T): (i: nat)
    requires x in s
    ensures i < |s| && s[i] == x && x !in s[..i]
  {
    if s[0] == x then 0 else 1 + FirstIndex(s[1..], x)
  }

  /** The first occurrence of `x` does not move when `s` is extended. */
  lemma {:induction false} FirstIndexExtend<T>(s: seq<T>, t: seq<T>, x: T)
    requires x in s
    ensures FirstIndex(s + t, x) == FirstIndex(s, x)
  {
    if s[0] != x {
      assert (s + t)[1..] == s[1..] + t;
      FirstIndexExtend(s[1..], t, x);
    }
  }

  /** `Array.from(new Set(s))`: each distinct element once, in the order of
      its first occurrence in `s` (a `Set` remembers insertion order and
      ignores repeated insertions). */
  function Dedup<T(==,!new)>(s: seq<T>): (r: seq<T>)
    ensures NoDups(r)
    ensures forall x :: x in r <==> x in s
  {
    if s == [] then []
    else
      var d, x := Dedup(s[..|s| - 1]), s[|s| - 1];
      assert forall y :: y in s <==> y in s[..|s| - 1] || y == x;
      if x in d then d else d + [x]
  }

  /** The elements of `Dedup(s)` appear in the order of their first
      occurrence in `s`. */
  lemma {:induction false} DedupFirstOccurrenceOrder<T(!new)>(s: seq<T>, i: nat, j: nat)
    requires i < j < |Dedup(s)|
    ensures FirstIndex(s, Dedup(s)[i]) < FirstIndex(s, Dedup(s)[j])
    decreases |s|
  {
    var init, x := s[..|s| - 1], s[|s| - 1];
    assert s == init + [x];
    var d := Dedup(init);
    var r := Dedup(s);
    assert r[i] in init;
    FirstIndexExtend(init, [x], r[i]);
    if j < |d| {
      assert r[j] in init;
      FirstIndexExtend(init, [x], r[j]);
      DedupFirstOccurrenceOrder(init, i, j);
    } else {
      assert x !in init && r[j] == x;
      assert FirstIndex(s, x) == |init|;
    }
  }
}
