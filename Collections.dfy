/** Sequence operations behind pandas' `drop_duplicates` and the counting
    done by `crosstab`. */
module Collections {

  predicate NoDuplicates<T(==)>(s: seq<T>)
  {
    forall i, j :: 0 <= i < j < |s| ==> s[i] != s[j]
  }

  /** Element `i` of the middle part of a three-part concatenation. */
  lemma IndexMiddle<T>(x: seq<T>, h: seq<T>, y: seq<T>, i: nat)
    requires i < |h|
    ensures |x| + |h| <= |x + (h + y)| && (x + (h + y))[|x| + i] == h[i]
  {
  }

  /** `x` is `h` followed by `y`, and `y` splits as `jt` then `jb`; `z` is
      `h` followed by `jt`: then `x` is `z` followed by `jb`. */
  lemma AppendRegroup<T>(x: seq<T>, z: seq<T>, h: seq<T>, y: seq<T>, jt: seq<T>, jb: seq<T>)
    requires x == h + y && y == jt + jb && z == h + jt
    ensures x == z + jb
  {
    AppendAssoc(h, jt, jb);
  }

  lemma AppendAssoc<T>(x: seq<T>, y: seq<T>, z: seq<T>)
    ensures x + (y + z) == (x + y) + z
  {
  }

  /** `drop_duplicates`: the first occurrence of each value, in input order. */
  function Distinct<T(==)>(s: seq<T>): seq<T>
  {
    if s == [] then []
    else
      var d := Distinct(s[..|s| - 1]);
      if s[|s| - 1] in d then d else d + [s[|s| - 1]]
  }

  /** Deduplication leaves no repeated value and loses no value. */
  lemma {:induction false} DistinctSpec<T>(s: seq<T>)
    ensures NoDuplicates(Distinct(s))
    ensures forall x :: x in Distinct(s) <==> x in s
  {
    if s != [] {
      var init := s[..|s| - 1];
      DistinctSpec(init);
      assert s == init + [s[|s| - 1]];
    }
  }

  /** A sequence that already has no duplicates is left as it is, so
      deduplication is idempotent. */
  lemma {:induction false} DistinctOfNoDuplicates<T>(s: seq<T>)
    requires NoDuplicates(s)
    ensures Distinct(s) == s
  {
    if s != [] {
      var init := s[..|s| - 1];
      DistinctOfNoDuplicates(init);
      assert s[|s| - 1] !in init;
      assert s == init + [s[|s| - 1]];
    }
  }

  /** A sequence without duplicates has as many distinct values as elements. */
  lemma {:induction false} NoDuplicatesCard<T>(s: seq<T>)
    requires NoDuplicates(s)
    ensures |set x | x in s| == |s|
  {
    if s != [] {
      var init := s[..|s| - 1];
      NoDuplicatesCard(init);
      assert s == init + [s[|s| - 1]];
      assert (set x | x in s) == (set x | x in init) + {s[|s| - 1]};
    }
  }

  /** Rearranging a sequence without duplicates keeps it without duplicates. */
  lemma NoDuplicatesPermutation<T>(s: seq<T>, t: seq<T>)
    requires multiset(s) == multiset(t) && NoDuplicates(s)
    ensures NoDuplicates(t)
  {
    forall x | x in multiset(s)
      ensures multiset(s)[x] == 1
    {
      var i :| 0 <= i < |s| && s[i] == x;
      MultiplicityOne(s, i);
    }
    forall i, j | 0 <= i < j < |t|
      ensures t[i] != t[j]
    {
      if t[i] == t[j] {
        TwoOccurrences(t, i, j);
      }
    }
  }

  lemma TwoOccurrences<T>(t: seq<T>, i: int, j: int)
    requires 0 <= i < j < |t| && t[i] == t[j]
    ensures multiset(t)[t[i]] >= 2
  {
    assert t == t[..i] + [t[i]] + t[i + 1..j] + [t[j]] + t[j + 1..];
  }

  lemma {:induction false} MultiplicityOne<T>(s: seq<T>, i: int)
    requires NoDuplicates(s) && 0 <= i < |s|
    ensures multiset(s)[s[i]] == 1
  {
    assert s == s[..i] + [s[i]] + s[i + 1..];
    assert s[i] !in s[..i];
    assert s[i] !in s[i + 1..];
  }

  // ---------------- counting ----------------

  function Sum(s: seq<nat>): nat
  {
    if s == [] then 0 else s[0] + Sum(s[1..])
  }

  /** Number of elements whose label under `f` is `v`. */
  function CountWith<T>(s: seq<T>, f: T -> string, v: string): nat
  {
    if s == [] then 0 else (if f(s[0]) == v then 1 else 0) + CountWith(s[1..], f, v)
  }

  /** Number of elements whose label under `f` is one of `labels`. */
  function CountIn<T>(s: seq<T>, f: T -> string, labels: seq<string>): nat
  {
    if s == [] then 0 else (if f(s[0]) in labels then 1 else 0) + CountIn(s[1..], f, labels)
  }

  /** The count for each label, in the order of `labels`. */
  function CountsFor<T>(s: seq<T>, f: T -> string, labels: seq<string>): (r: seq<nat>)
    ensures |r| == |labels|
  {
    seq(|labels|, j requires 0 <= j < |labels| => CountWith(s, f, labels[j]))
  }

  lemma {:induction false} CountInCons<T>(s: seq<T>, f: T -> string, v: string, labels: seq<string>)
    requires v !in labels
    ensures CountIn(s, f, [v] + labels) == CountWith(s, f, v) + CountIn(s, f, labels)
  {
    if s != [] {
      CountInCons(s[1..], f, v, labels);
    }
  }

  lemma {:induction false} CountInAll<T>(s: seq<T>, f: T -> string, labels: seq<string>)
    requires forall x :: x in s ==> f(x) in labels
    ensures CountIn(s, f, labels) == |s|
  {
    if s != [] {
      CountInAll(s[1..], f, labels);
    }
  }

  /** Counting per label and adding up gives the number of elements that
      carry one of the labels, when no label is listed twice. */
  lemma {:induction false} SumCountsIsCountIn<T>(s: seq<T>, f: T -> string, labels: seq<string>)
    requires NoDuplicates(labels)
    ensures Sum(CountsFor(s, f, labels)) == CountIn(s, f, labels)
  {
    if labels == [] {
      CountInNone(s, f);
    } else {
      var rest := labels[1..];
      assert NoDuplicates(rest);
      SumCountsIsCountIn(s, f, rest);
      assert CountsFor(s, f, labels)[1..] == CountsFor(s, f, rest);
      assert labels == [labels[0]] + rest;
      CountInCons(s, f, labels[0], rest);
    }
  }

  lemma {:induction false} CountInNone<T>(s: seq<T>, f: T -> string)
    ensures CountIn(s, f, []) == 0
  {
    if s != [] {
      CountInNone(s[1..], f);
    }
  }

  /** When the labels are distinct and cover every element, the per-label
      counts add up to the number of elements. */
  lemma SumCountsIsLength<T>(s: seq<T>, f: T -> string, labels: seq<string>)
    requires NoDuplicates(labels)
    requires forall x :: x in s ==> f(x) in labels
    ensures Sum(CountsFor(s, f, labels)) == |s|
  {
    SumCountsIsCountIn(s, f, labels);
    CountInAll(s, f, labels);
  }
}
