/** The row order of pandas' `sort_values` over several columns: rows are
    compared column by column, missing values sort last, and rows whose sort
    columns are all equal keep their input order (the multi-column sort is
    stable). */
module Ordering {
  import opened Text

  /** One sort column's value in one row. */
  datatype KeyPart = Int(i: int) | Str(s: string) | Na

  /** Ascending order on one column, missing values last. */
  predicate PartLe(a: KeyPart, b: KeyPart)
  {
    match (a, b)
    case (Int(x), Int(y)) => x <= y
    case (Str(x), Str(y)) => StrLe(x, y)
    case (_, Na) => true
    case (Na, _) => false
    case (Int(_), Str(_)) => true
    case (Str(_), Int(_)) => false
  }

  /** Lexicographic order on the sort columns of two rows. */
  predicate KeyLe(a: seq<KeyPart>, b: seq<KeyPart>)
  {
    if a == [] then true
    else if b == [] then false
    else if a[0] != b[0] then PartLe(a[0], b[0])
    else KeyLe(a[1..], b[1..])
  }

  lemma PartLeTotal(a: KeyPart, b: KeyPart)
    ensures PartLe(a, b) || PartLe(b, a)
  {
    if a.Str? && b.Str? {
      StrLeTotal(a.s, b.s);
    }
  }

  lemma PartLeTransitive(a: KeyPart, b: KeyPart, c: KeyPart)
    requires PartLe(a, b) && PartLe(b, c)
    ensures PartLe(a, c)
  {
    if a.Str? && b.Str? && c.Str? {
      StrLeTransitive(a.s, b.s, c.s);
    }
  }

  lemma PartLeAntisymmetric(a: KeyPart, b: KeyPart)
    requires PartLe(a, b) && PartLe(b, a)
    ensures a == b
  {
    if a.Str? && b.Str? {
      StrLeAntisymmetric(a.s, b.s);
    }
  }

  lemma {:induction false} KeyLeTotal(a: seq<KeyPart>, b: seq<KeyPart>)
    ensures KeyLe(a, b) || KeyLe(b, a)
  {
    if a != [] && b != [] {
      if a[0] != b[0] {
        PartLeTotal(a[0], b[0]);
      } else {
        KeyLeTotal(a[1..], b[1..]);
      }
    }
  }

  lemma KeyLeReflexive(a: seq<KeyPart>)
    ensures KeyLe(a, a)
  {
    KeyLeTotal(a, a);
  }

  lemma KeyAboveDiffers(a: seq<KeyPart>, b: seq<KeyPart>)
    requires !KeyLe(a, b)
    ensures a != b
  {
    KeyLeReflexive(a);
  }

  lemma {:induction false} KeyLeTransitive(a: seq<KeyPart>, b: seq<KeyPart>, c: seq<KeyPart>)
    requires KeyLe(a, b) && KeyLe(b, c)
    ensures KeyLe(a, c)
  {
    if a != [] && b != [] && c != [] {
      if a[0] == b[0] && b[0] == c[0] {
        KeyLeTransitive(a[1..], b[1..], c[1..]);
      } else if a[0] == b[0] {
      } else if b[0] == c[0] {
      } else {
        PartLeTransitive(a[0], b[0], c[0]);
        if a[0] == c[0] {
          PartLeAntisymmetric(a[0], b[0]);
        }
      }
    }
  }

  lemma {:induction false} KeyLeAntisymmetric(a: seq<KeyPart>, b: seq<KeyPart>)
    requires KeyLe(a, b) && KeyLe(b, a)
    ensures a == b
  {
    if a != [] && b != [] {
      if a[0] != b[0] {
        PartLeAntisymmetric(a[0], b[0]);
      } else {
        KeyLeAntisymmetric(a[1..], b[1..]);
        assert a == [a[0]] + a[1..] && b == [b[0]] + b[1..];
      }
    }
  }

  // ---------------- stable sort ----------------

  ghost predicate SortedBy<T>(s: seq<T>, key: T -> seq<KeyPart>)
  {
    forall i, j :: 0 <= i < j < |s| ==> KeyLe(key(s[i]), key(s[j]))
  }

  /** Two sorted runs, every key of the first at or below every key of the
      second, make one sorted sequence. */
  lemma SortedAppend<T>(a: seq<T>, b: seq<T>, key: T -> seq<KeyPart>)
    requires SortedBy(a, key) && SortedBy(b, key)
    requires forall i, j :: 0 <= i < |a| && 0 <= j < |b| ==> KeyLe(key(a[i]), key(b[j]))
    ensures SortedBy(a + b, key)
  {
    var s := a + b;
    forall i, j | 0 <= i < j < |s|
      ensures KeyLe(key(s[i]), key(s[j]))
    {
      if j < |a| {
        assert s[i] == a[i] && s[j] == a[j];
      } else if i < |a| {
        assert s[i] == a[i] && s[j] == b[j - |a|];
      } else {
        assert s[i] == b[i - |a|] && s[j] == b[j - |a|];
      }
    }
  }

  /** The rows of `s` whose sort columns equal `k`, in order. */
  function WithKey<T>(s: seq<T>, key: T -> seq<KeyPart>, k: seq<KeyPart>): seq<T>
  {
    if s == [] then []
    else (if key(s[0]) == k then [s[0]] else []) + WithKey(s[1..], key, k)
  }

  /** Puts `x` in front of the first element whose key is not below its own. */
  function Insert<T>(x: T, s: seq<T>, key: T -> seq<KeyPart>): seq<T>
  {
    if s == [] then [x]
    else if KeyLe(key(x), key(s[0])) then [x] + s
    else [s[0]] + Insert(x, s[1..], key)
  }

  /** `sort_values` on the columns `key` selects. */
  function SortBy<T>(s: seq<T>, key: T -> seq<KeyPart>): seq<T>
  {
    if s == [] then [] else Insert(s[0], SortBy(s[1..], key), key)
  }

  lemma {:induction false} InsertPermutes<T>(x: T, s: seq<T>, key: T -> seq<KeyPart>)
    ensures multiset(Insert(x, s, key)) == multiset(s) + multiset{x}
  {
    if s != [] && !KeyLe(key(x), key(s[0])) {
      InsertPermutes(x, s[1..], key);
      assert s == [s[0]] + s[1..];
    }
  }

  lemma {:induction false} InsertSorted<T>(x: T, s: seq<T>, key: T -> seq<KeyPart>)
    requires SortedBy(s, key)
    ensures SortedBy(Insert(x, s, key), key)
  {
    if s == [] {
    } else if KeyLe(key(x), key(s[0])) {
      var r := [x] + s;
      forall i, j | 0 <= i < j < |r|
        ensures KeyLe(key(r[i]), key(r[j]))
      {
        if i == 0 && j > 1 {
          KeyLeTransitive(key(x), key(s[0]), key(s[j - 1]));
        }
      }
    } else {
      KeyLeTotal(key(x), key(s[0]));
      InsertSorted(x, s[1..], key);
      InsertPermutes(x, s[1..], key);
      var tail := Insert(x, s[1..], key);
      var r := [s[0]] + tail;
      forall i, j | 0 <= i < j < |r|
        ensures KeyLe(key(r[i]), key(r[j]))
      {
        if i == 0 {
          assert tail[j - 1] in multiset(tail);
          assert tail[j - 1] in multiset(s[1..]) + multiset{x};
          if tail[j - 1] != x {
            var k :| 0 <= k < |s[1..]| && s[1..][k] == tail[j - 1];
            assert s[k + 1] == tail[j - 1];
          }
        }
      }
    }
  }

  /** Sorting rearranges the rows without adding or losing any. */
  lemma {:induction false} SortByPermutes<T>(s: seq<T>, key: T -> seq<KeyPart>)
    ensures multiset(SortBy(s, key)) == multiset(s)
    ensures |SortBy(s, key)| == |s|
  {
    if s != [] {
      SortByPermutes(s[1..], key);
      InsertPermutes(s[0], SortBy(s[1..], key), key);
      assert s == [s[0]] + s[1..];
    }
    assert |multiset(SortBy(s, key))| == |SortBy(s, key)|;
  }

  /** Sorting orders the rows by their key, ascending. */
  lemma {:induction false} SortBySorted<T>(s: seq<T>, key: T -> seq<KeyPart>)
    ensures SortedBy(SortBy(s, key), key)
  {
    if s != [] {
      SortBySorted(s[1..], key);
      InsertSorted(s[0], SortBy(s[1..], key), key);
    }
  }

  lemma WithKeyCons<T>(x: T, s: seq<T>, key: T -> seq<KeyPart>, k: seq<KeyPart>)
    ensures WithKey([x] + s, key, k) == (if key(x) == k then [x] else []) + WithKey(s, key, k)
  {
    assert ([x] + s)[0] == x && ([x] + s)[1..] == s;
  }

  /** One step of `InsertStable`: `x` passes over a first element ranked
      below it. */
  lemma InsertPastStable<T>(x: T, s: seq<T>, key: T -> seq<KeyPart>, k: seq<KeyPart>)
    requires s != [] && !KeyLe(key(x), key(s[0]))
    requires WithKey(Insert(x, s[1..], key), key, k)
          == (if key(x) == k then [x] else []) + WithKey(s[1..], key, k)
    ensures WithKey(Insert(x, s, key), key, k)
         == (if key(x) == k then [x] else []) + WithKey(s, key, k)
  {
    var ins := Insert(x, s[1..], key);
    assert Insert(x, s, key) == [s[0]] + ins;
    WithKeyCons(s[0], ins, key, k);
    KeyAboveDiffers(key(x), key(s[0]));
  }

  lemma {:induction false} InsertStable<T>(x: T, s: seq<T>, key: T -> seq<KeyPart>, k: seq<KeyPart>)
    ensures WithKey(Insert(x, s, key), key, k)
         == (if key(x) == k then [x] else []) + WithKey(s, key, k)
  {
    if s == [] || KeyLe(key(x), key(s[0])) {
      WithKeyCons(x, s, key, k);
    } else {
      InsertStable(x, s[1..], key, k);
      InsertPastStable(x, s, key, k);
    }
  }

  /** Sorting is stable: the rows sharing one key keep their input order. */
  lemma {:induction false} SortByStable<T>(s: seq<T>, key: T -> seq<KeyPart>, k: seq<KeyPart>)
    ensures WithKey(SortBy(s, key), key, k) == WithKey(s, key, k)
  {
    if s != [] {
      SortByStable(s[1..], key, k);
      InsertStable(s[0], SortBy(s[1..], key), key, k);
    }
  }
}
