/**
 * Python's stable sort with a `key=` function, as used by both autocomplete
 * versions: `sorted(s, key=...)` on a list value and `lst.sort(key=...)` in
 * place. The sort is written as an insertion sort that places each element
 * before the first later-sorted element whose key is not smaller, which is
 * the stable order; the lemmas below state that it is ordered by the key,
 * a permutation of its input, and that elements with equal keys keep their
 * input order.
 */
module Sorting {
  import opened Text

  /** The order on keys is total and transitive (what Python's sort needs
      of `<` on the keys it compares). */
  ghost predicate TotalPreorder<K(!new)>(le: (K, K) -> bool) {
    (forall a, b :: le(a, b) || le(b, a)) &&
    (forall a, b, c :: le(a, b) && le(b, c) ==> le(a, c))
  }

  /** Every key is at most every later one. */
  ghost predicate SortedBy<T, K>(s: seq<T>, key: T -> K, le: (K, K) -> bool) {
    forall i, j :: 0 <= i < j < |s| ==> le(key(s[i]), key(s[j]))
  }

  /** `False < True`, as for Python's `bool` keys. */
  predicate BoolLe(a: bool, b: bool) {
    !a || b
  }

  /** Python's order on `(bool, str)` tuples: by the flag, then by the string. */
  predicate PairLe(a: (bool, string), b: (bool, string)) {
    (!a.0 && b.0) || (a.0 == b.0 && LexLe(a.1, b.1))
  }

  /** The elements of `s` whose `f`-value is `v`, in their order in `s`. */
  function KeyFilter<T, K(==)>(s: seq<T>, f: T -> K, v: K): (r: seq<T>)
    ensures |r| <= |s|
    ensures forall i :: 0 <= i < |r| ==> f(r[i]) == v
  {
    if s == [] then []
    else (if f(s[0]) == v then [s[0]] else []) + KeyFilter(s[1..], f, v)
  }

  /** `KeyFilter` keeps exactly the elements with the given value. */
  lemma {:induction false} KeyFilterMembers<T, K>(s: seq<T>, f: T -> K, v: K, x: T)
    ensures x in KeyFilter(s, f, v) <==> x in s && f(x) == v
  {
    if s != [] {
      KeyFilterMembers(s[1..], f, v, x);
      assert s == [s[0]] + s[1..];
    }
  }

  /** `KeyFilter` of a sequence with a given first element. */
  lemma KeyFilterCons<T, K>(y: T, t: seq<T>, f: T -> K, v: K)
    ensures KeyFilter([y] + t, f, v) == (if f(y) == v then [y] else []) + KeyFilter(t, f, v)
  {
    assert ([y] + t)[0] == y && ([y] + t)[1..] == t;
  }

  /** Places `x` in front of the first element of `t` whose key is not
      smaller than its own. */
  function Insert<T, K>(x: T, t: seq<T>, key: T -> K, le: (K, K) -> bool): (r: seq<T>)
    ensures |r| == |t| + 1
  {
    if t == [] then [x]
    else if le(key(x), key(t[0])) then [x] + t
    else [t[0]] + Insert(x, t[1..], key, le)
  }

  /** Python's `sorted(s, key=key)`, a stable sort. */
  function SortBy<T, K>(s: seq<T>, key: T -> K, le: (K, K) -> bool): (r: seq<T>)
    ensures |r| == |s|
  {
    if s == [] then [] else Insert(s[0], SortBy(s[1..], key, le), key, le)
  }

  /** `SortBy` on a sequence with a given head inserts the head into the
      sorted rest. */
  lemma SortByCons<T, K>(x: T, rest: seq<T>, key: T -> K, le: (K, K) -> bool)
    ensures SortBy([x] + rest, key, le) == Insert(x, SortBy(rest, key, le), key, le)
  {
    assert ([x] + rest)[0] == x && ([x] + rest)[1..] == rest;
  }

  /** An element whose key is at most the first key goes in front. */
  lemma InsertInFront<T, K>(x: T, t: seq<T>, key: T -> K, le: (K, K) -> bool)
    requires t == [] || le(key(x), key(t[0]))
    ensures Insert(x, t, key, le) == [x] + t
  {
  }

  /** `Insert` adds exactly its element. */
  lemma {:induction false} InsertPermutes<T, K>(x: T, t: seq<T>, key: T -> K, le: (K, K) -> bool)
    ensures multiset(Insert(x, t, key, le)) == multiset(t) + multiset{x}
  {
    if t != [] && !le(key(x), key(t[0])) {
      InsertPermutes(x, t[1..], key, le);
      assert t == [t[0]] + t[1..];
    }
  }

  /** `sorted` returns a permutation of its input. */
  lemma {:induction false} SortByPermutes<T, K>(s: seq<T>, key: T -> K, le: (K, K) -> bool)
    ensures multiset(SortBy(s, key, le)) == multiset(s)
  {
    if s != [] {
      SortByPermutes(s[1..], key, le);
      InsertPermutes(s[0], SortBy(s[1..], key, le), key, le);
      assert s == [s[0]] + s[1..];
    }
  }

  lemma LexLeIsTotalPreorder()
    ensures TotalPreorder(LexLe)
  {
    forall a, b ensures LexLe(a, b) || LexLe(b, a) {
      LexLeTotal(a, b);
    }
    forall a, b, c | LexLe(a, b) && LexLe(b, c) ensures LexLe(a, c) {
      LexLeTransitive(a, b, c);
    }
  }

  /** Inserting into a sorted sequence keeps it sorted. */
  lemma {:induction false} InsertSorted<T, K(!new)>(x: T, t: seq<T>, key: T -> K, le: (K, K) -> bool)
    requires TotalPreorder(le) && SortedBy(t, key, le)
    ensures SortedBy(Insert(x, t, key, le), key, le)
  {
    if t != [] && !le(key(x), key(t[0])) {
      var rest := t[1..];
      InsertSorted(x, rest, key, le);
      var ins := Insert(x, rest, key, le);
      InsertPermutes(x, rest, key, le);
      var r := [t[0]] + ins;
      forall j | 0 < j < |r| ensures le(key(r[0]), key(r[j])) {
        var y := r[j];
        assert y in multiset(ins);
        if y == x {
        } else {
          assert y in multiset(rest);
          var p :| 0 <= p < |rest| && rest[p] == y;
          assert t[p + 1] == y;
        }
      }
    }
  }

  /** `sorted` returns its elements in key order. */
  lemma {:induction false} SortBySorted<T, K(!new)>(s: seq<T>, key: T -> K, le: (K, K) -> bool)
    requires TotalPreorder(le)
    ensures SortedBy(SortBy(s, key, le), key, le)
  {
    if s != [] {
      SortBySorted(s[1..], key, le);
      InsertSorted(s[0], SortBy(s[1..], key, le), key, le);
    }
  }

  /** Inserting into a sorted sequence and then selecting by any property
      is the same as selecting first and inserting afterwards. */
  lemma {:induction false} InsertKeyFilter<T, K(!new), V>(x: T, t: seq<T>, key: T -> K, le: (K, K) -> bool, f: T -> V, v: V)
    requires TotalPreorder(le) && SortedBy(t, key, le)
    ensures KeyFilter(Insert(x, t, key, le), f, v)
         == if f(x) == v then Insert(x, KeyFilter(t, f, v), key, le) else KeyFilter(t, f, v)
  {
    if t == [] || le(key(x), key(t[0])) {
      InsertKeyFilterFront(x, t, key, le, f, v);
    } else {
      InsertKeyFilter(x, t[1..], key, le, f, v);
      InsertKeyFilterSkip(x, t[0], t[1..], key, le, f, v);
      assert [t[0]] + t[1..] == t;
    }
  }

  /** `InsertKeyFilter` when `x` goes in front. */
  lemma InsertKeyFilterFront<T, K(!new), V>(x: T, t: seq<T>, key: T -> K, le: (K, K) -> bool, f: T -> V, v: V)
    requires TotalPreorder(le) && SortedBy(t, key, le)
    requires t == [] || le(key(x), key(t[0]))
    ensures KeyFilter(Insert(x, t, key, le), f, v)
         == if f(x) == v then Insert(x, KeyFilter(t, f, v), key, le) else KeyFilter(t, f, v)
  {
    InsertInFront(x, t, key, le);
    KeyFilterCons(x, t, f, v);
    var ft := KeyFilter(t, f, v);
    if ft != [] {
      KeyFilterMembers(t, f, v, ft[0]);
      var p :| 0 <= p < |t| && t[p] == ft[0];
      assert p == 0 || le(key(t[0]), key(t[p]));
      assert le(key(x), key(ft[0]));
    }
    InsertInFront(x, ft, key, le);
  }

  /** An element whose key is not at most the first key goes past it. */
  lemma InsertPastHead<T, K>(x: T, y: T, t: seq<T>, key: T -> K, le: (K, K) -> bool)
    requires !le(key(x), key(y))
    ensures Insert(x, [y] + t, key, le) == [y] + Insert(x, t, key, le)
  {
    assert ([y] + t)[0] == y && ([y] + t)[1..] == t;
  }

  /** `InsertKeyFilter` when `x` goes past the first element, given the
      statement for the rest. */
  lemma InsertKeyFilterSkip<T, K, V>(x: T, y: T, t: seq<T>, key: T -> K, le: (K, K) -> bool, f: T -> V, v: V)
    requires !le(key(x), key(y))
    requires KeyFilter(Insert(x, t, key, le), f, v)
          == if f(x) == v then Insert(x, KeyFilter(t, f, v), key, le) else KeyFilter(t, f, v)
    ensures KeyFilter(Insert(x, [y] + t, key, le), f, v)
         == if f(x) == v then Insert(x, KeyFilter([y] + t, f, v), key, le) else KeyFilter([y] + t, f, v)
  {
    var ins := Insert(x, t, key, le);
    var ft := KeyFilter(t, f, v);
    InsertPastHead(x, y, t, key, le);
    KeyFilterCons(y, ins, f, v);
    KeyFilterCons(y, t, f, v);
    if f(x) == v && f(y) == v {
      InsertPastHead(x, y, ft, key, le);
    } else if f(x) == v {
      assert [] + ft == ft;
    }
  }

  /** Selecting from a sorted list is sorting the selection: `sorted` commutes
      with any filter. */
  lemma {:induction false} SortByKeyFilter<T, K(!new), V>(s: seq<T>, key: T -> K, le: (K, K) -> bool, f: T -> V, v: V)
    requires TotalPreorder(le)
    ensures KeyFilter(SortBy(s, key, le), f, v) == SortBy(KeyFilter(s, f, v), key, le)
  {
    if s != [] {
      SortByKeyFilter(s[1..], key, le, f, v);
      SortBySorted(s[1..], key, le);
      InsertKeyFilter(s[0], SortBy(s[1..], key, le), key, le, f, v);
      KeyFilterCons(s[0], s[1..], f, v);
      assert [s[0]] + s[1..] == s;
      var fs, fs1 := KeyFilter(s, f, v), KeyFilter(s[1..], f, v);
      assert KeyFilter(SortBy(s, key, le), f, v)
          == if f(s[0]) == v then Insert(s[0], SortBy(fs1, key, le), key, le) else SortBy(fs1, key, le);
      if f(s[0]) == v {
        assert fs == [s[0]] + fs1;
        assert fs[0] == s[0] && fs[1..] == fs1;
        assert SortBy(fs, key, le) == Insert(s[0], SortBy(fs1, key, le), key, le);
      } else {
        assert fs == fs1;
      }
    }
  }

  /** Sorting a sequence whose keys are all equal leaves it as it is. */
  lemma {:induction false} SortByEqualKeys<T, K(!new)>(s: seq<T>, key: T -> K, le: (K, K) -> bool, k: K)
    requires TotalPreorder(le)
    requires forall x :: x in s ==> key(x) == k
    ensures SortBy(s, key, le) == s
  {
    if s != [] {
      SortByEqualKeys(s[1..], key, le, k);
      assert le(k, k);
      assert [s[0]] + s[1..] == s;
    }
  }

  /** Stability: the elements that share a key come out in their input order. */
  lemma SortByStable<T, K(!new)>(s: seq<T>, key: T -> K, le: (K, K) -> bool, k: K)
    requires TotalPreorder(le)
    ensures KeyFilter(SortBy(s, key, le), key, k) == KeyFilter(s, key, k)
  {
    SortByKeyFilter(s, key, le, key, k);
    SortByEqualKeys(KeyFilter(s, key, k), key, le, k);
  }

  /** An element with key `True` goes past the `False` block and in front of
      the `True` block. */
  lemma {:induction false} InsertPastFalse<T>(x: T, a: seq<T>, b: seq<T>, flag: T -> bool)
    requires flag(x)
    requires forall i :: 0 <= i < |a| ==> !flag(a[i])
    requires forall i :: 0 <= i < |b| ==> flag(b[i])
    ensures Insert(x, a + b, flag, BoolLe) == a + [x] + b
  {
    if a == [] {
      assert a + b == b;
    } else {
      assert (a + b)[1..] == a[1..] + b;
      InsertPastFalse(x, a[1..], b, flag);
      assert [a[0]] + (a[1..] + [x] + b) == a + [x] + b;
    }
  }

  /** A stable sort on a `bool` key is the stable partition: the `False`
      elements in input order, then the `True` ones in input order. */
  lemma {:induction false} SortByBoolIsPartition<T>(s: seq<T>, flag: T -> bool)
    ensures SortBy(s, flag, BoolLe) == KeyFilter(s, flag, false) + KeyFilter(s, flag, true)
  {
    if s != [] {
      SortByBoolIsPartition(s[1..], flag);
      if flag(s[0]) {
        PartitionConsTrue(s[0], s[1..], flag);
      } else {
        PartitionConsFalse(s[0], s[1..], flag);
      }
      assert [s[0]] + s[1..] == s;
    }
  }

  /** The induction step of `SortByBoolIsPartition` for a `True` head. */
  lemma PartitionConsTrue<T>(x: T, rest: seq<T>, flag: T -> bool)
    requires flag(x)
    requires SortBy(rest, flag, BoolLe) == KeyFilter(rest, flag, false) + KeyFilter(rest, flag, true)
    ensures SortBy([x] + rest, flag, BoolLe)
         == KeyFilter([x] + rest, flag, false) + KeyFilter([x] + rest, flag, true)
  {
    var a, b := KeyFilter(rest, flag, false), KeyFilter(rest, flag, true);
    SortByCons(x, rest, flag, BoolLe);
    KeyFilterCons(x, rest, flag, false);
    KeyFilterCons(x, rest, flag, true);
    assert KeyFilter([x] + rest, flag, false) == a by {
      assert [] + a == a;
    }
    assert Insert(x, a + b, flag, BoolLe) == a + ([x] + b) by {
      InsertPastFalse(x, a, b, flag);
      assert a + [x] + b == a + ([x] + b);
    }
  }

  /** The induction step of `SortByBoolIsPartition` for a `False` head. */
  lemma PartitionConsFalse<T>(x: T, rest: seq<T>, flag: T -> bool)
    requires !flag(x)
    requires SortBy(rest, flag, BoolLe) == KeyFilter(rest, flag, false) + KeyFilter(rest, flag, true)
    ensures SortBy([x] + rest, flag, BoolLe)
         == KeyFilter([x] + rest, flag, false) + KeyFilter([x] + rest, flag, true)
  {
    var a, b := KeyFilter(rest, flag, false), KeyFilter(rest, flag, true);
    SortByCons(x, rest, flag, BoolLe);
    KeyFilterCons(x, rest, flag, false);
    KeyFilterCons(x, rest, flag, true);
    assert KeyFilter([x] + rest, flag, true) == b by {
      assert [] + b == b;
    }
    InsertFalseInFront(x, a, b, flag);
  }

  /** An element with key `False` goes in front of everything. */
  lemma InsertFalseInFront<T>(x: T, a: seq<T>, b: seq<T>, flag: T -> bool)
    requires !flag(x)
    ensures Insert(x, a + b, flag, BoolLe) == ([x] + a) + b
  {
    InsertInFront(x, a + b, flag, BoolLe);
    assert [x] + (a + b) == ([x] + a) + b;
  }

  /** Inserting by the pair key into a `False` block followed by a `True`
      block is inserting by the name into the block of the element's own flag. */
  lemma {:induction false} InsertByRankIntoBlocks<T>(x: T, a: seq<T>, b: seq<T>, flag: T -> bool,
                                                     name: T -> string, rank: T -> (bool, string))
    requires forall y :: rank(y) == (flag(y), name(y))
    requires forall i :: 0 <= i < |a| ==> !flag(a[i])
    requires forall i :: 0 <= i < |b| ==> flag(b[i])
    ensures Insert(x, a + b, rank, PairLe)
         == if flag(x) then a + Insert(x, b, name, LexLe) else Insert(x, a, name, LexLe) + b
  {
    if a == [] {
      assert a + b == b;
      if !flag(x) && b != [] {
        assert PairLe(rank(x), rank(b[0]));
      }
      if flag(x) && b != [] {
        var ins := Insert(x, b[1..], rank, PairLe);
        InsertByRankIntoBlocks(x, [], b[1..], flag, name, rank);
        assert [] + b[1..] == b[1..];
      }
    } else {
      assert (a + b)[1..] == a[1..] + b;
      InsertByRankIntoBlocks(x, a[1..], b, flag, name, rank);
      if flag(x) {
        assert !PairLe(rank(x), rank(a[0]));
        assert [a[0]] + (a[1..] + Insert(x, b, name, LexLe)) == a + Insert(x, b, name, LexLe);
      } else {
        assert PairLe(rank(x), rank(a[0])) == LexLe(name(x), name(a[0]));
        if LexLe(name(x), name(a[0])) {
          assert [x] + (a + b) == [x] + a + b;
        } else {
          assert [a[0]] + (Insert(x, a[1..], name, LexLe) + b)
              == ([a[0]] + Insert(x, a[1..], name, LexLe)) + b;
        }
      }
    }
  }

  /** Sorting a selection keeps it a selection. */
  lemma SortedSelection<T, K, V>(s: seq<T>, f: T -> V, v: V, key: T -> K, le: (K, K) -> bool)
    ensures forall i :: 0 <= i < |SortBy(KeyFilter(s, f, v), key, le)| ==> f(SortBy(KeyFilter(s, f, v), key, le)[i]) == v
  {
    var fs := KeyFilter(s, f, v);
    var r := SortBy(fs, key, le);
    SortByPermutes(fs, key, le);
    forall i | 0 <= i < |r| ensures f(r[i]) == v {
      assert r[i] in multiset(fs);
      var p :| 0 <= p < |fs| && fs[p] == r[i];
    }
  }

  /** Sorting by the pair key (flag, name) is sorting each flag's block by name. */
  lemma {:induction false} SortByRankIsBlocks<T>(s: seq<T>, flag: T -> bool, name: T -> string,
                                                 rank: T -> (bool, string))
    requires forall y :: rank(y) == (flag(y), name(y))
    ensures SortBy(s, rank, PairLe)
         == SortBy(KeyFilter(s, flag, false), name, LexLe) + SortBy(KeyFilter(s, flag, true), name, LexLe)
  {
    if s != [] {
      var x, rest := s[0], s[1..];
      assert s == [x] + rest;
      SortByRankIsBlocks(rest, flag, name, rank);
      RankBlocksCons(x, rest, flag, name, rank);
    }
  }

  /** The induction step of `SortByRankIsBlocks`. */
  lemma RankBlocksCons<T>(x: T, rest: seq<T>, flag: T -> bool, name: T -> string,
                          rank: T -> (bool, string))
    requires forall y :: rank(y) == (flag(y), name(y))
    requires SortBy(rest, rank, PairLe)
          == SortBy(KeyFilter(rest, flag, false), name, LexLe) + SortBy(KeyFilter(rest, flag, true), name, LexLe)
    ensures SortBy([x] + rest, rank, PairLe)
         == SortBy(KeyFilter([x] + rest, flag, false), name, LexLe)
          + SortBy(KeyFilter([x] + rest, flag, true), name, LexLe)
  {
    var s := [x] + rest;
    var fa, fb := KeyFilter(rest, flag, false), KeyFilter(rest, flag, true);
    var a, b := SortBy(fa, name, LexLe), SortBy(fb, name, LexLe);
    SortedSelection(rest, flag, false, name, LexLe);
    SortedSelection(rest, flag, true, name, LexLe);
    InsertByRankIntoBlocks(x, a, b, flag, name, rank);
    SortByCons(x, rest, rank, PairLe);
    KeyFilterCons(x, rest, flag, false);
    KeyFilterCons(x, rest, flag, true);
    if flag(x) {
      assert KeyFilter(s, flag, true) == [x] + fb;
      assert KeyFilter(s, flag, false) == fa by {
        assert [] + fa == fa;
      }
      SortByCons(x, fb, name, LexLe);
    } else {
      assert KeyFilter(s, flag, false) == [x] + fa;
      assert KeyFilter(s, flag, true) == fb by {
        assert [] + fb == fb;
      }
      SortByCons(x, fa, name, LexLe);
    }
  }

  /** Python's order on `(bool, str)` tuples is total and transitive. */
  lemma PairLeIsTotalPreorder()
    ensures TotalPreorder(PairLe)
  {
    forall a: (bool, string), b: (bool, string) ensures PairLe(a, b) || PairLe(b, a) {
      LexLeTotal(a.1, b.1);
    }
    forall a: (bool, string), b: (bool, string), c: (bool, string) | PairLe(a, b) && PairLe(b, c)
      ensures PairLe(a, c)
    {
      if a.0 == b.0 && b.0 == c.0 {
        LexLeTransitive(a.1, b.1, c.1);
      }
    }
  }

  /** The two stable sorts the autocomplete applies, first by name and then by
      a `bool` flag, give the single stable sort by the pair (flag, name). */
  lemma TwoPassIsRankSort<T>(s: seq<T>, flag: T -> bool, name: T -> string, rank: T -> (bool, string))
    requires forall y :: rank(y) == (flag(y), name(y))
    ensures SortBy(SortBy(s, name, LexLe), flag, BoolLe) == SortBy(s, rank, PairLe)
  {
    LexLeIsTotalPreorder();
    var byName := SortBy(s, name, LexLe);
    SortByBoolIsPartition(byName, flag);
    SortByKeyFilter(s, name, LexLe, flag, false);
    SortByKeyFilter(s, name, LexLe, flag, true);
    SortByRankIsBlocks(s, flag, name, rank);
  }

  /** Flag `False` before flag `True`, and by name within one flag. */
  ghost predicate FlagThenNameOrdered<T>(r: seq<T>, flag: T -> bool, name: T -> string) {
    forall i, j :: 0 <= i < j < |r| ==>
      BoolLe(flag(r[i]), flag(r[j])) && (flag(r[i]) == flag(r[j]) ==> LexLe(name(r[i]), name(r[j])))
  }

  /** After the two sorts the flag is non-decreasing, and within one flag
      the name is non-decreasing. */
  lemma TwoPassOrdered<T>(s: seq<T>, flag: T -> bool, name: T -> string)
    ensures FlagThenNameOrdered(SortBy(SortBy(s, name, LexLe), flag, BoolLe), flag, name)
  {
    var rank := (y: T) => (flag(y), name(y));
    TwoPassIsRankSort(s, flag, name, rank);
    PairLeIsTotalPreorder();
    SortBySorted(s, rank, PairLe);
  }

  /** After the two sorts, the elements that agree on both flag and name are
      in their input order. */
  lemma TwoPassStable<T>(s: seq<T>, flag: T -> bool, name: T -> string, rank: T -> (bool, string), k: (bool, string))
    requires forall y :: rank(y) == (flag(y), name(y))
    ensures KeyFilter(SortBy(SortBy(s, name, LexLe), flag, BoolLe), rank, k) == KeyFilter(s, rank, k)
  {
    TwoPassIsRankSort(s, flag, name, rank);
    PairLeIsTotalPreorder();
    SortByStable(s, rank, PairLe, k);
  }

  /** `Insert` written out at the position where the element lands. */
  lemma {:induction false} InsertAt<T, K>(x: T, t: seq<T>, key: T -> K, le: (K, K) -> bool, m: nat)
    requires m <= |t|
    requires forall p :: 0 <= p < m ==> !le(key(x), key(t[p]))
    requires m == |t| || le(key(x), key(t[m]))
    ensures Insert(x, t, key, le) == t[..m] + [x] + t[m..]
  {
    if m == 0 {
      assert t[m..] == t;
    } else {
      var rest := t[1..];
      assert !le(key(x), key(t[0]));
      assert Insert(x, t, key, le) == [t[0]] + Insert(x, rest, key, le);
      forall p | 0 <= p < m - 1
        ensures !le(key(x), key(rest[p]))
      {
        assert rest[p] == t[p + 1];
      }
      assert m - 1 < |rest| ==> rest[m - 1] == t[m];
      InsertAt(x, rest, key, le, m - 1);
      assert t[..m] == [t[0]] + rest[..m - 1];
      assert t[m..] == rest[m - 1..];
    }
  }

  /** Python's `a.sort(key=key)` on a list, in place: the array ends up holding
      `sorted` of what it held. Insertion sort from the right end: the
      suffix from `i` on is always the sorted suffix of the original. */
  method SortInPlace<T, K>(a: array<T>, key: T -> K, le: (K, K) -> bool)
    modifies a
    ensures a[..] == SortBy(old(a[..]), key, le)
  {
    var n := a.Length;
    var i := n;
    while i > 0
      invariant 0 <= i <= n
      invariant a[..i] == old(a[..i])
      invariant a[i..] == SortBy(old(a[..])[i..], key, le)
    {
      i := i - 1;
      ghost var suffix := old(a[..])[i..];
      assert a[i] == old(a[..i + 1])[i] == suffix[0];
      assert suffix[1..] == old(a[..])[i + 1..];
      InsertStep(a, i, key, le);
    }
    assert old(a[..])[0..] == old(a[..]);
  }

  /** A sequence that agrees with `t` before `m`, holds `x` at `m` and agrees
      with `t` shifted by one after `m` is `t` with `x` inserted at `m`. */
  lemma Reassembled<T>(s: seq<T>, t: seq<T>, x: T, m: nat)
    requires m <= |t| && |s| == |t| + 1 && s[m] == x
    requires forall p :: 0 <= p < m ==> s[p] == t[p]
    requires forall p :: m < p < |s| ==> s[p] == t[p - 1]
    ensures s == t[..m] + [x] + t[m..]
  {
  }

  /** One step of `SortInPlace`: moves `a[i]` into the sorted suffix after it. */
  method InsertStep<T, K>(a: array<T>, i: nat, key: T -> K, le: (K, K) -> bool)
    requires i < a.Length
    modifies a
    ensures a[..i] == old(a[..i])
    ensures a[i..] == Insert(old(a[i]), old(a[i + 1..]), key, le)
  {
    var x := a[i];
    ghost var t := a[i + 1..];
    var j := ShiftLeft(a, i, key, le);
    var m := j - i;
    a[j] := x;
    InsertAt(x, t, key, le, m);
    ghost var s := a[i..];
    assert forall p :: 0 <= p < m ==> s[p] == t[p];
    assert forall p :: m < p < |s| ==> s[p] == t[p - 1];
    Reassembled(s, t, x, m);
  }

  /** The scan of `InsertStep`: moves the elements after `a[i]` that must
      precede it one place to the left, and returns the position `j` that
      is left free for it. */
  method ShiftLeft<T, K>(a: array<T>, i: nat, key: T -> K, le: (K, K) -> bool) returns (j: nat)
    requires i < a.Length
    modifies a
    ensures i <= j < a.Length
    ensures forall p :: 0 <= p < i ==> a[p] == old(a[p])
    ensures forall p :: i <= p < j ==> a[p] == old(a[p + 1])
    ensures forall p :: j < p < a.Length ==> a[p] == old(a[p])
    ensures forall p :: i < p <= j ==> !le(key(old(a[i])), key(old(a[p])))
    ensures j + 1 < a.Length ==> le(key(old(a[i])), key(old(a[j + 1])))
  {
    var n := a.Length;
    var x := a[i];
    j := i;
    while j + 1 < n && !le(key(x), key(a[j + 1]))
      invariant i <= j < n
      invariant forall p :: 0 <= p < i ==> a[p] == old(a[p])
      invariant forall p :: i <= p < j ==> a[p] == old(a[p + 1])
      invariant forall p :: j < p < n ==> a[p] == old(a[p])
      invariant forall p :: i < p <= j ==> !le(key(x), key(old(a[p])))
    {
      a[j] := a[j + 1];
      j := j + 1;
    }
  }
}
