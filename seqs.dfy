/** Generic sequence helpers shared by the models: reversal, filtering,
    duplicate-freedom, a lexicographic order and a stable sort by key
    (the behaviour of Rust's `sort_by_key`, `sort_by_cached_key` and `sort`). */
module Seqs {

  predicate NoDup<T(==)>(s: seq<T>) {
    forall i, j | 0 <= i < j < |s| :: s[i] != s[j]
  }

  function Reverse<T>(s: seq<T>): (r: seq<T>)
    ensures |r| == |s|
    ensures forall i | 0 <= i < |s| :: r[i] == s[|s| - 1 - i]
  {
    if s == [] then [] else Reverse(s[1..]) + [s[0]]
  }

  lemma ReverseMultiset<T>(s: seq<T>)
    ensures multiset(Reverse(s)) == multiset(s)
  {
    if s != [] {
      ReverseMultiset(s[1..]);
      assert s == [s[0]] + s[1..];
    }
  }

  lemma {:induction false} ReverseReverse<T>(s: seq<T>)
    ensures Reverse(Reverse(s)) == s
  {
    var r := Reverse(Reverse(s));
    assert |r| == |s|;
    forall i | 0 <= i < |s| ensures r[i] == s[i] { }
  }

  lemma ReverseConcat<T>(a: seq<T>, b: seq<T>)
    ensures Reverse(a + b) == Reverse(b) + Reverse(a)
  {
  }

  /** The elements of `s` that satisfy `p`, in their original order. */
  function Filter<T>(s: seq<T>, p: T -> bool): (r: seq<T>)
    ensures |r| <= |s|
    ensures forall i | 0 <= i < |r| :: p(r[i])
    ensures forall x | x in r :: x in s && p(x)
    ensures forall x | x in s && p(x) :: x in r
  {
    if s == [] then []
    else if p(s[0]) then [s[0]] + Filter(s[1..], p)
    else Filter(s[1..], p)
  }

  /** `a` is `b` with some elements left out: the elements of `a` occur in
      `b` in the same order. */
  predicate SubseqOf<T(==)>(a: seq<T>, b: seq<T>)
    decreases |b|
  {
    if a == [] then true
    else if b == [] then false
    else if a[0] == b[0] then SubseqOf(a[1..], b[1..])
    else SubseqOf(a, b[1..])
  }

  /** Filtering keeps the order of what it keeps. */
  lemma {:induction false} FilterSubseq<T>(s: seq<T>, p: T -> bool)
    ensures SubseqOf(Filter(s, p), s)
    decreases |s|
  {
    if s != [] {
      FilterSubseq(s[1..], p);
      if p(s[0]) {
        assert Filter(s, p)[1..] == Filter(s[1..], p);
      } else if Filter(s, p) != [] {
        assert p(Filter(s, p)[0]);
      }
    }
  }

  lemma {:induction false} FilterConcat<T>(a: seq<T>, b: seq<T>, p: T -> bool)
    ensures Filter(a + b, p) == Filter(a, p) + Filter(b, p)
  {
    if a != [] {
      var t := a[1..];
      assert a + b != [] && (a + b)[0] == a[0] && (a + b)[1..] == t + b;
      FilterConcat(t, b, p);
      if p(a[0]) {
        assert Filter(a + b, p) == [a[0]] + Filter(t + b, p);
        assert [a[0]] + (Filter(t, p) + Filter(b, p)) == ([a[0]] + Filter(t, p)) + Filter(b, p);
      } else {
        assert Filter(a + b, p) == Filter(t + b, p);
      }
    } else {
      assert a + b == b;
    }
  }

  /** Filtering one more element of a prefix. */
  lemma FilterSnoc<T>(s: seq<T>, i: nat, p: T -> bool)
    requires i < |s|
    ensures Filter(s[..i + 1], p) == Filter(s[..i], p) + (if p(s[i]) then [s[i]] else [])
  {
    assert s[..i + 1] == s[..i] + [s[i]];
    FilterConcat(s[..i], [s[i]], p);
    assert [s[i]][1..] == [];
  }

  lemma {:induction false} FilterAll<T>(s: seq<T>, p: T -> bool)
    requires forall i | 0 <= i < |s| :: p(s[i])
    ensures Filter(s, p) == s
  {
    if s != [] {
      FilterAll(s[1..], p);
    }
  }

  lemma {:induction false} FilterNone<T>(s: seq<T>, p: T -> bool)
    requires forall i | 0 <= i < |s| :: !p(s[i])
    ensures Filter(s, p) == []
  {
    if s != [] {
      FilterNone(s[1..], p);
    }
  }

  lemma {:induction false} FilterIdempotent<T>(s: seq<T>, p: T -> bool)
    ensures Filter(Filter(s, p), p) == Filter(s, p)
  {
    FilterAll(Filter(s, p), p);
  }

  lemma {:induction false} FilterMultiset<T>(s: seq<T>, p: T -> bool)
    ensures multiset(Filter(s, p)) <= multiset(s)
  {
    if s != [] {
      FilterMultiset(s[1..], p);
      assert s == [s[0]] + s[1..];
    }
  }

  /** Filtering commutes with reversal. */
  lemma {:induction false} FilterReverse<T>(s: seq<T>, p: T -> bool)
    ensures Filter(Reverse(s), p) == Reverse(Filter(s, p))
  {
    if s != [] {
      var t := s[1..];
      var head := Filter([s[0]], p);
      assert head == if p(s[0]) then [s[0]] else [] by {
        assert [s[0]][1..] == [];
      }
      calc {
        Filter(Reverse(s), p);
        == { assert Reverse(s) == Reverse(t) + [s[0]]; }
        Filter(Reverse(t) + [s[0]], p);
        == { FilterConcat(Reverse(t), [s[0]], p); }
        Filter(Reverse(t), p) + head;
        == { FilterReverse(t, p); }
        Reverse(Filter(t, p)) + head;
        == { assert Reverse(head) == head; }
        Reverse(Filter(t, p)) + Reverse(head);
        == { ReverseConcat(head, Filter(t, p)); }
        Reverse(head + Filter(t, p));
        == { assert Filter(s, p) == head + Filter(t, p); }
        Reverse(Filter(s, p));
      }
    }
  }

  /** The elements of `s` that fail `p`, in their original order. */
  function Reject<T>(s: seq<T>, p: T -> bool): (r: seq<T>)
    ensures |r| <= |s|
    ensures forall i | 0 <= i < |r| :: !p(r[i])
  {
    if s == [] then []
    else if p(s[0]) then Reject(s[1..], p)
    else [s[0]] + Reject(s[1..], p)
  }

  // ----- orders -----

  ghost predicate TotalPreorder<K(!new)>(le: (K, K) -> bool) {
    && (forall a, b :: le(a, b) || le(b, a))
    && (forall a, b, c :: le(a, b) && le(b, c) ==> le(a, c))
  }

  ghost predicate StrictTotalOrder<T(!new)>(less: (T, T) -> bool) {
    && (forall a :: !less(a, a))
    && (forall a, b, c :: less(a, b) && less(b, c) ==> less(a, c))
    && (forall a, b :: a != b ==> less(a, b) || less(b, a))
  }

  /** Lexicographic order on sequences: a proper prefix comes first, otherwise
      the first differing element decides (Rust's derived `Ord` on slices). */
  predicate LexLess<T(==)>(a: seq<T>, b: seq<T>, less: (T, T) -> bool)
    decreases |a|
  {
    if a == [] then b != []
    else if b == [] then false
    else if a[0] == b[0] then LexLess(a[1..], b[1..], less)
    else less(a[0], b[0])
  }

  lemma {:induction false} LexIrreflexive<T(!new)>(a: seq<T>, less: (T, T) -> bool)
    requires StrictTotalOrder(less)
    ensures !LexLess(a, a, less)
  {
    if a != [] {
      LexIrreflexive(a[1..], less);
    }
  }

  lemma {:induction false} LexTransitive<T(!new)>(a: seq<T>, b: seq<T>, c: seq<T>, less: (T, T) -> bool)
    requires StrictTotalOrder(less)
    requires LexLess(a, b, less) && LexLess(b, c, less)
    ensures LexLess(a, c, less)
    decreases |a|
  {
    if a != [] && b != [] && c != [] && a[0] == b[0] && b[0] == c[0] {
      LexTransitive(a[1..], b[1..], c[1..], less);
    }
  }

  lemma {:induction false} LexTotal<T(!new)>(a: seq<T>, b: seq<T>, less: (T, T) -> bool)
    requires StrictTotalOrder(less)
    requires a != b
    ensures LexLess(a, b, less) || LexLess(b, a, less)
    decreases |a|
  {
    if a != [] && b != [] && a[0] == b[0] {
      assert a == [a[0]] + a[1..] && b == [b[0]] + b[1..];
      LexTotal(a[1..], b[1..], less);
    }
  }

  /** The lexicographic extension of a strict total order is a strict total order. */
  lemma LexStrictTotal<T(!new)>(less: (T, T) -> bool)
    requires StrictTotalOrder(less)
    ensures StrictTotalOrder((a: seq<T>, b: seq<T>) => LexLess(a, b, less))
  {
    forall a: seq<T> ensures !LexLess(a, a, less) {
      LexIrreflexive(a, less);
    }
    forall a: seq<T>, b: seq<T>, c: seq<T> | LexLess(a, b, less) && LexLess(b, c, less)
      ensures LexLess(a, c, less)
    {
      LexTransitive(a, b, c, less);
    }
    forall a: seq<T>, b: seq<T> | a != b ensures LexLess(a, b, less) || LexLess(b, a, less) {
      LexTotal(a, b, less);
    }
  }

  // ----- stable sort by key -----

  predicate SortedBy<T, K>(s: seq<T>, key: T -> K, le: (K, K) -> bool) {
    forall i, j | 0 <= i < j < |s| :: le(key(s[i]), key(s[j]))
  }

  /** Inserts `x` in front of the first element whose key is not below its own,
      so `x` lands before its equals: folding from the right keeps input order. */
  function InsertByKey<T, K>(x: T, s: seq<T>, key: T -> K, le: (K, K) -> bool): (r: seq<T>)
    ensures multiset(r) == multiset(s) + multiset{x}
    ensures |r| == |s| + 1
  {
    if s == [] then [x]
    else if le(key(x), key(s[0])) then [x] + s
    else
      assert s == [s[0]] + s[1..];
      [s[0]] + InsertByKey(x, s[1..], key, le)
  }

  /** A stable sort of `s` by `key` under the preorder `le`. */
  function SortByKey<T, K>(s: seq<T>, key: T -> K, le: (K, K) -> bool): (r: seq<T>)
    ensures multiset(r) == multiset(s)
    ensures |r| == |s|
  {
    if s == [] then []
    else
      assert s == [s[0]] + s[1..];
      InsertByKey(s[0], SortByKey(s[1..], key, le), key, le)
  }

  lemma {:induction false} InsertByKeySorted<T, K(!new)>(x: T, s: seq<T>, key: T -> K, le: (K, K) -> bool)
    requires TotalPreorder(le)
    requires SortedBy(s, key, le)
    ensures SortedBy(InsertByKey(x, s, key, le), key, le)
  {
    if s != [] && !le(key(x), key(s[0])) {
      var t := InsertByKey(x, s[1..], key, le);
      InsertByKeySorted(x, s[1..], key, le);
      var r := [s[0]] + t;
      forall j | 1 <= j < |r| ensures le(key(s[0]), key(r[j])) {
        assert r[j] in multiset(t);
        assert r[j] in multiset(s[1..]) + multiset{x};
        if r[j] != x {
          assert r[j] in s[1..];
          var k :| 0 <= k < |s[1..]| && s[1..][k] == r[j];
          assert s[k + 1] == r[j];
        }
      }
    }
  }

  lemma {:induction false} SortByKeySorted<T, K(!new)>(s: seq<T>, key: T -> K, le: (K, K) -> bool)
    requires TotalPreorder(le)
    ensures SortedBy(SortByKey(s, key, le), key, le)
  {
    if s != [] {
      SortByKeySorted(s[1..], key, le);
      InsertByKeySorted(s[0], SortByKey(s[1..], key, le), key, le);
    }
  }

  /** `false` before `true`: the order Rust's `bool` has. */
  function BoolLe(a: bool, b: bool): bool { !a || b }

  lemma {:induction false} InsertTrueAfterFalses<T>(x: T, a: seq<T>, b: seq<T>, key: T -> bool)
    requires key(x)
    requires forall i | 0 <= i < |a| :: !key(a[i])
    requires forall i | 0 <= i < |b| :: key(b[i])
    ensures InsertByKey(x, a + b, key, BoolLe) == a + [x] + b
  {
    if a == [] {
      assert a + b == b;
    } else {
      assert (a + b)[0] == a[0];
      assert (a + b)[1..] == a[1..] + b;
      InsertTrueAfterFalses(x, a[1..], b, key);
      assert [a[0]] + (a[1..] + [x] + b) == a + [x] + b;
    }
  }

  lemma InsertFalseAtFront<T>(x: T, s: seq<T>, key: T -> bool)
    requires !key(x)
    ensures InsertByKey(x, s, key, BoolLe) == [x] + s
  {
  }

  lemma SortByKeyUnfold<T, K>(s: seq<T>, key: T -> K, le: (K, K) -> bool)
    requires s != []
    ensures SortByKey(s, key, le) == InsertByKey(s[0], SortByKey(s[1..], key, le), key, le)
  {
  }

  lemma RejectHeadIn<T>(s: seq<T>, key: T -> bool)
    requires s != [] && key(s[0])
    ensures Reject(s, key) == Reject(s[1..], key)
  {
  }

  lemma FilterHeadIn<T>(s: seq<T>, key: T -> bool)
    requires s != [] && key(s[0])
    ensures Filter(s, key) == [s[0]] + Filter(s[1..], key)
  {
  }

  lemma Assoc<T>(a: seq<T>, x: T, b: seq<T>)
    ensures a + [x] + b == a + ([x] + b)
  {
  }

  lemma ConsAssoc<T>(x: T, a: seq<T>, b: seq<T>)
    ensures [x] + (a + b) == ([x] + a) + b
  {
  }

  lemma PartitionStepTrue<T>(s: seq<T>, key: T -> bool)
    requires s != [] && key(s[0])
    requires SortByKey(s[1..], key, BoolLe) == Reject(s[1..], key) + Filter(s[1..], key)
    ensures SortByKey(s, key, BoolLe) == Reject(s, key) + Filter(s, key)
  {
    var a := Reject(s[1..], key);
    var b := Filter(s[1..], key);
    RejectHeadIn(s, key);
    FilterHeadIn(s, key);
    SortByKeyUnfold(s, key, BoolLe);
    InsertTrueAfterFalses(s[0], a, b, key);
    Assoc(a, s[0], b);
  }

  lemma RejectHeadOut<T>(s: seq<T>, key: T -> bool)
    requires s != [] && !key(s[0])
    ensures Reject(s, key) == [s[0]] + Reject(s[1..], key)
  {
  }

  lemma FilterHeadOut<T>(s: seq<T>, key: T -> bool)
    requires s != [] && !key(s[0])
    ensures Filter(s, key) == Filter(s[1..], key)
  {
  }

  lemma PartitionStepFalse<T>(s: seq<T>, key: T -> bool)
    requires s != [] && !key(s[0])
    requires SortByKey(s[1..], key, BoolLe) == Reject(s[1..], key) + Filter(s[1..], key)
    ensures SortByKey(s, key, BoolLe) == Reject(s, key) + Filter(s, key)
  {
    var a := Reject(s[1..], key);
    var b := Filter(s[1..], key);
    RejectHeadOut(s, key);
    FilterHeadOut(s, key);
    SortByKeyUnfold(s, key, BoolLe);
    InsertFalseAtFront(s[0], a + b, key);
    ConsAssoc(s[0], a, b);
  }

  /** Sorting stably by a `bool` key is a partition: the `false`-keyed elements
      first, then the `true`-keyed ones, each group in its input order. */
  lemma {:induction false} SortByBoolKeyPartition<T>(s: seq<T>, key: T -> bool)
    ensures SortByKey(s, key, BoolLe) == Reject(s, key) + Filter(s, key)
  {
    if s != [] {
      SortByBoolKeyPartition(s[1..], key);
      if key(s[0]) {
        PartitionStepTrue(s, key);
      } else {
        PartitionStepFalse(s, key);
      }
    }
  }

  /** The elements of a set, each once, in some order (a hash map's key
      iteration). */
  method SetToSeq<T>(s: set<T>) returns (r: seq<T>)
    ensures NoDup(r)
    ensures forall x :: x in r <==> x in s
  {
    var todo := s;
    r := [];
    while todo != {}
      invariant todo <= s
      invariant NoDup(r)
      invariant forall x :: x in r <==> x in s && x !in todo
      decreases |todo|
    {
      var x :| x in todo;
      r := r + [x];
      todo := todo - {x};
    }
  }

  // ----- flattening -----

  function Flatten<T>(chunks: seq<seq<T>>): (r: seq<T>)
  {
    if chunks == [] then [] else chunks[0] + Flatten(chunks[1..])
  }

  lemma {:induction false} FlattenAppend<T>(chunks: seq<seq<T>>, c: seq<T>)
    ensures Flatten(chunks + [c]) == Flatten(chunks) + c
  {
    if chunks != [] {
      assert (chunks + [c])[1..] == chunks[1..] + [c];
      FlattenAppend(chunks[1..], c);
    } else {
      assert [c][1..] == [];
    }
  }
}
