/** Python's `sorted(s, key=...)` and `list.sort(key=...)`, which are
    stable: elements with equal keys keep their input order. Keys in the
    modelled code are integers or pairs of integers compared
    lexicographically, so both are represented as a `Key` pair. */
module StableSort {

  /** A sort key, ordered like the Python tuple `(major, minor)`. A single
      integer key `k` is `Key(k, 0)`. */
  datatype Key = Key(major: int, minor: int)

  predicate KeyLe(a: Key, b: Key) {
    a.major < b.major || (a.major == b.major && a.minor <= b.minor)
  }

  predicate SortedBy<T>(s: seq<T>, key: T -> Key) {
    forall i, j :: 0 <= i < j < |s| ==> KeyLe(key(s[i]), key(s[j]))
  }

  /** The elements of `s` whose key is `k`, in their order in `s`. */
  function WithKey<T>(s: seq<T>, key: T -> Key, k: Key): (r: seq<T>)
    ensures |r| <= |s|
  {
    if s == [] then []
    else (if key(s[0]) == k then [s[0]] else []) + WithKey(s[1..], key, k)
  }

  /** Stability: for every key, the elements carrying it appear in the same
      order in `r` as in `s`. */
  ghost predicate StableFor<T>(r: seq<T>, s: seq<T>, key: T -> Key) {
    forall k :: WithKey(r, key, k) == WithKey(s, key, k)
  }

  /** Put `x` in front of the first element whose key is not below its own. */
  function Insert<T>(x: T, s: seq<T>, key: T -> Key): (r: seq<T>)
    requires SortedBy(s, key)
    ensures SortedBy(r, key)
    ensures multiset(r) == multiset(s) + multiset{x}
  {
    if s == [] then [x]
    else if KeyLe(key(x), key(s[0])) then
      assert forall j :: 0 <= j < |s| ==> KeyLe(key(x), key(s[j]));
      [x] + s
    else
      var t := Insert(x, s[1..], key);
      assert s == [s[0]] + s[1..];
      BoundedByHead(s, key);
      LowerBoundKept(s[0], x, s[1..], t, key);
      ConsSorted(s[0], t, key);
      [s[0]] + t
  }

  lemma BoundedByHead<T>(s: seq<T>, key: T -> Key)
    requires SortedBy(s, key) && s != []
    ensures forall j :: 0 <= j < |s[1..]| ==> KeyLe(key(s[0]), key(s[1..][j]))
  {
    forall j | 0 <= j < |s[1..]| ensures KeyLe(key(s[0]), key(s[1..][j])) {
      assert s[1..][j] == s[j + 1];
    }
  }

  /** A key below every key of `u` and `x` is below every key of a
      rearrangement of `u` and `x`. */
  lemma LowerBoundKept<T>(y: T, x: T, u: seq<T>, t: seq<T>, key: T -> Key)
    requires multiset(t) == multiset(u) + multiset{x}
    requires !KeyLe(key(x), key(y))
    requires forall j :: 0 <= j < |u| ==> KeyLe(key(y), key(u[j]))
    ensures forall j :: 0 <= j < |t| ==> KeyLe(key(y), key(t[j]))
  {
    forall j | 0 <= j < |t| ensures KeyLe(key(y), key(t[j])) {
      assert t[j] in multiset(t);
      if t[j] != x {
        assert t[j] in multiset(u);
        var i :| 0 <= i < |u| && u[i] == t[j];
      }
    }
  }

  lemma ConsSorted<T>(y: T, t: seq<T>, key: T -> Key)
    requires SortedBy(t, key)
    requires forall j :: 0 <= j < |t| ==> KeyLe(key(y), key(t[j]))
    ensures SortedBy([y] + t, key)
  {
    var r := [y] + t;
    forall i, j | 0 <= i < j < |r| ensures KeyLe(key(r[i]), key(r[j])) {
      assert r[j] == t[j - 1];
      if i > 0 {
        assert r[i] == t[i - 1];
      }
    }
  }

  /** Insertion sort: the model of `sorted(s, key=key)`. */
  function Sort<T>(s: seq<T>, key: T -> Key): (r: seq<T>)
    ensures SortedBy(r, key)
    ensures multiset(r) == multiset(s) && |r| == |s|
  {
    if s == [] then []
    else
      assert s == [s[0]] + s[1..];
      Insert(s[0], Sort(s[1..], key), key)
  }

  lemma {:induction false} WithKeyAppend<T>(a: seq<T>, b: seq<T>, key: T -> Key, k: Key)
    ensures WithKey(a + b, key, k) == WithKey(a, key, k) + WithKey(b, key, k)
  {
    if a == [] {
      assert a + b == b;
    } else {
      assert (a + b)[1..] == a[1..] + b;
      WithKeyAppend(a[1..], b, key, k);
    }
  }

  lemma {:induction false} WithKeyInsert<T>(x: T, s: seq<T>, key: T -> Key, k: Key)
    requires SortedBy(s, key)
    ensures WithKey(Insert(x, s, key), key, k)
         == (if key(x) == k then [x] else []) + WithKey(s, key, k)
  {
    if s == [] {
    } else if KeyLe(key(x), key(s[0])) {
      WithKeyAppend([x], s, key, k);
    } else {
      var t := Insert(x, s[1..], key);
      assert Insert(x, s, key) == [s[0]] + t;
      WithKeyAppend([s[0]], t, key, k);
      WithKeyInsert(x, s[1..], key, k);
      assert key(x) != key(s[0]);
      var h := if key(s[0]) == k then [s[0]] else [];
      assert [s[0]][1..] == [];
      assert WithKey([s[0]], key, k) == h;
      assert WithKey(s, key, k) == h + WithKey(s[1..], key, k);
      if key(x) == k {
        assert h == [];
      }
    }
  }

  /** `sorted` is stable. */
  lemma {:induction false} SortStable<T>(s: seq<T>, key: T -> Key, k: Key)
    ensures WithKey(Sort(s, key), key, k) == WithKey(s, key, k)
  {
    if s != [] {
      WithKeyInsert(s[0], Sort(s[1..], key), key, k);
      SortStable(s[1..], key, k);
    }
  }

  lemma SortIsStable<T>(s: seq<T>, key: T -> Key)
    ensures StableFor(Sort(s, key), s, key)
  {
    forall k ensures WithKey(Sort(s, key), key, k) == WithKey(s, key, k) {
      SortStable(s, key, k);
    }
  }

  lemma {:induction false} WithKeyHead<T>(s: seq<T>, key: T -> Key, x: T)
    requires x in s
    ensures WithKey(s, key, key(x)) != []
  {
    if s[0] != x {
      WithKeyHead(s[1..], key, x);
    }
  }

  lemma {:induction false} WithKeyMember<T>(s: seq<T>, key: T -> Key, k: Key)
    requires WithKey(s, key, k) != []
    ensures exists i :: 0 <= i < |s| && key(s[i]) == k
  {
    if key(s[0]) != k {
      WithKeyMember(s[1..], key, k);
      var i :| 0 <= i < |s[1..]| && key(s[1..][i]) == k;
      assert key(s[i + 1]) == k;
    }
  }

  /** Two sorted arrangements that are stable with respect to each other are
      the same sequence: a stable sort has exactly one possible result, so
      this insertion sort is what Python's `sorted` returns. */
  lemma {:induction false} SortedStableUnique<T>(r: seq<T>, t: seq<T>, key: T -> Key)
    requires SortedBy(r, key) && SortedBy(t, key)
    requires StableFor(r, t, key)
    ensures r == t
    decreases |r|
  {
    if r != [] {
      var k := key(r[0]);
      WithKeyHead(r, key, r[0]);
      assert WithKey(t, key, k) != [];
      WithKeyMember(t, key, k);
      var i :| 0 <= i < |t| && key(t[i]) == k;
      assert t != [];
      var kt := key(t[0]);
      WithKeyHead(t, key, t[0]);
      assert WithKey(r, key, kt) != [];
      WithKeyMember(r, key, kt);
      var j :| 0 <= j < |r| && key(r[j]) == kt;
      assert KeyLe(kt, key(t[i]));
      assert KeyLe(k, key(r[j]));
      assert k == kt;
      assert WithKey(r, key, k)[0] == r[0];
      assert WithKey(t, key, k)[0] == t[0];
      assert r[0] == t[0];
      forall k' ensures WithKey(r[1..], key, k') == WithKey(t[1..], key, k') {
        assert WithKey(r, key, k') == WithKey(t, key, k');
        var h := if key(r[0]) == k' then [r[0]] else [];
        assert WithKey(r, key, k') == h + WithKey(r[1..], key, k');
        assert WithKey(t, key, k') == h + WithKey(t[1..], key, k');
        assert (h + WithKey(r[1..], key, k'))[|h|..] == WithKey(r[1..], key, k');
        assert (h + WithKey(t[1..], key, k'))[|h|..] == WithKey(t[1..], key, k');
      }
      SortedStableUnique(r[1..], t[1..], key);
      assert r == [r[0]] + r[1..] && t == [t[0]] + t[1..];
    }
  }

  /** Any sorted, stable rearrangement of `s` is `Sort(s, key)`. */
  lemma SortCharacterized<T>(r: seq<T>, s: seq<T>, key: T -> Key)
    requires SortedBy(r, key) && StableFor(r, s, key)
    ensures r == Sort(s, key)
  {
    SortIsStable(s, key);
    SortedStableUnique(r, Sort(s, key), key);
  }
}
