/** The newest-first order of assets/js/content-loader.js (sortByDateDesc)
    and of the index build script, and the stable sort that
    Array.prototype.sort performs with it (ECMA-262, section 23.1.3.30:
    elements the comparator calls equal keep their order). A date is the
    value its parser produced: Some(t) for a valid date at time t, None for
    an invalid one. */
module DateOrder {
  import opened Wrappers
  import opened Seqs

  /** The comparator body: dateB - dateA when both dates are valid, -1 when
      only the first is, 1 when only the second is, 0 when neither is. */
  function Compare(a: Option<int>, b: Option<int>): (r: int)
    ensures r == 0 <==> a == b
    ensures r < 0 <==> a.Some? && (b.None? || b.value < a.value)
  {
    if a.Some? && b.Some? then b.value - a.value
    else if a.Some? then -1
    else if b.Some? then 1
    else 0
  }

  /** The position at which a stable insertion puts x into s: after every
      element that does not compare above x. */
  function Pos<T>(s: seq<T>, x: T, key: T -> Option<int>): (p: nat)
    ensures p <= |s|
  {
    if s == [] then 0
    else if Compare(key(s[|s| - 1]), key(x)) <= 0 then |s|
    else Pos(s[..|s| - 1], x, key)
  }

  function Insert<T>(s: seq<T>, x: T, key: T -> Option<int>): (r: seq<T>)
    ensures |r| == |s| + 1
  {
    var p := Pos(s, x, key);
    s[..p] + [x] + s[p..]
  }

  /** items.sort(comparator) with the comparator Compare on the keys: a
      stable sort, here insertion of each element in turn. */
  function Sort<T>(xs: seq<T>, key: T -> Option<int>): (r: seq<T>)
    ensures |r| == |xs|
  {
    if xs == [] then [] else Insert(Sort(xs[..|xs| - 1], key), xs[|xs| - 1], key)
  }

  predicate Sorted<T>(s: seq<T>, key: T -> Option<int>) {
    forall i, j :: 0 <= i < j < |s| ==> Compare(key(s[i]), key(s[j])) <= 0
  }

  /** The test "has this date", as a value that filter can take. */
  function HasKey<T>(key: T -> Option<int>, k: Option<int>): T -> bool {
    y => key(y) == k
  }

  // ---------------------------------------------------------------------
  // The comparator is a total preorder.

  lemma CompareAntisymmetric(a: Option<int>, b: Option<int>)
    ensures Compare(a, b) > 0 <==> Compare(b, a) < 0
  {
  }

  lemma CompareTransitive(a: Option<int>, b: Option<int>, c: Option<int>)
    requires Compare(a, b) <= 0 && Compare(b, c) <= 0
    ensures Compare(a, c) <= 0
  {
  }

  // ---------------------------------------------------------------------
  // The sort.

  /** In a sorted sequence, the elements before the insertion point compare
      at most equal to x and the ones from it on compare strictly above x. */
  lemma {:induction false} PosSplits<T>(s: seq<T>, x: T, key: T -> Option<int>)
    requires Sorted(s, key)
    ensures forall i :: 0 <= i < Pos(s, x, key) ==> Compare(key(s[i]), key(x)) <= 0
    ensures forall i :: Pos(s, x, key) <= i < |s| ==> Compare(key(s[i]), key(x)) > 0
  {
    if s != [] {
      var last := s[|s| - 1];
      if Compare(key(last), key(x)) <= 0 {
        forall i | 0 <= i < |s|
          ensures Compare(key(s[i]), key(x)) <= 0
        {
          if i < |s| - 1 {
            CompareTransitive(key(s[i]), key(last), key(x));
          }
        }
      } else {
        var init := s[..|s| - 1];
        assert Sorted(init, key);
        PosSplits(init, x, key);
      }
    }
  }

  lemma InsertSorted<T>(s: seq<T>, x: T, key: T -> Option<int>)
    requires Sorted(s, key)
    ensures Sorted(Insert(s, x, key), key)
  {
    var p := Pos(s, x, key);
    var r := Insert(s, x, key);
    PosSplits(s, x, key);
    forall i, j | 0 <= i < j < |r|
      ensures Compare(key(r[i]), key(r[j])) <= 0
    {
      if j == p {
        assert r[i] == s[i];
      } else if i == p {
        assert r[j] == s[j - 1];
        CompareAntisymmetric(key(s[j - 1]), key(x));
      } else {
        var i' := if i < p then i else i - 1;
        var j' := if j < p then j else j - 1;
        assert r[i] == s[i'] && r[j] == s[j'];
      }
    }
  }

  lemma InsertPermutes<T>(s: seq<T>, x: T, key: T -> Option<int>)
    ensures multiset(Insert(s, x, key)) == multiset(s) + multiset{x}
  {
    var p := Pos(s, x, key);
    assert s == s[..p] + s[p..];
  }

  /** What follows the insertion point has another date than x. */
  lemma AfterPosOtherKey<T>(s: seq<T>, x: T, key: T -> Option<int>)
    requires Sorted(s, key)
    ensures forall i :: 0 <= i < |s[Pos(s, x, key)..]| ==> !HasKey(key, key(x))(s[Pos(s, x, key)..][i])
  {
    PosSplits(s, x, key);
    var p := Pos(s, x, key);
    forall i | 0 <= i < |s[p..]|
      ensures !HasKey(key, key(x))(s[p..][i])
    {
      assert s[p..][i] == s[p + i];
    }
  }

  /** Inserting x adds x at the end of the elements that share its date, and
      changes nothing among the others. */
  lemma InsertKeepsEquals<T>(s: seq<T>, x: T, key: T -> Option<int>, k: Option<int>)
    requires Sorted(s, key)
    ensures Filter(Insert(s, x, key), HasKey(key, k))
      == Filter(s, HasKey(key, k)) + (if key(x) == k then [x] else [])
  {
    var p := Pos(s, x, key);
    var a, b := s[..p], s[p..];
    assert s == a + b;
    if key(x) == k {
      AfterPosOtherKey(s, x, key);
      FilterNone(b, HasKey(key, k));
    }
    FilterInsertedAt(a, x, b, HasKey(key, k));
  }

  lemma {:induction false} SortSorted<T>(xs: seq<T>, key: T -> Option<int>)
    ensures Sorted(Sort(xs, key), key)
  {
    if xs != [] {
      SortSorted(xs[..|xs| - 1], key);
      InsertSorted(Sort(xs[..|xs| - 1], key), xs[|xs| - 1], key);
    }
  }

  /** The sort returns a permutation of its input. */
  lemma {:induction false} SortPermutes<T>(xs: seq<T>, key: T -> Option<int>)
    ensures multiset(Sort(xs, key)) == multiset(xs)
  {
    if xs != [] {
      var init := xs[..|xs| - 1];
      SortPermutes(init, key);
      InsertPermutes(Sort(init, key), xs[|xs| - 1], key);
      assert xs == init + [xs[|xs| - 1]];
    }
  }

  /** Stability: for every date, the elements with that date appear in the
      result in the order they had in the input. */
  lemma {:induction false} SortStable<T>(xs: seq<T>, key: T -> Option<int>, k: Option<int>)
    ensures Filter(Sort(xs, key), HasKey(key, k)) == Filter(xs, HasKey(key, k))
  {
    if xs != [] {
      var init := xs[..|xs| - 1];
      SortStable(init, key, k);
      SortSorted(init, key);
      InsertKeepsEquals(Sort(init, key), xs[|xs| - 1], key, k);
    }
  }

  /** What sorted means for dates: valid dates before invalid ones, and
      among valid dates the newest first. */
  lemma NewestFirst<T>(s: seq<T>, key: T -> Option<int>)
    requires Sorted(s, key)
    ensures forall i, j :: 0 <= i < j < |s| && key(s[i]).None? ==> key(s[j]).None?
    ensures forall i, j :: 0 <= i < j < |s| && key(s[i]).Some? && key(s[j]).Some? ==> key(s[j]).value <= key(s[i]).value
  {
    forall i, j | 0 <= i < j < |s|
      ensures key(s[i]).None? ==> key(s[j]).None?
      ensures key(s[i]).Some? && key(s[j]).Some? ==> key(s[j]).value <= key(s[i]).value
    {
      assert Compare(key(s[i]), key(s[j])) <= 0;
    }
  }
}
