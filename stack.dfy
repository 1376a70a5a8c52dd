/** The shared dialog stack (`mask._dialogs`) as a sequence, and the two
    updates the coordinator applies to it: registering a dialog after it is
    shown, and releasing it after it is hidden or destroyed. */
module Stack {

  /** No element occurs twice. */
  predicate Distinct<T(==)>(s: seq<T>) {
    forall i, j :: 0 <= i < j < |s| ==> s[i] != s[j]
  }

  /** The top of the stack: the most recently registered entry. */
  function Last<T>(s: seq<T>): T
    requires s != []
  {
    s[|s| - 1]
  }

  /** Index of the first occurrence of `x` in `s`. */
  function FirstIndex<T(==)>(s: seq<T>, x: T): (i: nat)
    requires x in s
    ensures i < |s| && s[i] == x
    ensures x !in s[..i]
  {
    if s[0] == x then 0
    else
      var k := FirstIndex(s[1..], x);
      assert s[..k + 1] == [s[0]] + s[1..][..k];
      k + 1
  }

  /** The first occurrence is the only index with `x` there and none before it. */
  lemma FirstIndexUnique<T>(s: seq<T>, x: T, i: nat)
    requires i < |s| && s[i] == x && x !in s[..i]
    ensures FirstIndex(s, x) == i
  {
  }

  /** Removing index `i` takes exactly one `s[i]` out of the multiset. */
  lemma SpliceMultiset<T>(s: seq<T>, i: nat)
    requires i < |s|
    ensures multiset(s[..i] + s[i + 1..]) == multiset(s) - multiset{s[i]}
  {
    assert s == s[..i] + [s[i]] + s[i + 1..];
  }

  /** Array `splice(i, 1)` at the first occurrence of `x`; no change when `x` is absent. */
  function RemoveFirst<T(==)>(s: seq<T>, x: T): (r: seq<T>)
    ensures x !in s ==> r == s
    ensures x in s ==> |r| == |s| - 1
  {
    if s == [] then []
    else if s[0] == x then s[1..]
    else
      assert x !in s ==> x !in s[1..];
      [s[0]] + RemoveFirst(s[1..], x)
  }

  /** RemoveFirst deletes exactly the index of the first occurrence, keeping
      the order of everything else. */
  lemma {:induction false} RemoveFirstSplices<T>(s: seq<T>, x: T)
    requires x in s
    ensures RemoveFirst(s, x) == s[..FirstIndex(s, x)] + s[FirstIndex(s, x) + 1..]
  {
    if s[0] != x {
      var t := s[1..];
      assert x in t by {
        var k :| 0 <= k < |s| && s[k] == x;
        assert t[k - 1] == x;
      }
      RemoveFirstSplices(t, x);
      var k := FirstIndex(t, x);
      assert FirstIndex(s, x) == k + 1;
      assert s[..k + 1] == [s[0]] + t[..k];
      assert s[k + 2..] == t[k + 1..];
    }
  }

  /** The after-show update: push `x` unless it is already present. */
  function Registered<T(==)>(s: seq<T>, x: T): (r: seq<T>)
    ensures x in r && s <= r
    ensures forall i :: 0 <= i < |r| ==> r[i] in s || r[i] == x
    ensures |r| == if x in s then |s| else |s| + 1
    ensures x !in s ==> Last(r) == x
    ensures Distinct(s) ==> Distinct(r)
  {
    if x in s then s else s + [x]
  }

  /** The release update of `_hideMask`: pop `x` when it is the top entry,
      otherwise splice out its first occurrence below the top. */
  function Released<T(==)>(s: seq<T>, x: T): (r: seq<T>)
    ensures x in s <==> |r| == |s| - 1
    ensures x !in s ==> r == s
  {
    if s != [] && Last(s) == x then s[..|s| - 1] else RemoveFirst(s, x)
  }

  /** Releasing takes exactly one `x` out of the stack, if there is one. */
  lemma ReleasedMultiset<T>(s: seq<T>, x: T)
    ensures multiset(Released(s, x)) == multiset(s) - multiset{x}
  {
    if s != [] && Last(s) == x {
      SpliceMultiset(s, |s| - 1);
      assert s[..|s| - 1] + s[|s|..] == s[..|s| - 1];
    } else if x in s {
      SpliceMultiset(s, FirstIndex(s, x));
      RemoveFirstSplices(s, x);
    }
  }

  /** Deleting one index from a sequence without duplicates leaves none, and
      drops exactly the deleted element. */
  lemma {:induction false} SpliceDistinct<T>(s: seq<T>, i: nat)
    requires Distinct(s) && i < |s|
    ensures Distinct(s[..i] + s[i + 1..])
    ensures forall y :: y in s[..i] + s[i + 1..] <==> y in s && y != s[i]
  {
    var r := s[..i] + s[i + 1..];
    forall a, b | 0 <= a < b < |r| ensures r[a] != r[b] {
      var a' := if a < i then a else a + 1;
      var b' := if b < i then b else b + 1;
      assert r[a] == s[a'] && r[b] == s[b'] && a' < b';
    }
    forall y ensures y in r <==> y in s && y != s[i] {
      if y in r {
        var k :| 0 <= k < |r| && r[k] == y;
        var k' := if k < i then k else k + 1;
        assert s[k'] == y && k' != i;
      }
      if y in s && y != s[i] {
        var k :| 0 <= k < |s| && s[k] == y;
        assert k != i;
        if k < i { assert r[k] == y; } else { assert r[k - 1] == y; }
      }
    }
  }

  /** Releasing from a stack without duplicates removes `x` entirely, keeps
      every other entry, and introduces no duplicates. */
  lemma {:induction false} ReleasedMembers<T>(s: seq<T>, x: T)
    requires Distinct(s)
    ensures Distinct(Released(s, x))
    ensures forall y :: y in Released(s, x) <==> y in s && y != x
  {
    if s != [] && Last(s) == x {
      SpliceDistinct(s, |s| - 1);
      assert s[..|s| - 1] + s[|s|..] == s[..|s| - 1];
    } else if x in s {
      RemoveFirstSplices(s, x);
      SpliceDistinct(s, FirstIndex(s, x));
    }
  }

  /** Releasing an entry that is not the top leaves the top where it is. */
  lemma ReleasedKeepsTop<T>(s: seq<T>, x: T)
    requires s != [] && Last(s) != x
    ensures Released(s, x) != [] && Last(Released(s, x)) == Last(s)
  {
    if x in s {
      RemoveFirstSplices(s, x);
      var i := FirstIndex(s, x);
      assert s[..i] + s[i + 1..] == s[..i] + s[i + 1..|s| - 1] + [Last(s)];
    }
  }

  /** Releasing only ever shrinks the stack. */
  lemma ReleasedShrinks<T>(s: seq<T>, x: T)
    ensures forall y :: y in Released(s, x) ==> y in s
  {
    ReleasedMultiset(s, x);
    forall y | y in Released(s, x) ensures y in s {
      assert multiset(Released(s, x))[y] > 0;
    }
  }

  /** Releasing the top entry pops it, whatever lies below. */
  lemma ReleasePopsTop<T>(s: seq<T>, x: T)
    ensures Released(s + [x], x) == s
  {
    assert (s + [x])[..|s|] == s;
  }

  /** A dialog registered on top and then released leaves the stack as it was. */
  lemma RegisterThenRelease<T>(s: seq<T>, x: T)
    requires x !in s
    ensures Released(Registered(s, x), x) == s
  {
  }

  /** Registering twice is registering once, so one release undoes both. */
  lemma RegisterTwiceReleaseOnce<T>(s: seq<T>, x: T)
    requires x !in s
    ensures Registered(Registered(s, x), x) == Registered(s, x)
    ensures Released(Registered(Registered(s, x), x), x) == s
  {
  }
}
