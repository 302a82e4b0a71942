/**
 * Sequence facts the registry needs: distinct entries, and `Without`, the
 * order-keeping removal of every occurrence of a value (what `std::erase`
 * does to a vector).
 */
module Seqs {

  ghost predicate Distinct<T>(s: seq<T>)
  {
    forall i, j :: 0 <= i < j < |s| ==> s[i] != s[j]
  }

  /** `s` with every occurrence of `x` removed, the order of the rest kept. */
  function Without<T(==,!new)>(s: seq<T>, x: T): (r: seq<T>)
    ensures |r| <= |s|
    ensures forall y :: y in r <==> y in s && y != x
    ensures x !in s ==> r == s
  {
    if |s| == 0 then []
    else
      var init, last := s[..|s| - 1], s[|s| - 1];
      assert s == init + [last];
      var rest := Without(init, x);
      if last == x then rest else rest + [last]
  }

  /** Erasing the value at position `p` of a sequence without duplicates removes exactly that position. */
  lemma {:induction false} WithoutAt<T(!new)>(s: seq<T>, p: int)
    requires Distinct(s) && 0 <= p < |s|
    ensures Without(s, s[p]) == s[..p] + s[p + 1..]
    decreases |s|
  {
    var n := |s|;
    var init, last := s[..n - 1], s[n - 1];
    assert s == init + [last];
    if p == n - 1 {
      assert s[p] !in init by {
        forall i | 0 <= i < |init| ensures init[i] != s[p] { assert init[i] == s[i]; }
      }
      assert s[..p] == init;
    } else {
      assert Distinct(init) by {
        forall i, j | 0 <= i < j < |init| ensures init[i] != init[j] { assert init[i] == s[i] && init[j] == s[j]; }
      }
      assert init[p] == s[p];
      WithoutAt(init, p);
      assert last != s[p];
      calc {
        Without(s, s[p]);
        Without(init, s[p]) + [last];
        init[..p] + init[p + 1..] + [last];
        { assert init[..p] == s[..p]; assert init[p + 1..] + [last] == s[p + 1..]; }
        s[..p] + s[p + 1..];
      }
    }
  }

  /** Erasing from a sequence without duplicates shortens it by one exactly when the value occurs,
      and leaves it without duplicates. */
  lemma WithoutDistinct<T(!new)>(s: seq<T>, x: T)
    requires Distinct(s)
    ensures |Without(s, x)| == if x in s then |s| - 1 else |s|
    ensures Distinct(Without(s, x))
  {
    if x in s {
      var p :| 0 <= p < |s| && s[p] == x;
      WithoutAt(s, p);
      SkipDistinct(s, p);
    }
  }

  /** Leaving out one position keeps a sequence free of duplicates. */
  lemma SkipDistinct<T>(s: seq<T>, p: int)
    requires Distinct(s) && 0 <= p < |s|
    ensures Distinct(s[..p] + s[p + 1..])
  {
    var r := s[..p] + s[p + 1..];
    forall i, j | 0 <= i < j < |r| ensures r[i] != r[j] {
      var i' := if i < p then i else i + 1;
      var j' := if j < p then j else j + 1;
      assert r[i] == s[i'] && r[j] == s[j'];
    }
  }
}
