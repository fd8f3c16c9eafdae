/** What several parts of the model share: bytes and pages, optional values, duplicate-free sequences and
    ranges. */
module Collections {
  newtype byte = x: int | 0 <= x < 256

  const PAGE: nat := 4096

  datatype Option<+T> = None | Some(value: T)

  ghost predicate NoDuplicates<T>(s: seq<T>) {
    forall i, j :: 0 <= i < j < |s| ==> s[i] != s[j]
  }

  lemma NoDuplicatesAppend<T>(s: seq<T>, x: T)
    requires NoDuplicates(s) && forall i :: 0 <= i < |s| ==> s[i] != x
    ensures NoDuplicates(s + [x])
  {
  }

  /** The `n` numbers from `lo` on. */
  ghost function Range(lo: int, n: nat): (s: set<int>)
    ensures forall k :: k in s <==> lo <= k < lo + n
    ensures |s| == n
  {
    if n == 0 then {} else Range(lo, n - 1) + {lo + n - 1}
  }

  /** Distinct numbers below `n` are at most `n`, and if there are `n` of them they are all of them. */
  lemma {:induction false} Pigeonhole(xs: seq<int>, n: nat)
    requires NoDuplicates(xs) && forall i :: 0 <= i < |xs| ==> 0 <= xs[i] < n
    ensures |xs| <= n
    ensures |xs| == n ==> forall k :: 0 <= k < n ==> k in xs
    decreases n
  {
    assert |xs| > 0 ==> 0 <= xs[0] < n;
    if n == 0 {
    } else if m :| 0 <= m < |xs| && xs[m] == n - 1 {
      var ys := xs[..m] + xs[m + 1..];
      forall i | 0 <= i < |ys| ensures 0 <= ys[i] < n - 1 && ys[i] in xs {
        assert ys[i] == xs[if i < m then i else i + 1];
      }
      Pigeonhole(ys, n - 1);
      assert forall k :: 0 <= k < n && k in ys ==> k in xs;
    } else {
      Pigeonhole(xs, n - 1);
    }
  }
}
