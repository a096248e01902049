/** What callers of Go's `sort.Slice` may rely on: some permutation of the input in which no later element
    is strictly less than an earlier one. Equal elements may end up in any order, so nothing else is promised. */
module Sorting {

  /** `less` compares the elements of `s` consistently: it is asymmetric and "not less" is transitive. */
  ghost predicate StrictWeakOrder<T>(less: (T, T) -> bool, s: seq<T>) {
    && (forall a, b | a in s && b in s && less(a, b) :: !less(b, a))
    && (forall a, b, c | a in s && b in s && c in s && !less(b, a) && !less(c, b) :: !less(c, a))
  }

  ghost predicate SortedBy<T>(less: (T, T) -> bool, s: seq<T>) {
    forall i, j | 0 <= i < j < |s| :: !less(s[j], s[i])
  }

  method Sort<T>(s: seq<T>, less: (T, T) -> bool) returns (r: seq<T>)
    requires StrictWeakOrder(less, s)
    ensures multiset(r) == multiset(s)
    ensures SortedBy(less, r)
  {
    r := [];
    for i := 0 to |s|
      invariant multiset(r) == multiset(s[..i])
      invariant SortedBy(less, r)
    {
      assert s[..i + 1] == s[..i] + [s[i]];
      assert forall x | x in r :: x in s by {
        forall x | x in r ensures x in s {
          assert x in multiset(r);
          assert x in s[..i];
        }
      }
      r := Insert(r, s[i], less, s);
    }
    assert s[..|s|] == s;
  }

  method Insert<T>(r: seq<T>, x: T, less: (T, T) -> bool, ghost s: seq<T>) returns (r': seq<T>)
    requires StrictWeakOrder(less, s)
    requires SortedBy(less, r)
    requires x in s && forall y | y in r :: y in s
    ensures multiset(r') == multiset(r) + multiset{x}
    ensures SortedBy(less, r')
  {
    hide StrictWeakOrder, SortedBy;
    var k := |r|;
    while k > 0 && less(x, r[k - 1])
      invariant 0 <= k <= |r|
      invariant forall j | k <= j < |r| :: less(x, r[j])
    {
      k := k - 1;
    }
    r' := r[..k] + [x] + r[k..];
    assert r == r[..k] + r[k..];
    InsertSorted(r, k, x, less, s);
  }

  lemma InsertSorted<T>(r: seq<T>, k: nat, x: T, less: (T, T) -> bool, s: seq<T>)
    requires StrictWeakOrder(less, s)
    requires SortedBy(less, r)
    requires x in s && forall i | 0 <= i < |r| :: r[i] in s
    requires k <= |r|
    requires k > 0 ==> !less(x, r[k - 1])
    requires forall j | k <= j < |r| :: less(x, r[j])
    ensures SortedBy(less, r[..k] + [x] + r[k..])
  {
    var t := r[..k] + [x] + r[k..];
    forall i | 0 <= i < k ensures !less(x, r[i]) {
      if i < k - 1 {
        assert !less(r[k - 1], r[i]);
        assert r[i] in s && r[k - 1] in s;
      }
    }
    forall i, j | 0 <= i < j < |t| ensures !less(t[j], t[i]) {
      var i' := if i < k then i else i - 1;
      var j' := if j < k then j else j - 1;
      if i != k && j != k {
        assert t[i] == r[i'] && t[j] == r[j'];
      } else if i == k {
        assert t[j] == r[j'] && r[j'] in s;
      } else {
        assert t[i] == r[i];
      }
    }
  }
}
