/** The list operations the engine relies on, over sequences. */
module Lists {

  /** No element occurs twice. */
  predicate NoDuplicates<T(==)>(s: seq<T>) {
    forall i, j :: 0 <= i < j < |s| ==> s[i] != s[j]
  }

  /** Position of the first occurrence of `x` in `s`. */
  function FirstIndex<T(==)>(s: seq<T>, x: T): (i: nat)
    requires x in s
    ensures i < |s| && s[i] == x
    ensures forall j :: 0 <= j < i ==> s[j] != x
  {
    if s[0] == x then 0 else 1 + FirstIndex(s[1..], x)
  }

  /** Python's `list.remove(x)`: drops the first occurrence of `x` and keeps the others in order. */
  function RemoveFirst<T(==)>(s: seq<T>, x: T): (r: seq<T>)
    requires x in s
    ensures r == s[..FirstIndex(s, x)] + s[FirstIndex(s, x) + 1..]
  {
    if s[0] == x then
      assert s == [s[0]] + s[1..];
      s[1..]
    else
      var t := s[1..];
      var j := FirstIndex(t, x);
      var rest := RemoveFirst(t, x);
      assert s[..j + 1] == [s[0]] + t[..j];
      assert s[j + 2..] == t[j + 1..];
      assert s == [s[0]] + t;
      [s[0]] + rest
  }

  /** Element `k` of `s` with position `i` cut out is element `k` or `k + 1` of `s`. */
  lemma CutAt<T>(s: seq<T>, i: nat, k: nat)
    requires i < |s| && k < |s| - 1
    ensures (s[..i] + s[i + 1..])[k] == s[if k < i then k else k + 1]
  {
  }

  /** Removing from a list without duplicates removes exactly that element, and no duplicate appears. */
  lemma RemoveFirstFromDistinct<T>(s: seq<T>, x: T)
    requires x in s && NoDuplicates(s)
    ensures |RemoveFirst(s, x)| == |s| - 1
    ensures NoDuplicates(RemoveFirst(s, x))
    ensures forall y :: y in RemoveFirst(s, x) <==> y in s && y != x
  {
    var i := FirstIndex(s, x);
    var r := RemoveFirst(s, x);
    forall a, b | 0 <= a < b < |r| ensures r[a] != r[b] {
      CutAt(s, i, a);
      CutAt(s, i, b);
    }
    forall y ensures y in r <==> y in s && y != x {
      if y in r {
        var k :| 0 <= k < |r| && r[k] == y;
        CutAt(s, i, k);
      }
      if y in s && y != x {
        var k :| 0 <= k < |s| && s[k] == y;
        var j := if k < i then k else k - 1;
        CutAt(s, i, j);
        assert r[j] == y;
      }
    }
  }
}
