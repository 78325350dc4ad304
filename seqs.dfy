/** The Python list operations the source uses: `list.index` and `list.remove`. */
module Seqs {

  /** `s.index(x)`: the position of the first occurrence of `x`. */
  function IndexOf<T(==)>(s: seq<T>, x: T): (k: nat)
    requires x in s
    ensures k < |s| && s[k] == x
    ensures forall j :: 0 <= j < k ==> s[j] != x
  {
    if s[0] == x then 0 else 1 + IndexOf(s[1..], x)
  }

  /** `s.remove(x)` when `x` occurs: drops the first occurrence only. */
  function RemoveFirst<T(==)>(s: seq<T>, x: T): (r: seq<T>)
    requires x in s
    ensures r == s[..IndexOf(s, x)] + s[IndexOf(s, x) + 1..]
  {
    if s[0] == x then s[1..]
    else
      var rest := RemoveFirst(s[1..], x);
      assert s == [s[0]] + s[1..];
      [s[0]] + rest
  }

  /** Removing the first occurrence takes exactly one `x` out of the multiset. */
  lemma RemoveFirstMultiset<T>(s: seq<T>, x: T)
    requires x in s
    ensures multiset(RemoveFirst(s, x)) == multiset(s) - multiset{x}
    ensures |RemoveFirst(s, x)| == |s| - 1
  {
    var k := IndexOf(s, x);
    assert s == s[..k] + [x] + s[k + 1..];
    calc {
      multiset(s);
      multiset(s[..k]) + multiset{x} + multiset(s[k + 1..]);
      multiset(RemoveFirst(s, x)) + multiset{x};
    }
  }

  /** Dropping position k takes exactly that element out of the multiset. */
  lemma RemoveAtMultiset<T>(s: seq<T>, k: nat)
    requires k < |s|
    ensures multiset(s[..k] + s[k + 1..]) == multiset(s) - multiset{s[k]}
  {
    assert s == s[..k] + [s[k]] + s[k + 1..];
  }

  /** Removing x from a list that has the same elements as b, where x sits at position k
      of b, leaves the same elements as b without position k. */
  lemma RemoveFirstMatchesAt<T>(a: seq<T>, b: seq<T>, k: nat, x: T)
    requires multiset(a) == multiset(b) && k < |b| && b[k] == x && x in a
    ensures multiset(RemoveFirst(a, x)) == multiset(b[..k] + b[k + 1..])
  {
    RemoveFirstMultiset(a, x);
    RemoveAtMultiset(b, k);
  }
}
