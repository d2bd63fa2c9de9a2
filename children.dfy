/** Operations on a container's ordered list of children, found by identity
    (the list is of block identities, so `==` is identity as in `indexOf`). */
module Children {

  /** Position of the first occurrence of `x` in `s`, or -1 when absent. */
  function IndexOf<T(==)>(s: seq<T>, x: T): (i: int)
    ensures -1 <= i < |s|
    ensures 0 <= i ==> s[i] == x && x !in s[..i]
    ensures i == -1 <==> x !in s
  {
    if s == [] then -1
    else if s[0] == x then 0
    else
      var j := IndexOf(s[1..], x);
      if j < 0 then -1
      else
        assert s[..j + 1] == [s[0]] + s[1..][..j];
        j + 1
  }

  /** The list after swapping `b` in for the first occurrence of `a`;
      unchanged when `a` is absent. */
  function Replaced<T(==)>(s: seq<T>, a: T, b: T): (r: seq<T>)
    ensures |r| == |s|
    ensures a !in s ==> r == s
    ensures a in s ==> r[IndexOf(s, a)] == b
    ensures forall k | 0 <= k < |s| && k != IndexOf(s, a) :: r[k] == s[k]
  {
    var i := IndexOf(s, a);
    if i >= 0 then s[i := b] else s
  }

  /** The list after deleting the first occurrence of `x`; unchanged when
      `x` is absent. */
  function Spliced<T(==)>(s: seq<T>, x: T): (r: seq<T>)
    ensures x !in s ==> r == s
    ensures x in s ==> |r| == |s| - 1
    ensures x in s ==> forall k | 0 <= k < IndexOf(s, x) :: r[k] == s[k]
    ensures x in s ==> forall k | IndexOf(s, x) <= k < |r| :: r[k] == s[k + 1]
  {
    var i := IndexOf(s, x);
    if i >= 0 then s[..i] + s[i + 1..] else s
  }

  /** Replacing an occurrence trades exactly one `a` for one `b`. */
  lemma ReplacedMultiset<T>(s: seq<T>, a: T, b: T)
    requires a in s
    ensures multiset(Replaced(s, a, b)) == multiset(s) - multiset{a} + multiset{b}
  {
    var i := IndexOf(s, a);
    assert s == s[..i] + [a] + s[i + 1..];
    assert Replaced(s, a, b) == s[..i] + [b] + s[i + 1..];
  }

  /** Splicing removes exactly one `x` and keeps every other element. */
  lemma SplicedMultiset<T>(s: seq<T>, x: T)
    requires x in s
    ensures multiset(Spliced(s, x)) + multiset{x} == multiset(s)
  {
    var i := IndexOf(s, x);
    assert s == s[..i] + [x] + s[i + 1..];
  }

  /** Splicing never introduces an element. */
  lemma SplicedSubset<T>(s: seq<T>, x: T, y: T)
    requires y in Spliced(s, x)
    ensures y in s
  {
    if x in s {
      SplicedMultiset(s, x);
      assert y in multiset(Spliced(s, x));
    }
  }
}
