/** Small things that several components share: optional values, and the kernel's linked lists as
    sequences. */
module Lists {

  datatype Option<+T> = None | Some(value: T)

  ghost predicate NoDup<T>(s: seq<T>) {
    forall a, b :: 0 <= a < b < |s| ==> s[a] != s[b]
  }

  /** The list with one element unlinked. */
  function Without<T(==)>(s: seq<T>, x: T): seq<T> {
    if s == [] then [] else if s[0] == x then s[1..] else [s[0]] + Without(s[1..], x)
  }

  lemma {:induction false} WithoutMembers<T>(s: seq<T>, x: T)
    requires NoDup(s) && x in s
    ensures |Without(s, x)| == |s| - 1 && NoDup(Without(s, x))
    ensures forall y :: y in Without(s, x) <==> y in s && y != x
  {
    assert s == [s[0]] + s[1..] && s[0] !in s[1..];
    if s[0] != x {
      WithoutMembers(s[1..], x);
    }
  }

  lemma NoDupCons<T>(s: seq<T>, x: T)
    requires NoDup(s) && x !in s
    ensures NoDup([x] + s) && NoDup(s + [x])
  {
  }
}
