/** A sequence with one element put in or taken out. */
module SeqOps {

  function Inserted<T>(s: seq<T>, k: nat, x: T): (r: seq<T>)
    requires k <= |s|
    ensures |r| == |s| + 1 && r[k] == x
    ensures forall i :: 0 <= i < k ==> r[i] == s[i]
    ensures forall i :: k < i < |r| ==> r[i] == s[i - 1]
  {
    s[..k] + [x] + s[k..]
  }

  function Removed<T>(s: seq<T>, k: nat): (r: seq<T>)
    requires k < |s|
    ensures |r| == |s| - 1
    ensures forall i :: 0 <= i < k ==> r[i] == s[i]
    ensures forall i :: k <= i < |r| ==> r[i] == s[i + 1]
  {
    s[..k] + s[k + 1..]
  }

  lemma InsertedBetween<T>(s: seq<T>, a: seq<T>, x: T, b: seq<T>)
    requires s == a + b
    ensures Inserted(s, |a|, x) == a + [x] + b
  {
    assert s[..|a|] == a && s[|a|..] == b;
  }

  lemma InsertedParts<T>(s: seq<T>, k: nat, x: T)
    requires k <= |s|
    ensures s == s[..k] + s[k..] && Inserted(s, k, x) == s[..k] + ([x] + s[k..])
  {
  }

  lemma InsertedMembers<T>(s: seq<T>, k: nat, x: T)
    requires k <= |s|
    ensures forall y :: y in Inserted(s, k, x) <==> y == x || y in s
  {
    assert s == s[..k] + s[k..];
  }

  /** Moving the first element elsewhere keeps the members. */
  lemma MovedMembers<T>(s: seq<T>, k: nat)
    requires k < |s|
    ensures forall y :: y in Inserted(s[1..], k, s[0]) <==> y in s
  {
    assert s == [s[0]] + s[1..];
    InsertedMembers(s[1..], k, s[0]);
  }

  lemma RemovedMembers<T>(s: seq<T>, k: nat)
    requires k < |s| && forall i, j :: 0 <= i < j < |s| ==> s[i] != s[j]
    ensures forall y :: y in Removed(s, k) <==> y in s && y != s[k]
  {
    forall y ensures y in Removed(s, k) <==> y in s && y != s[k] {
      if y in s && y != s[k] {
        var i :| 0 <= i < |s| && s[i] == y;
        assert Removed(s, k)[if i < k then i else i - 1] == y;
      }
    }
  }
}
