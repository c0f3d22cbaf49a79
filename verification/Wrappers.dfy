/** Shared small types: bytes, optional values, and sequences without repetition. */
module Wrappers {

  type Byte = b: int | 0 <= b < 256

  datatype Option<+T> = None | Some(value: T)

  ghost predicate NoDup<T>(s: seq<T>) {
    forall i, j :: 0 <= i < j < |s| ==> s[i] != s[j]
  }

  lemma NoDupConcat<T>(a: seq<T>, b: seq<T>)
    requires NoDup(a) && NoDup(b) && forall x :: x in a ==> x !in b
    ensures NoDup(a + b)
  {
    forall i, j | 0 <= i < j < |a + b|
      ensures (a + b)[i] != (a + b)[j]
    {
      if i < |a| <= j {
        assert (a + b)[i] in a && (a + b)[j] in b;
      }
    }
  }

  lemma NoDupTail<T>(x: T, s: seq<T>)
    requires NoDup([x] + s)
    ensures NoDup(s) && x !in s
  {
    forall i, j | 0 <= i < j < |s|
      ensures s[i] != s[j]
    {
      assert ([x] + s)[i + 1] != ([x] + s)[j + 1];
    }
    forall i | 0 <= i < |s|
      ensures s[i] != x
    {
      assert ([x] + s)[0] != ([x] + s)[i + 1];
    }
  }
}
