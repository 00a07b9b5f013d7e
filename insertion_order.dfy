/** The key order of a Python dict: a key is placed where it was first
    inserted, and inserting it again does not move it. */
module InsertionOrder {

  predicate NoDuplicates<T(==)>(s: seq<T>) {
    forall i, j :: 0 <= i < j < |s| ==> s[i] != s[j]
  }

  /** The distinct elements of `h`, each at the place of its first occurrence. */
  function FirstWrites<T(==)>(h: seq<T>): seq<T>
    decreases |h|
  {
    if h == [] then []
    else
      var d := FirstWrites(h[..|h| - 1]);
      if h[|h| - 1] in d then d else d + [h[|h| - 1]]
  }

  /** `FirstWrites(h)` holds exactly the elements of `h`. */
  lemma {:induction false} FirstWritesElements<T>(h: seq<T>, x: T)
    ensures x in FirstWrites(h) <==> x in h
    decreases |h|
  {
    if h != [] {
      FirstWritesElements(h[..|h| - 1], x);
      assert h == h[..|h| - 1] + [h[|h| - 1]];
    }
  }

  /** `FirstWrites(h)` holds each element once. */
  lemma {:induction false} FirstWritesDistinct<T>(h: seq<T>)
    ensures NoDuplicates(FirstWrites(h))
    decreases |h|
  {
    if h != [] {
      FirstWritesDistinct(h[..|h| - 1]);
    }
  }

  /** The position of the first occurrence of `x` in `h`. */
  function FirstIndex<T(==)>(h: seq<T>, x: T): (i: nat)
    requires x in h
    ensures i < |h| && h[i] == x && x !in h[..i]
  {
    if h[0] == x then 0
    else
      var i := 1 + FirstIndex(h[1..], x);
      assert h[..i] == [h[0]] + h[1..][..i - 1];
      i
  }

  /** The first occurrence is the only position before which `x` is absent. */
  lemma FirstIndexUnique<T>(h: seq<T>, x: T, i: nat)
    requires i < |h| && h[i] == x && x !in h[..i]
    ensures FirstIndex(h, x) == i
  {
  }

  /** Appending to `h` does not move the first occurrence of an element already in it. */
  lemma FirstIndexOfPrefix<T>(h: seq<T>, y: T, x: T)
    requires x in h
    ensures x in h + [y] && FirstIndex(h + [y], x) == FirstIndex(h, x)
  {
    var i := FirstIndex(h, x);
    assert (h + [y])[..i] == h[..i];
    FirstIndexUnique(h + [y], x, i);
  }

  /** `FirstWrites(h)` lists elements in the order of their first occurrences in `h`. */
  lemma {:induction false} FirstWritesOrdered<T>(h: seq<T>)
    ensures forall i :: 0 <= i < |FirstWrites(h)| ==> FirstWrites(h)[i] in h
    ensures forall i, j :: 0 <= i < j < |FirstWrites(h)| ==>
      FirstIndex(h, FirstWrites(h)[i]) < FirstIndex(h, FirstWrites(h)[j])
    decreases |h|
  {
    if h != [] {
      var front, last := h[..|h| - 1], h[|h| - 1];
      assert h == front + [last];
      FirstWritesOrdered(front);
      var d0 := FirstWrites(front);
      forall x | x in d0
        ensures x in front
      {
        FirstWritesElements(front, x);
      }
      forall x | x in d0
        ensures FirstIndex(h, x) == FirstIndex(front, x)
      {
        FirstIndexOfPrefix(front, last, x);
      }
      if last !in d0 {
        FirstWritesElements(front, last);
        FirstIndexUnique(h, last, |h| - 1);
        var d := d0 + [last];
        assert FirstWrites(h) == d;
        forall i, j | 0 <= i < j < |d|
          ensures FirstIndex(h, d[i]) < FirstIndex(h, d[j])
        {
          assert d[i] == d0[i] && d0[i] in front;
          assert FirstIndex(h, d[i]) == FirstIndex(front, d0[i]) < |front|;
          if j < |d0| {
            assert d[j] == d0[j] && d0[j] in front;
            assert FirstIndex(h, d[j]) == FirstIndex(front, d0[j]);
            assert FirstIndex(front, d0[i]) < FirstIndex(front, d0[j]);
          } else {
            assert d[j] == last && FirstIndex(h, last) == |h| - 1;
          }
        }
      }
    }
  }
}
