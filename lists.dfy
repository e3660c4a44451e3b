/**
 * Ruby's `Array#uniq`: keep the first occurrence of every value, in order.
 */
module Lists {

  predicate NoDuplicates<T(==)>(s: seq<T>) {
    forall i, j :: 0 <= i < j < |s| ==> s[i] != s[j]
  }

  /** Position of the first occurrence of `x` in `s`. */
  function FirstIndex<T(==)>(s: seq<T>, x: T): (k: nat)
    requires x in s
    ensures k < |s| && s[k] == x && x !in s[..k]
  {
    if s[0] == x then 0 else 1 + FirstIndex(s[1..], x)
  }

  /** The values of `s` without repeats, each where it was first seen. */
  function Uniq<T(==)>(s: seq<T>): seq<T>
    decreases |s|
  {
    if s == [] then []
    else
      var u := Uniq(s[..|s| - 1]);
      if s[|s| - 1] in u then u else u + [s[|s| - 1]]
  }

  /** One more value: `uniq` appends it unless it has been seen. */
  lemma UniqSnoc<T>(s: seq<T>, x: T)
    ensures Uniq(s + [x]) == if x in Uniq(s) then Uniq(s) else Uniq(s) + [x]
  {
    assert (s + [x])[..|s|] == s;
  }

  /** `uniq` keeps exactly the values of its input. */
  lemma {:induction false} UniqSameElements<T>(s: seq<T>, x: T)
    ensures x in Uniq(s) <==> x in s
    decreases |s|
  {
    if s != [] {
      var init := s[..|s| - 1];
      UniqSameElements(init, x);
      assert s == init + [s[|s| - 1]];
    }
  }

  /** `uniq` leaves no value twice. */
  lemma {:induction false} UniqNoDuplicates<T>(s: seq<T>)
    ensures NoDuplicates(Uniq(s))
    decreases |s|
  {
    if s != [] {
      UniqNoDuplicates(s[..|s| - 1]);
    }
  }

  /** `uniq` lists the values in the order of their first occurrence. */
  lemma {:induction false} UniqFirstSeenOrder<T>(s: seq<T>, i: nat, j: nat)
    requires i < j < |Uniq(s)|
    ensures Uniq(s)[i] in s && Uniq(s)[j] in s
    ensures FirstIndex(s, Uniq(s)[i]) < FirstIndex(s, Uniq(s)[j])
    decreases |s|
  {
    assert s != [];
    var init, last := s[..|s| - 1], s[|s| - 1];
    assert s == init + [last];
    var u := Uniq(init);
    if last in u {
      assert Uniq(s) == u;
      UniqFirstSeenOrder(init, i, j);
      FirstIndexExtend(init, last, u[i]);
      FirstIndexExtend(init, last, u[j]);
    } else {
      assert Uniq(s) == u + [last];
      if j < |u| {
        UniqFirstSeenOrder(init, i, j);
        FirstIndexExtend(init, last, u[i]);
        FirstIndexExtend(init, last, u[j]);
      } else {
        UniqSameElements(init, u[i]);
        UniqSameElements(init, last);
        FirstIndexExtend(init, last, u[i]);
        FirstIndexLast(init, last);
      }
    }
  }

  lemma FirstIndexExtend<T>(s: seq<T>, y: T, x: T)
    requires x in s
    ensures x in s + [y] && FirstIndex(s + [y], x) == FirstIndex(s, x)
  {
    var k := FirstIndex(s, x);
    FirstIndexUnique(s + [y], x, k);
  }

  lemma FirstIndexLast<T>(s: seq<T>, y: T)
    requires y !in s
    ensures FirstIndex(s + [y], y) == |s|
  {
    assert (s + [y])[..|s|] == s;
    FirstIndexUnique(s + [y], y, |s|);
  }

  /** The first index is the one position holding `x` with no `x` before it. */
  lemma {:induction false} FirstIndexUnique<T>(s: seq<T>, x: T, k: nat)
    requires k < |s| && s[k] == x && x !in s[..k]
    ensures FirstIndex(s, x) == k
    decreases k
  {
    if k > 0 {
      assert s[0] in s[..k];
      assert s[1..][k - 1] == x;
      assert s[1..][..k - 1] == s[1..k];
      assert forall z :: z in s[1..k] ==> z in s[..k];
      FirstIndexUnique(s[1..], x, k - 1);
    }
  }

  /** A list without repeats is its own `uniq`. */
  lemma {:induction false} UniqOfDistinct<T>(s: seq<T>)
    requires NoDuplicates(s)
    ensures Uniq(s) == s
    decreases |s|
  {
    if s != [] {
      var init := s[..|s| - 1];
      UniqOfDistinct(init);
      assert s[|s| - 1] !in init;
      assert s == init + [s[|s| - 1]];
    }
  }

  /** A repeat is dropped and a new value kept. */
  lemma UniqRepeatThenNew<T>(s: seq<T>, x: T, y: T)
    requires NoDuplicates(s) && x in s && y !in s
    ensures Uniq(s + [x, y]) == s + [y]
  {
    assert s + [x, y] == (s + [x]) + [y];
    UniqOfDistinct(s);
    UniqSnoc(s, x);
    UniqSnoc(s + [x], y);
  }

  /** `uniq` of an extended list extends `uniq` of the original: values seen
      first keep their positions at the front. */
  lemma {:induction false} UniqPrefix<T>(a: seq<T>, b: seq<T>)
    ensures Uniq(a) <= Uniq(a + b)
    decreases |b|
  {
    if b == [] {
      assert a + b == a;
    } else {
      var b' := b[..|b| - 1];
      UniqPrefix(a, b');
      assert (a + b)[..|a + b| - 1] == a + b';
    }
  }
}
