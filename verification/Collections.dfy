/** Small total helpers shared by the models. */
module Collections {

  datatype Option<+T> = None | Some(value: T)

  /** The loop `for (i = 0; ...) if (s[i] == x) break`: the first position of `x`. */
  function FirstIndex<T(==)>(s: seq<T>, x: T): (r: Option<nat>)
    ensures r.Some? ==> r.value < |s| && s[r.value] == x && x !in s[..r.value]
    ensures r.None? ==> x !in s
  {
    if s == [] then None
    else if s[0] == x then Some(0)
    else match FirstIndex(s[1..], x)
      case None => None
      case Some(i) =>
        assert s[1..][..i] == s[1..i + 1];
        assert s[..i + 1] == [s[0]] + s[1..i + 1];
        Some(i + 1)
  }

  /** A first position survives appending to the sequence. */
  lemma {:induction false} FirstIndexAppend<T>(s: seq<T>, t: seq<T>, x: T)
    requires x in s
    ensures FirstIndex(s + t, x) == FirstIndex(s, x)
  {
    if s[0] != x {
      assert (s + t)[1..] == s[1..] + t;
      FirstIndexAppend(s[1..], t, x);
    }
  }

  lemma {:induction false} FirstIndexIs<T>(s: seq<T>, x: T, i: nat)
    requires i < |s| && s[i] == x && x !in s[..i]
    ensures FirstIndex(s, x) == Some(i)
  {
    if i > 0 {
      assert s[0] in s[..i];
      assert s[1..][..i - 1] == s[..i][1..];
      FirstIndexIs(s[1..], x, i - 1);
    }
  }

  /** Linear search. */
  method FindFirst<T(==)>(s: seq<T>, x: T) returns (r: Option<nat>)
    ensures r == FirstIndex(s, x)
  {
    var i := 0;
    while i < |s|
      invariant 0 <= i <= |s| && x !in s[..i]
    {
      if s[i] == x {
        FirstIndexIs(s, x, i);
        return Some(i);
      }
      i := i + 1;
    }
    return None;
  }

  lemma FirstIndexPrefix<T>(s: seq<T>, t: seq<T>, x: T)
    requires s <= t && x in s
    ensures FirstIndex(t, x) == FirstIndex(s, x)
  {
    assert t == s + t[|s|..];
    FirstIndexAppend(s, t[|s|..], x);
  }

  function Zeros(n: nat): (r: seq<int>)
    ensures |r| == n && forall i :: 0 <= i < n ==> r[i] == 0
  {
    seq(n, i => 0)
  }

  function Max(a: nat, b: nat): nat { if a < b then b else a }
}
