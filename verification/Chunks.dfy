/** A stream that comes in pieces. */
module Chunks {
  function Concat<T>(pieces: seq<seq<T>>): seq<T> {
    if |pieces| == 0 then [] else pieces[0] + Concat(pieces[1..])
  }

  lemma {:induction false} ConcatAppend<T>(m: seq<seq<T>>, n: seq<seq<T>>)
    ensures Concat(m + n) == Concat(m) + Concat(n)
  {
    if |m| == 0 {
      assert m + n == n;
    } else {
      assert (m + n)[1..] == m[1..] + n;
      ConcatAppend(m[1..], n);
    }
  }

  lemma ConcatCons<T>(first: seq<T>, pieces: seq<seq<T>>)
    ensures Concat([first] + pieces) == first + Concat(pieces)
  {
  }

  /** One piece more. */
  lemma ConcatNext<T>(pieces: seq<seq<T>>, k: nat)
    requires k < |pieces|
    ensures Concat(pieces[..k + 1]) == Concat(pieces[..k]) + pieces[k]
  {
    assert pieces[..k + 1] == pieces[..k] + [pieces[k]];
    ConcatAppend(pieces[..k], [pieces[k]]);
    assert Concat([pieces[k]]) == pieces[k];
  }
}
