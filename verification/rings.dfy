/** Ring buffers with one slot always free: `top` is the next slot to fill, `bottom` the oldest filled one. */
module Rings {

  function After(i: nat, size: nat): (r: nat)
    requires i < size
    ensures r < size
  {
    if i + 1 == size then 0 else i + 1
  }

  function Before(i: nat, size: nat): (r: nat)
    requires i < size
    ensures r < size && After(r, size) == i
  {
    if i == 0 then size - 1 else i - 1
  }

  /** The filled slots, oldest first. */
  function Contents<T>(slots: seq<T>, top: nat, bottom: nat): (c: seq<T>)
    requires top < |slots| && bottom < |slots|
    ensures |c| < |slots|
    ensures c == [] <==> top == bottom
    ensures After(top, |slots|) == bottom <==> |c| == |slots| - 1
  {
    if bottom <= top then slots[bottom..top] else slots[bottom..] + slots[..top]
  }

  lemma Pushed<T>(slots: seq<T>, top: nat, bottom: nat, x: T)
    requires top < |slots| && bottom < |slots| && After(top, |slots|) != bottom
    ensures Contents(slots[top := x], After(top, |slots|), bottom) == Contents(slots, top, bottom) + [x]
    ensures top != bottom ==> slots[top := x][bottom] == slots[bottom]
  {
    var slots' := slots[top := x];
    if bottom <= top {
      assert slots'[bottom..top + 1] == slots[bottom..top] + [x];
      if top + 1 == |slots| {
        assert slots'[bottom..] + slots'[..0] == slots[bottom..top] + [x];
      }
    } else {
      assert slots'[..top + 1] == slots[..top] + [x];
      assert slots'[bottom..] == slots[bottom..];
    }
  }

  lemma Popped<T>(slots: seq<T>, top: nat, bottom: nat)
    requires top < |slots| && bottom < |slots| && top != bottom
    ensures Contents(slots, top, bottom)[0] == slots[bottom]
    ensures Contents(slots, top, After(bottom, |slots|)) == Contents(slots, top, bottom)[1..]
  {
    if bottom + 1 == |slots| {
      assert (slots[bottom..] + slots[..top])[1..] == slots[0..top];
    }
  }

  lemma NewestReplaced<T>(slots: seq<T>, top: nat, bottom: nat, x: T)
    requires top < |slots| && bottom < |slots| && top != bottom
    ensures var c := Contents(slots, top, bottom);
      Contents(slots[Before(top, |slots|) := x], top, bottom) == c[|c| - 1 := x]
  {
    var c := Contents(slots, top, bottom);
    var slots' := slots[Before(top, |slots|) := x];
    forall i | 0 <= i < |c|
      ensures Contents(slots', top, bottom)[i] == c[|c| - 1 := x][i]
    {
    }
  }

  /** The masks of the original: sizes 8 and 16 are powers of two. */
  lemma MaskedIndex(i: nat)
    ensures i < 16 ==> After(i, 16) == (i + 1) % 16
    ensures i < 8 ==> After(i, 8) == (i + 1) % 8 && Before(i, 8) == (i - 1) % 8
  {
  }
}
