// The weak checksum of src/core/sync/delta.rs: what a window's checksum is, and the
// object that keeps it up to date while the window slides.
module RollingSum {
  import opened Bytes

  // The two sums over the integers, before any 32-bit wrap-around.
  function PlainSum(w: seq<byte>): nat {
    if w == [] then 0 else w[0] + PlainSum(w[1..])
  }

  // Every byte weighted by its distance from the end of the window.
  function WeightedSum(w: seq<byte>): nat {
    if w == [] then 0 else |w| * w[0] + WeightedSum(w[1..])
  }

  function Digest(w: seq<byte>): nat {
    PlainSum(w) % U16 + U16 * (WeightedSum(w) % U16)
  }

  // The digest is the low 16 bits of the plain sum, below those of the weighted one.
  lemma DigestHalves(w: seq<byte>)
    ensures Digest(w) % 0x1_0000 == PlainSum(w) % 0x1_0000
    ensures Digest(w) / 0x1_0000 == WeightedSum(w) % 0x1_0000
  {}

  // What one byte counts for: once in the plain sum, as often as its distance from the end in the
  // weighted one.
  lemma {:induction false} OneByteCounts(w: seq<byte>, i: nat, y: byte)
    requires i < |w|
    ensures PlainSum(w[i := y]) == PlainSum(w) - w[i] + y
    ensures WeightedSum(w[i := y]) == WeightedSum(w) + (|w| - i) * (y - w[i])
  {
    if i > 0 {
      OneByteCounts(w[1..], i - 1, y);
      assert w[i := y][1..] == w[1..][i - 1 := y];
    } else {
      assert w[0 := y][1..] == w[1..];
      assert |w| * (y - w[0]) == |w| * y - |w| * w[0];
    }
  }

  lemma {:induction false} ZerosSumToZero(w: seq<byte>)
    requires forall i :: 0 <= i < |w| ==> w[i] == 0
    ensures PlainSum(w) == 0 && WeightedSum(w) == 0
  {
    if w != [] {
      ZerosSumToZero(w[1..]);
      assert |w| * w[0] == 0;
    }
  }

  lemma {:induction false} SumsOfAppend(w: seq<byte>, y: byte)
    ensures PlainSum(w + [y]) == PlainSum(w) + y
    ensures WeightedSum(w + [y]) == WeightedSum(w) + PlainSum(w) + y
  {
    if w != [] {
      SumsOfAppend(w[1..], y);
      assert (w + [y])[1..] == w[1..] + [y];
      assert (|w| + 1) * w[0] == |w| * w[0] + w[0];
    } else {
      assert w + [y] == [y];
    }
  }

  // Sliding `window` one byte on: the recurrence behind `roll`, over the integers.
  lemma SumsOfSlide(window: seq<byte>, inb: byte)
    requires window != []
    ensures var slid := window[1..] + [inb];
      && PlainSum(slid) == PlainSum(window) - window[0] + inb
      && WeightedSum(slid) == WeightedSum(window) - |window| * window[0] + PlainSum(slid)
  {
    SumsOfAppend(window[1..], inb);
  }

  // Wrapping u32 arithmetic.
  function Wrap(x: int): nat { x % U32 }

  function WrapAdd(x: nat, y: nat): nat { Wrap(x + y) }

  function WrapSub(x: nat, y: nat): nat { Wrap(x - y) }

  lemma WrapShift(x: int, k: int)
    ensures Wrap(x + k * U32) == Wrap(x)
  {}

  lemma WrapIsRing(x: int, y: int)
    ensures Wrap(Wrap(x) + Wrap(y)) == Wrap(Wrap(x) + y) == Wrap(x + y)
    ensures Wrap(Wrap(x) - Wrap(y)) == Wrap(Wrap(x) - y) == Wrap(x - y)
  {
    var p, q := x / U32, y / U32;
    assert Wrap(x) == x - p * U32 && Wrap(y) == y - q * U32;
    hide Wrap;
    WrapShift(x + y, -p);
    WrapShift(x + y, -p - q);
    WrapShift(x - y, -p);
    WrapShift(x - y, q - p);
  }

  // The state of the constructor's loop after `i` bytes.
  ghost predicate Accumulated(window: seq<byte>, i: nat, a: nat, b: nat)
    requires i <= |window|
  {
    && a == Wrap(PlainSum(window[..i]))
    && b == Wrap(WeightedSum(window[..i]) + (|window| - i) * PlainSum(window[..i]))
  }

  lemma AccumulateStep(window: seq<byte>, i: nat, a: nat, b: nat)
    requires i < |window| && Accumulated(window, i, a, b)
    ensures Accumulated(window, i + 1, WrapAdd(a, window[i]), WrapAdd(b, Wrap((|window| - i) * window[i])))
  {
    var plain, weighted := PlainSum(window[..i]), WeightedSum(window[..i]);
    var weight, y := |window| - i, window[i];
    SumsOfAppend(window[..i], y);
    assert window[..i + 1] == window[..i] + [y];
    hide *;
    Regroup(weighted, plain, weight, y);
    WrapIsRing(plain, y);
    WrapIsRing(weighted + weight * plain, weight * y);
  }

  lemma AccumulateEnds(window: seq<byte>)
    ensures Accumulated(window, 0, 0, 0)
  {
    assert window[..0] == [];
  }

  lemma AccumulateDone(window: seq<byte>, a: nat, b: nat)
    requires Accumulated(window, |window|, a, b)
    ensures a == Wrap(PlainSum(window)) && b == Wrap(WeightedSum(window))
  {
    assert window[..|window|] == window;
  }

  lemma Regroup(weighted: int, plain: int, weight: int, y: int)
    ensures weighted + plain + y + (weight - 1) * (plain + y) == weighted + weight * plain + weight * y
  {
    assert (weight - 1) * (plain + y) == weight * plain + weight * y - plain - y;
  }

  lemma WrapSwap(x: int, dropped: int, added: int, result: int)
    requires result == x - dropped + added
    ensures Wrap(result) == WrapAdd(WrapSub(Wrap(x), Wrap(dropped)), Wrap(added))
  {
    WrapIsRing(x, dropped);
    WrapIsRing(x - dropped, added);
  }

  lemma WrapByte(y: byte)
    ensures Wrap(y) == y
  {}

  lemma SlideStep(window: seq<byte>, inb: byte)
    requires window != []
    ensures var slid := window[1..] + [inb];
      && Wrap(PlainSum(slid)) == WrapAdd(WrapSub(Wrap(PlainSum(window)), window[0]), inb)
      && Wrap(WeightedSum(slid))
         == WrapAdd(WrapSub(Wrap(WeightedSum(window)), Wrap(|window| * window[0])), Wrap(PlainSum(slid)))
  {
    var slid := window[1..] + [inb];
    var out: byte, drop := window[0], |window| * window[0];
    var plain, weighted, plain', weighted' :=
      PlainSum(window), WeightedSum(window), PlainSum(slid), WeightedSum(slid);
    assert plain' == plain - out + inb && weighted' == weighted - drop + plain' by {
      SumsOfSlide(window, inb);
    }
    WrapByte(out);
    WrapByte(inb);
    WrapSwap(plain, out, inb, plain');
    WrapSwap(weighted, drop, plain', weighted');
  }

  class Rolling {
    var a: nat
    var b: nat
    var len: nat

    // The object holds exactly the checksum state of `window`, modulo 2^32.
    ghost predicate Represents(window: seq<byte>)
      reads this
    {
      && a == Wrap(PlainSum(window))
      && b == Wrap(WeightedSum(window))
      && len == |window| < U32
    }

    constructor (window: seq<byte>)
      requires |window| < U32
      ensures Represents(window)
    {
      a, b, len := 0, 0, |window|;
      new;
      hide *;
      AccumulateEnds(window);
      var i := 0;
      while i < |window|
        invariant 0 <= i <= |window| == len
        invariant Accumulated(window, i, a, b)
      {
        AccumulateStep(window, i, a, b);
        a, b := WrapAdd(a, window[i]), WrapAdd(b, Wrap((len - i) * window[i]));
        i := i + 1;
      }
      assert Represents(window) by {
        AccumulateDone(window, a, b);
      }
    }

    method Roll(out: byte, inb: byte, ghost window: seq<byte>)
      requires Represents(window)
      requires window != [] && window[0] == out
      modifies this
      ensures Represents(window[1..] + [inb])
    {
      SlideStep(window, inb);
      a := WrapAdd(WrapSub(a, out), inb);
      b := WrapAdd(WrapSub(b, Wrap(len * out)), a);
    }

    method DigestOf(ghost window: seq<byte>) returns (d: nat)
      requires Represents(window)
      ensures d == Digest(window)
    {
      WrapKeepsLow16(PlainSum(window));
      WrapKeepsLow16(WeightedSum(window));
      d := a % U16 + U16 * (b % U16);
    }
  }

  lemma WrapKeepsLow16(x: nat)
    ensures Wrap(x) % U16 == x % U16
  {}
}
