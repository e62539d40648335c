/** The passes in which an over-bright colour is drawn (src/color_utils.cpp, and the loop of custom_object::draw in
  src/custom_object.cpp): each pass is a colour of the screen, and together they add up to the transform. */
module ColorPasses {

  /** A channel of a transform is a signed integer of 16 bits. */
  type Int16 = x: int | -0x8000 <= x < 0x8000

  /** Red, green, blue and alpha. */
  type Transform = t: seq<Int16> | |t| == 4 witness [255, 255, 255, 255]

  function Clip(val: Int16): (r: Int16)
    ensures 0 <= r <= 255 && (0 <= val <= 255 <==> r == val)
    ensures forall other: Int16 :: other <= val ==> ClipValue(other) <= r
  {
    ClipValue(val)
  }

  function ClipValue(val: int): int {
    if val < 0 then 0 else if val > 255 then 255 else val
  }

  function ToColor(t: Transform): (c: Transform)
    ensures forall n :: 0 <= n < 4 ==> c[n] == ClipValue(t[n])
  {
    [Clip(t[0]), Clip(t[1]), Clip(t[2]), Clip(t[3])]
  }

  predicate FitsInColor(t: Transform) {
    forall n :: 0 <= n < 4 ==> t[n] <= 255
  }

  /** A number stored in 16 bits. */
  function Wrapped(x: int): (r: Int16)
    ensures (x - r) % 0x1_0000 == 0
  {
    (x + 0x8000) % 0x1_0000 - 0x8000
  }

  /** One colour channel less another, not below zero; the difference is stored in 16 bits again. */
  function Less(a: Int16, b: Int16): (r: Int16)
    ensures r == (if a > b then a - b else 0) <==> a - b < 0x8000
  {
    if a > b then Wrapped(a - b) else 0
  }

  /** What is left to draw after a pass with the clipped transform. */
  function Left(t: Transform): (r: Transform)
    ensures forall n :: 0 <= n < 3 ==> r[n] == if t[n] > 255 then t[n] - 255 else 0
    ensures r[3] == if t[3] > 255 then 255 else t[3]
  {
    [Less(t[0], Clip(t[0])), Less(t[1], Clip(t[1])), Less(t[2], Clip(t[2])), if t[3] > 255 then 255 else t[3]]
  }

  function Positive(x: int): nat {
    if x < 0 then 0 else x
  }

  /** The work that is left: it shrinks with every pass. */
  function Work(t: Transform): nat {
    Positive(t[0]) + Positive(t[1]) + Positive(t[2]) + if t[3] > 255 then 1 else 0
  }

  lemma WorkShrinks(t: Transform)
    requires !FitsInColor(t)
    ensures Work(Left(t)) < Work(t)
  {
    var n :| 0 <= n < 4 && t[n] > 255;
  }

  /** All the passes drawn for a transform: the first one as a matter of course, the others while it does not fit. */
  function Passes(t: Transform): (p: seq<Transform>)
    decreases Work(t)
  {
    if FitsInColor(t) then [ToColor(t)]
    else
      WorkShrinks(t);
      [ToColor(t)] + Passes(Left(t))
  }

  /** Pass `k` shows what is above `255 * k` of each colour channel, up to 255, and the same alpha as all the others. */
  lemma {:induction false} PassShows(t: Transform, k: nat, n: nat)
    requires k < |Passes(t)| && n < 4
    ensures Passes(t)[k][n] == ClipValue(if n == 3 then t[3] else t[n] - 255 * k)
    decreases k
  {
    hide ClipValue, Passes, Left;
    PassesStep(t);
    if k > 0 {
      PassShows(Left(t), k - 1, n);
      ClipShift(t[n], k);
    }
  }

  lemma ClipShift(x: Int16, k: nat)
    requires k >= 1
    ensures ClipValue((if x > 255 then x - 255 else 0) - 255 * (k - 1)) == ClipValue(x - 255 * k)
    ensures ClipValue(if x > 255 then 255 else x) == ClipValue(x)
  {
  }

  lemma EveryPassIsAColor(t: Transform, k: nat, n: nat)
    requires k < |Passes(t)| && n < 4
    ensures 0 <= Passes(t)[k][n] <= 255
  {
    PassShows(t, k, n);
  }

  /** The sum of one channel over some passes. */
  function Total(passes: seq<Transform>, n: nat): int
    requires n < 4
  {
    if passes == [] then 0 else passes[0][n] + Total(passes[1..], n)
  }

  /** Nothing of a colour channel is lost or drawn twice; a negative one is drawn as zero. */
  lemma {:induction false} PassesAddUp(t: Transform, n: nat)
    requires n < 3
    ensures Total(Passes(t), n) == Positive(t[n])
    decreases Work(t)
  {
    if !FitsInColor(t) {
      WorkShrinks(t);
      PassesAddUp(Left(t), n);
    } else {
      assert Total([], n) == 0;
    }
  }

  /** So the drawn light is the transform's exactly where that is not negative. */
  lemma AddUpExactlyIfNotNegative(t: Transform)
    ensures var p := Passes(t);
      Total(p, 0) == t[0] && Total(p, 1) == t[1] && Total(p, 2) == t[2] <==> t[0] >= 0 && t[1] >= 0 && t[2] >= 0
  {
    PassesAddUp(t, 0);
    PassesAddUp(t, 1);
    PassesAddUp(t, 2);
  }

  function Brightest(t: Transform): int {
    if t[0] >= t[1] && t[0] >= t[2] then t[0] else if t[1] >= t[2] then t[1] else t[2]
  }

  /** There are just as many passes as the brightest channel needs; an alpha out of range costs a second one. */
  lemma {:induction false} AsManyAsNeeded(t: Transform)
    ensures var p := |Passes(t)|;
      && 255 * p >= Brightest(t)
      && (p > 1 ==> 255 * (p - 1) < Brightest(t) || (p == 2 && t[3] > 255))
      && (p == 1 <==> FitsInColor(t))
    decreases Work(t)
  {
    if !FitsInColor(t) {
      WorkShrinks(t);
      AsManyAsNeeded(Left(t));
      assert Left(t)[3] <= 255;
      assert |Passes(t)| == 1 + |Passes(Left(t))| && Passes(Left(t)) != [];
    }
  }

  /** The passes after the first one. */
  function Further(t: Transform): seq<Transform> {
    if FitsInColor(t) then [] else Passes(Left(t))
  }

  /** The loop of the source over the channels. */
  method ChannelsFit(rgba: array<Int16>) returns (fits: bool)
    requires rgba.Length == 4
    ensures fits == FitsInColor(rgba[..])
  {
    for n := 0 to 4
      invariant forall k :: 0 <= k < n ==> rgba[k] <= 255
    {
      if rgba[n] > 255 {
        return false;
      }
    }
    return true;
  }

  /** The result is a copy of `a` that is changed in place. */
  method Subtract(a: array<Int16>, b: array<Int16>) returns (result: array<Int16>)
    requires a.Length == b.Length == 4
    ensures fresh(result) && result.Length == 4
    ensures forall n :: 0 <= n < 3 ==> result[n] == Less(a[n], b[n])
    ensures result[3] == if a[3] > 255 then 255 else a[3]
  {
    result := new Int16[4](n requires 0 <= n < 4 reads a => a[n]);
    for n := 0 to 3
      invariant forall k :: 0 <= k < n ==> result[k] == Less(a[k], b[k])
      invariant forall k :: n <= k < 4 ==> result[k] == a[k]
    {
      if result[n] > b[n] {
        result[n] := Wrapped(result[n] as int - b[n] as int);
      } else {
        result[n] := 0;
      }
    }
    if result[3] > 255 {
      result[3] := 255;
    }
  }

  method ClippedColor(rgba: array<Int16>) returns (color: array<Int16>)
    requires rgba.Length == 4
    ensures fresh(color) && color.Length == 4 && color[..] == ToColor(rgba[..])
  {
    color := new Int16[4](n requires 0 <= n < 4 reads rgba => Clip(rgba[n]));
    assert forall n :: 0 <= n < 4 ==> color[n] == ToColor(rgba[..])[n];
  }

  method Remaining(transform: array<Int16>) returns (result: array<Int16>)
    requires transform.Length == 4
    ensures fresh(result) && result.Length == 4 && result[..] == Left(transform[..])
  {
    var color := ClippedColor(transform);
    assert forall n :: 0 <= n < 4 ==> color[n] == color[..][n];
    result := Subtract(transform, color);
    assert forall n :: 0 <= n < 4 ==> result[n] == Left(transform[..])[n];
  }

  /** The draws of an object with a colour, each with the current colour it is made with. */
  method DrawPasses(drawColor: array<Int16>) returns (passes: seq<Transform>)
    requires drawColor.Length == 4
    ensures passes == Passes(drawColor[..])
  {
    hide Passes, Left, ToColor, Work, FitsInColor, Further;
    var color := ClippedColor(drawColor);
    passes := [color[..]];
    var transform := drawColor;
    PassesStep(transform[..]);
    var fits := ChannelsFit(transform);
    while !fits
      invariant transform.Length == 4
      invariant fits == FitsInColor(transform[..])
      invariant passes + Further(transform[..]) == Passes(drawColor[..])
      decreases Work(transform[..])
    {
      ghost var before: Transform, drawn := transform[..], passes;
      WorkShrinks(before);
      PassesStep(before);
      transform := Remaining(transform);
      PassesStep(transform[..]);
      color := ClippedColor(transform);
      passes := passes + [color[..]];
      assert drawn + Further(before) == passes + Further(transform[..]);
      fits := ChannelsFit(transform);
    }
    PassesStep(transform[..]);
  }

  lemma PassesStep(t: Transform)
    ensures Passes(t) == [ToColor(t)] + Further(t)
    ensures Further(t) == if FitsInColor(t) then [] else Passes(Left(t))
  {
    if !FitsInColor(t) {
      WorkShrinks(t);
    }
  }
}
