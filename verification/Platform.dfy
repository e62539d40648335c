/** The height and the slope of a platform with offsets along its width (src/custom_object.cpp): between two
  neighbouring offsets the height is interpolated, in the integer arithmetic of C++. */
module Platform {
  import opened Arithmetic
  import opened Geometry
  import opened Wrappers

  /** The width of one of `n` segments, in units of 1/1024 of a pixel. */
  function SegmentWidth(w: nat, n: nat): (r: nat)
    requires n > 0
  {
    w * 1024 / n
  }

  predicate OnPlatform(area: Rect, xpos: int) {
    area.x <= xpos < area.x + area.w
  }

  /** Whether the width of a segment is not zero and the segment `d` pixels from the left edge is one of the `n`. */
  predicate SegmentInRange(w: nat, n: nat, d: nat)
    requires n > 0
  {
    SegmentWidth(w, n) > 0 && d * 1024 / SegmentWidth(w, n) < n
  }

  /** The offset of the height `d` pixels from the left edge. */
  function OffsetAt(w: nat, offsets: seq<int>, d: nat): int
    requires |offsets| >= 2 && SegmentInRange(w, |offsets| - 1, d)
  {
    var width := SegmentWidth(w, |offsets| - 1);
    var segment, partial := d * 1024 / width, d * 1024 % width;
    Truncated(partial * offsets[segment + 1] + (width - partial) * offsets[segment], width)
  }

  /** The platform below a position.  Nothing stands for the failed assertion, or the division by a zero width. */
  function PlatformRectAt(area: Rect, offsets: seq<int>, xpos: int): Option<Rect> {
    if offsets == [] then Some(area)
    else if !OnPlatform(area, xpos) then Some(area)
    else if |offsets| == 1 then Some(area.(y := area.y + offsets[0]))
    else if !SegmentInRange(area.w, |offsets| - 1, xpos - area.x) then None
    else Some(area.(y := area.y + OffsetAt(area.w, offsets, xpos - area.x)))
  }

  /** The slope in degrees, 45 for a rise of one pixel on each pixel. */
  function PlatformSlopeAt(area: Rect, offsets: seq<int>, xpos: int): Option<int> {
    if |offsets| <= 1 then Some(0)
    else if !OnPlatform(area, xpos) then Some(0)
    else if !SegmentInRange(area.w, |offsets| - 1, xpos - area.x) then None
    else
      var dx := SegmentWidth(area.w, |offsets| - 1);
      var segment := (xpos - area.x) * 1024 / dx;
      var dy := (offsets[segment + 1] - offsets[segment]) * 1024;
      Some(Truncated(dy * 45, dx))
  }

  // ---------------------------------------------------------------------------------------------
  // When the segment is in range
  // ---------------------------------------------------------------------------------------------

  /** The last pixel decides, and what it decides is whether the remainder of the division is less than a pixel. */
  lemma LastPixelDecides(w: nat, n: nat)
    requires n > 0 && w > 0
    ensures SegmentInRange(w, n, w - 1) <==> w * 1024 % n < 1024
  {
    var width := SegmentWidth(w, n);
    assert w * 1024 == n * width + w * 1024 % n;
    if width > 0 {
      var k := (w - 1) * 1024 / width;
      DivBounds((w - 1) * 1024, width);
      if k < n {
        MulMono(k + 1, n, width);
      } else {
        MulMono(n, k, width);
      }
    }
  }

  lemma EarlierPixelInRange(w: nat, n: nat, d: nat, e: nat)
    requires n > 0 && d <= e && SegmentInRange(w, n, e)
    ensures SegmentInRange(w, n, d)
  {
    DivMono(d * 1024, e * 1024, SegmentWidth(w, n));
  }

  /** Neither function fails anywhere on the platform if and only if the width, in units, leaves less than a pixel
      when it is divided into segments. */
  lemma NeverFailsExactly(area: Rect, offsets: seq<int>)
    requires |offsets| >= 2
    ensures (forall xpos :: PlatformRectAt(area, offsets, xpos).Some? && PlatformSlopeAt(area, offsets, xpos).Some?)
            <==> area.w * 1024 % (|offsets| - 1) < 1024
  {
    var n := |offsets| - 1;
    if area.w > 0 {
      LastPixelDecides(area.w, n);
      if SegmentInRange(area.w, n, area.w - 1) {
        forall xpos
          ensures PlatformRectAt(area, offsets, xpos).Some? && PlatformSlopeAt(area, offsets, xpos).Some?
        {
          if OnPlatform(area, xpos) {
            EarlierPixelInRange(area.w, n, xpos - area.x, area.w - 1);
          }
        }
      } else {
        assert PlatformRectAt(area, offsets, area.x + area.w - 1).None?;
      }
    }
  }

  /** Up to 1025 offsets are safe on platforms of any width, and no greater number is. */
  lemma SafeForAllWidthsExactly(offsets: seq<int>)
    requires |offsets| >= 2
    ensures (forall area, xpos :: PlatformRectAt(area, offsets, xpos).Some?
                                  && PlatformSlopeAt(area, offsets, xpos).Some?)
            <==> |offsets| <= 1025
  {
    var n := |offsets| - 1;
    if n <= 1024 {
      forall area, xpos
        ensures PlatformRectAt(area, offsets, xpos).Some? && PlatformSlopeAt(area, offsets, xpos).Some?
      {
        NeverFailsExactly(area, offsets);
      }
    } else {
      var narrow := Rect(0, 0, 1, 0);
      NeverFailsExactly(narrow, offsets);
      assert 1024 % n == 1024;
    }
  }

  // ---------------------------------------------------------------------------------------------
  // The height between two offsets
  // ---------------------------------------------------------------------------------------------

  lemma TruncatedBounds(a: int, b: int)
    requires b > 0
    ensures a >= 0 ==> Truncated(a, b) >= 0 && Truncated(a, b) * b <= a < (Truncated(a, b) + 1) * b
    ensures a <= 0 ==> Truncated(a, b) <= 0 && (Truncated(a, b) - 1) * b < a <= Truncated(a, b) * b
  {
    if a >= 0 {
      DivBounds(a, b);
    }
    if a <= 0 {
      DivBounds(-a, b);
      var q := -a / b;
      assert (-q - 1) * b == -((q + 1) * b) && -q * b == -(q * b);
    }
  }

  /** Division toward zero keeps the bounds that are multiples of the divisor. */
  lemma TruncatedWithin(a: int, b: int, low: int, high: int)
    requires b > 0 && low * b <= a <= high * b
    ensures low <= Truncated(a, b) <= high
  {
    hide Truncated;
    TruncatedBounds(a, b);
    var q := Truncated(a, b);
    if a >= 0 {
      CancelLt(low, q + 1, b);
      CancelLe(q, high, b);
    } else {
      CancelLe(low, q, b);
      CancelLt(q - 1, high, b);
    }
  }

  lemma TruncatedMono(a: int, a': int, b: int)
    requires b > 0 && a <= a'
    ensures Truncated(a, b) <= Truncated(a', b)
  {
    hide Truncated;
    TruncatedBounds(a, b);
    TruncatedBounds(a', b);
    if a >= 0 {
      CancelLt(Truncated(a, b), Truncated(a', b) + 1, b);
    } else if a' < 0 {
      CancelLt(Truncated(a, b) - 1, Truncated(a', b), b);
    }
  }

  /** The weighted sum of two neighbours, as a distance from the first. */
  lemma Interpolation(p: int, s: int, o: int, o': int)
    ensures p * o' + (s - p) * o == s * o + p * (o' - o)
  {
  }

  /** On a platform each height offset lies between the offsets at the ends of its segment, and is the offset of the
      first where the segment begins. */
  lemma BetweenNeighbours(w: nat, offsets: seq<int>, d: nat)
    requires |offsets| >= 2 && SegmentInRange(w, |offsets| - 1, d)
    ensures var width := SegmentWidth(w, |offsets| - 1);
      var o, o' := offsets[d * 1024 / width], offsets[d * 1024 / width + 1];
      && (if o < o' then o else o') <= OffsetAt(w, offsets, d) <= (if o < o' then o' else o)
      && (d * 1024 % width == 0 ==> OffsetAt(w, offsets, d) == o)
  {
    var width := SegmentWidth(w, |offsets| - 1);
    var o, o', p := offsets[d * 1024 / width], offsets[d * 1024 / width + 1], d * 1024 % width;
    Interpolation(p, width, o, o');
    hide Truncated;
    WeightedBetween(p, width, o' - o);
    var sum := p * o' + (width - p) * o;
    var low, high := if o < o' then o else o', if o < o' then o' else o;
    assert width * o' == width * o + width * (o' - o);
    assert width * o == o * width && width * o' == o' * width;
    TruncatedWithin(sum, width, low, high);
    if p == 0 {
      TruncatedWithin(sum, width, o, o);
    }
  }

  lemma WeightedBetween(p: int, s: int, difference: int)
    requires 0 <= p < s
    ensures difference >= 0 ==> 0 <= p * difference <= s * difference
    ensures difference <= 0 ==> s * difference <= p * difference <= 0
  {
    if difference >= 0 {
      MulMono(p, s, difference);
      MulMono(0, p, difference);
    } else {
      MulMono(p, s, -difference);
      MulMono(0, p, -difference);
    }
  }

  /** `q` is the quotient of `a` by `b`, cut toward zero. */
  predicate IsCut(q: int, a: int, b: int) {
    && (a >= 0 ==> q >= 0 && q * b <= a < (q + 1) * b)
    && (a <= 0 ==> q <= 0 && (-q) * b <= -a < (-q + 1) * b)
  }

  lemma TruncatedIsCut(a: int, b: int)
    requires b > 0
    ensures IsCut(Truncated(a, b), a, b)
  {
    hide Truncated;
    TruncatedBounds(a, b);
    var q := Truncated(a, b);
    assert (-q) * b == -(q * b) && (-q + 1) * b == -((q - 1) * b);
  }

  /** The height: the platform is moved by the average of the two offsets next to the position, each weighted with the
      distance to the other in units of 1/1024 of a pixel, and cut toward zero. */
  lemma HeightIsInterpolated(area: Rect, offsets: seq<int>, xpos: int)
    requires |offsets| >= 2 && area.x <= xpos < area.x + area.w
    requires var width := area.w * 1024 / (|offsets| - 1);
      width > 0 && (xpos - area.x) * 1024 / width < |offsets| - 1
    ensures var width, pos := area.w * 1024 / (|offsets| - 1), (xpos - area.x) * 1024;
      var o, o', p := offsets[pos / width], offsets[pos / width + 1], pos % width;
      && PlatformRectAt(area, offsets, xpos).Some?
      && var r := PlatformRectAt(area, offsets, xpos).value;
         r == area.(y := r.y) && IsCut(r.y - area.y, p * o' + (width - p) * o, width)
  {
    hide Truncated, IsCut;
    var width, pos := area.w * 1024 / (|offsets| - 1), (xpos - area.x) * 1024;
    var o, o', p := offsets[pos / width], offsets[pos / width + 1], pos % width;
    TruncatedIsCut(p * o' + (width - p) * o, width);
  }

  /** Without offsets, or beside the platform, nothing is moved; a single offset moves all of it. */
  lemma HeightWithoutSegments(area: Rect, offsets: seq<int>, xpos: int)
    requires |offsets| <= 1 || !(area.x <= xpos < area.x + area.w)
    ensures PlatformSlopeAt(area, offsets, xpos) == Some(0)
    ensures var moved := if |offsets| == 1 && area.x <= xpos < area.x + area.w then offsets[0] else 0;
      PlatformRectAt(area, offsets, xpos) == Some(Rect(area.x, area.y + moved, area.w, area.h))
  {
  }

  /** The slope: 45 times the rise over the width of the segment, cut toward zero; just 45 where they are the same. */
  lemma SlopeIsRise(area: Rect, offsets: seq<int>, xpos: int)
    requires |offsets| >= 2 && area.x <= xpos < area.x + area.w
    requires var width := area.w * 1024 / (|offsets| - 1);
      width > 0 && (xpos - area.x) * 1024 / width < |offsets| - 1
    ensures var width := area.w * 1024 / (|offsets| - 1);
      var segment := (xpos - area.x) * 1024 / width;
      var rise := (offsets[segment + 1] - offsets[segment]) * 1024;
      && PlatformSlopeAt(area, offsets, xpos).Some?
      && var slope := PlatformSlopeAt(area, offsets, xpos).value;
         IsCut(slope, rise * 45, width) && (rise == width ==> slope == 45) && (rise == -width ==> slope == -45)
  {
    hide Truncated, IsCut;
    var width := area.w * 1024 / (|offsets| - 1);
    var segment := (xpos - area.x) * 1024 / width;
    var rise := (offsets[segment + 1] - offsets[segment]) * 1024;
    TruncatedIsCut(rise * 45, width);
    TruncatedWithin(45 * width, width, 45, 45);
    TruncatedWithin(-45 * width, width, -45, -45);
  }

  /** Between two offsets the height moves toward the second. */
  lemma MovesTowardNext(p: int, p': int, s: int, o: int, o': int)
    requires p <= p' && s > 0
    ensures var y, y' := Truncated(p * o' + (s - p) * o, s), Truncated(p' * o' + (s - p') * o, s);
      if o <= o' then y <= y' else y >= y'
  {
    hide Truncated;
    Interpolation(p, s, o, o');
    Interpolation(p', s, o, o');
    if o <= o' {
      MulMono(p, p', o' - o);
      TruncatedMono(p * o' + (s - p) * o, p' * o' + (s - p') * o, s);
    } else {
      MulMono(p, p', o - o');
      assert p * (o' - o) == -(p * (o - o')) && p' * (o' - o) == -(p' * (o - o'));
      TruncatedMono(p' * o' + (s - p') * o, p * o' + (s - p) * o, s);
    }
  }

  /** Within a segment the height moves the way that the slope says, and not the other way. */
  lemma HeightFollowsSlope(area: Rect, offsets: seq<int>, xpos: int, xpos': int)
    requires |offsets| >= 2 && OnPlatform(area, xpos) && OnPlatform(area, xpos') && xpos <= xpos'
    requires SegmentInRange(area.w, |offsets| - 1, xpos - area.x)
    requires SegmentInRange(area.w, |offsets| - 1, xpos' - area.x)
    requires var width := SegmentWidth(area.w, |offsets| - 1);
      (xpos - area.x) * 1024 / width == (xpos' - area.x) * 1024 / width
    ensures var slope := PlatformSlopeAt(area, offsets, xpos).value;
      var y, y' := PlatformRectAt(area, offsets, xpos).value.y, PlatformRectAt(area, offsets, xpos').value.y;
      && PlatformSlopeAt(area, offsets, xpos') == Some(slope)
      && (slope > 0 ==> y <= y') && (slope < 0 ==> y >= y')
  {
    hide Truncated, SegmentWidth, OffsetAt;
    var width := SegmentWidth(area.w, |offsets| - 1);
    var d: nat, d': nat := xpos - area.x, xpos' - area.x;
    var segment := d * 1024 / width;
    OffsetMovesTowardNext(area.w, offsets, d, d');
    SlopeSign(offsets[segment + 1] - offsets[segment], width);
  }

  lemma OffsetMovesTowardNext(w: nat, offsets: seq<int>, d: nat, d': nat)
    requires |offsets| >= 2 && d <= d'
    requires SegmentInRange(w, |offsets| - 1, d) && SegmentInRange(w, |offsets| - 1, d')
    requires var width := SegmentWidth(w, |offsets| - 1); d * 1024 / width == d' * 1024 / width
    ensures var segment := d * 1024 / SegmentWidth(w, |offsets| - 1);
      if offsets[segment] <= offsets[segment + 1] then OffsetAt(w, offsets, d) <= OffsetAt(w, offsets, d')
      else OffsetAt(w, offsets, d) >= OffsetAt(w, offsets, d')
  {
    hide Truncated, SegmentWidth;
    var width := SegmentWidth(w, |offsets| - 1);
    var segment := d * 1024 / width;
    SameSegment(d * 1024, d' * 1024, width);
    MovesTowardNext(d * 1024 % width, d' * 1024 % width, width, offsets[segment], offsets[segment + 1]);
  }

  lemma SlopeSign(difference: int, dx: int)
    requires dx > 0
    ensures Truncated(difference * 1024 * 45, dx) > 0 ==> difference > 0
    ensures Truncated(difference * 1024 * 45, dx) < 0 ==> difference < 0
  {
    hide Truncated;
    TruncatedBounds(difference * 1024 * 45, dx);
  }

  lemma SameSegment(a: nat, b: nat, width: nat)
    requires width > 0 && a <= b && a / width == b / width
    ensures a % width <= b % width
  {
    assert a == width * (a / width) + a % width && b == width * (b / width) + b % width;
  }
}
