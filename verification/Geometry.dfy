/** Rectangles of pixels and what one leaves of another (src/geometry.cpp). */
module Geometry {
  import opened Arithmetic
  import opened Wrappers

  datatype Rect = Rect(x: int, y: int, w: nat, h: nat)

  predicate Inside(r: Rect, px: int, py: int) {
    r.x <= px < r.x + r.w && r.y <= py < r.y + r.h
  }

  predicate Empty(r: Rect) {
    r.w == 0 || r.h == 0
  }

  function RectsIntersect(a: Rect, b: Rect): (r: bool)
    ensures r <==> exists px, py :: Inside(a, px, py) && Inside(b, px, py)
  {
    var r := !(a.x + a.w <= b.x || b.x + b.w <= a.x)
             && !(a.y + a.h <= b.y || b.y + b.h <= a.y)
             && !(a.w == 0 || a.h == 0 || b.w == 0 || b.h == 0);
    assert r ==> Inside(a, Max(a.x, b.x), Max(a.y, b.y)) && Inside(b, Max(a.x, b.x), Max(a.y, b.y));
    r
  }

  function LeftPiece(a: Rect, b: Rect): seq<Rect> {
    if a.x < b.x then [Rect(a.x, a.y, b.x - a.x, a.h)] else []
  }

  function RightPiece(a: Rect, b: Rect): seq<Rect> {
    if a.x + a.w > b.x + b.w then [Rect(b.x + b.w, a.y, a.x + a.w - (b.x + b.w), a.h)] else []
  }

  function TopPiece(a: Rect, b: Rect): seq<Rect>
    requires RectsIntersect(a, b)
  {
    var x1, x2 := Max(a.x, b.x), Min(a.x + a.w, b.x + b.w);
    if a.y < b.y then [Rect(x1, a.y, x2 - x1, b.y - a.y)] else []
  }

  function BottomPiece(a: Rect, b: Rect): seq<Rect>
    requires RectsIntersect(a, b)
  {
    var x1, x2 := Max(a.x, b.x), Min(a.x + a.w, b.x + b.w);
    if a.y + a.h > b.y + b.h then [Rect(x1, b.y + b.h, x2 - x1, a.y + a.h - (b.y + b.h))] else []
  }

  /** The pieces of `a` that `b` leaves, or nothing if the two have no pixel in common. */
  function RectDifference(a: Rect, b: Rect): (r: Option<seq<Rect>>)
    ensures r.Some? <==> exists px, py :: Inside(a, px, py) && Inside(b, px, py)
    ensures r.Some? ==> |r.value| <= 4 && forall p :: p in r.value ==> !Empty(p)
  {
    if !RectsIntersect(a, b) then None
    else Some(LeftPiece(a, b) + RightPiece(a, b) + TopPiece(a, b) + BottomPiece(a, b))
  }

  /** How many of the rectangles a pixel lies in. */
  function Covers(rects: seq<Rect>, px: int, py: int): nat {
    if rects == [] then 0
    else (if Inside(rects[0], px, py) then 1 else 0) + Covers(rects[1..], px, py)
  }

  predicate InSome(rects: seq<Rect>, px: int, py: int) {
    exists r :: r in rects && Inside(r, px, py)
  }

  lemma {:induction false} CoversSum(a: seq<Rect>, b: seq<Rect>, px: int, py: int)
    ensures Covers(a + b, px, py) == Covers(a, px, py) + Covers(b, px, py)
  {
    if a == [] {
      assert a + b == b;
    } else {
      assert (a + b)[1..] == a[1..] + b;
      CoversSum(a[1..], b, px, py);
    }
  }

  lemma SidePiecesCover(a: Rect, b: Rect, px: int, py: int)
    requires RectsIntersect(a, b)
    ensures Covers(LeftPiece(a, b), px, py) == if Inside(a, px, py) && px < b.x then 1 else 0
    ensures Covers(RightPiece(a, b), px, py) == if Inside(a, px, py) && px >= b.x + b.w then 1 else 0
  {
  }

  lemma MiddlePiecesCover(a: Rect, b: Rect, px: int, py: int)
    requires RectsIntersect(a, b)
    ensures Covers(TopPiece(a, b), px, py)
            == if Inside(a, px, py) && b.x <= px < b.x + b.w && py < b.y then 1 else 0
    ensures Covers(BottomPiece(a, b), px, py)
            == if Inside(a, px, py) && b.x <= px < b.x + b.w && py >= b.y + b.h then 1 else 0
  {
  }

  /** Every pixel of `a` outside `b` is in exactly one of the pieces, and no other pixel is in any. */
  lemma DifferenceIsExact(a: Rect, b: Rect, px: int, py: int)
    requires RectDifference(a, b).Some?
    ensures Covers(RectDifference(a, b).value, px, py) == if Inside(a, px, py) && !Inside(b, px, py) then 1 else 0
  {
    hide Covers, LeftPiece, RightPiece, TopPiece, BottomPiece;
    var l, r, t, u := LeftPiece(a, b), RightPiece(a, b), TopPiece(a, b), BottomPiece(a, b);
    SidePiecesCover(a, b, px, py);
    MiddlePiecesCover(a, b, px, py);
    CoversSum(l + r + t, u, px, py);
    CoversSum(l + r, t, px, py);
    CoversSum(l, r, px, py);
  }

  lemma {:induction false} CoversTwice(rects: seq<Rect>, k: nat, l: nat, px: int, py: int)
    requires k < l < |rects| && Inside(rects[k], px, py) && Inside(rects[l], px, py)
    ensures Covers(rects, px, py) >= 2
  {
    if k == 0 {
      CoversOnce(rects[1..], l - 1, px, py);
    } else {
      CoversTwice(rects[1..], k - 1, l - 1, px, py);
    }
  }

  lemma {:induction false} CoversOnce(rects: seq<Rect>, k: nat, px: int, py: int)
    requires k < |rects| && Inside(rects[k], px, py)
    ensures Covers(rects, px, py) >= 1
  {
    if k > 0 {
      CoversOnce(rects[1..], k - 1, px, py);
    }
  }

  lemma {:induction false} CoveredIsInSome(rects: seq<Rect>, px: int, py: int)
    ensures Covers(rects, px, py) >= 1 <==> InSome(rects, px, py)
  {
    if rects != [] {
      CoveredIsInSome(rects[1..], px, py);
      assert InSome(rects, px, py) <==> Inside(rects[0], px, py) || InSome(rects[1..], px, py);
    }
  }
}
