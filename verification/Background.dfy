/** The parts of an area that are to be drawn behind opaque rectangles (src/background.cpp): the
  area less all of them, with no pixel drawn twice. */
module Background {
  import opened Geometry
  import opened Wrappers

  // ---------------------------------------------------------------------------------------------
  // The draw areas
  // ---------------------------------------------------------------------------------------------

  /** What is left of `area`, one opaque rectangle after the other. */
  function Areas(area: Rect, opaques: seq<Rect>): seq<Rect>
    decreases |opaques|, 0, 0
  {
    if opaques == [] then [area]
    else
      match RectDifference(area, opaques[0])
      case None => Areas(area, opaques[1..])
      case Some(pieces) => AreasOfAll(pieces, opaques[1..])
  }

  function AreasOfAll(pieces: seq<Rect>, opaques: seq<Rect>): seq<Rect>
    decreases |opaques|, 1, |pieces|
  {
    if pieces == [] then [] else Areas(pieces[0], opaques) + AreasOfAll(pieces[1..], opaques)
  }

  /** The draw areas cover every pixel of the area that no opaque rectangle covers once, and no other pixel. */
  lemma {:induction false} AreasAreExact(area: Rect, opaques: seq<Rect>, px: int, py: int)
    ensures Covers(Areas(area, opaques), px, py) == if Inside(area, px, py) && !InSome(opaques, px, py) then 1 else 0
    decreases |opaques|, 0, 0
  {
    if opaques != [] {
      var rest := opaques[1..];
      assert InSome(opaques, px, py) <==> Inside(opaques[0], px, py) || InSome(rest, px, py);
      match RectDifference(area, opaques[0])
      case None => AreasAreExact(area, rest, px, py);
      case Some(pieces) =>
        DifferenceIsExact(area, opaques[0], px, py);
        AreasOfAllAreExact(pieces, rest, px, py);
    }
  }

  lemma {:induction false} AreasOfAllAreExact(pieces: seq<Rect>, opaques: seq<Rect>, px: int, py: int)
    ensures Covers(AreasOfAll(pieces, opaques), px, py) == if InSome(opaques, px, py) then 0 else Covers(pieces, px, py)
    decreases |opaques|, 1, |pieces|
  {
    if pieces != [] {
      AreasAreExact(pieces[0], opaques, px, py);
      AreasOfAllAreExact(pieces[1..], opaques, px, py);
      CoversSum(Areas(pieces[0], opaques), AreasOfAll(pieces[1..], opaques), px, py);
    }
  }

  /** No two draw areas have a pixel in common. */
  lemma AreasAreDisjoint(area: Rect, opaques: seq<Rect>, k: nat, l: nat)
    requires k < l < |Areas(area, opaques)|
    ensures !RectsIntersect(Areas(area, opaques)[k], Areas(area, opaques)[l])
  {
    var rects := Areas(area, opaques);
    forall px, py
      ensures !(Inside(rects[k], px, py) && Inside(rects[l], px, py))
    {
      AreasAreExact(area, opaques, px, py);
      if Inside(rects[k], px, py) && Inside(rects[l], px, py) {
        CoversTwice(rects, k, l, px, py);
      }
    }
  }

  /** Together the draw areas are the area less the opaque rectangles. */
  lemma AreasAreComplete(area: Rect, opaques: seq<Rect>, px: int, py: int)
    ensures InSome(Areas(area, opaques), px, py) <==> Inside(area, px, py) && !InSome(opaques, px, py)
  {
    AreasAreExact(area, opaques, px, py);
    CoveredIsInSome(Areas(area, opaques), px, py);
  }

  /** No draw area is empty, unless the whole area is. */
  lemma {:induction false} AreasAreNotEmpty(area: Rect, opaques: seq<Rect>)
    requires !Empty(area)
    ensures forall r :: r in Areas(area, opaques) ==> !Empty(r)
    decreases |opaques|, 0, 0
  {
    if opaques != [] {
      match RectDifference(area, opaques[0])
      case None => AreasAreNotEmpty(area, opaques[1..]);
      case Some(pieces) => AreasOfAllAreNotEmpty(pieces, opaques[1..]);
    }
  }

  lemma {:induction false} AreasOfAllAreNotEmpty(pieces: seq<Rect>, opaques: seq<Rect>)
    requires forall p :: p in pieces ==> !Empty(p)
    ensures forall r :: r in AreasOfAll(pieces, opaques) ==> !Empty(r)
    decreases |opaques|, 1, |pieces|
  {
    if pieces != [] {
      AreasAreNotEmpty(pieces[0], opaques);
      AreasOfAllAreNotEmpty(pieces[1..], opaques);
    }
  }

  lemma {:induction false} AreasOfAllStep(pieces: seq<Rect>, n: nat, opaques: seq<Rect>)
    requires n < |pieces|
    ensures AreasOfAll(pieces[..n + 1], opaques) == AreasOfAll(pieces[..n], opaques) + Areas(pieces[n], opaques)
    decreases n
  {
    if n == 0 {
      assert pieces[..1] == [pieces[0]];
      assert AreasOfAll([pieces[0]], opaques) == Areas(pieces[0], opaques) + AreasOfAll([], opaques);
    } else {
      assert pieces[..n + 1][1..] == pieces[1..][..n] && pieces[..n][1..] == pieces[1..][..n - 1];
      AreasOfAllStep(pieces[1..], n - 1, opaques);
    }
  }

  lemma OnePiece(pieces: seq<Rect>, opaques: seq<Rect>)
    requires |pieces| == 1
    ensures AreasOfAll(pieces, opaques) == Areas(pieces[0], opaques)
  {
    assert AreasOfAll(pieces[1..], opaques) == [];
  }

  class DrawAreas {
    var areas: seq<Rect>

    constructor ()
      ensures areas == []
    {
      areas := [];
    }

    /** The areas of `area` less the opaque rectangles from `first` on are added at the end. */
    method Calculate(area: Rect, opaques: seq<Rect>, first: nat)
      requires first <= |opaques|
      modifies this
      ensures areas == old(areas) + Areas(area, opaques[first..])
      decreases |opaques| - first, 0
    {
      hide Areas, AreasOfAll, RectDifference;
      if first == |opaques| {
        AreasStep(area, opaques, first);
        areas := areas + [area];
        return;
      }
      var left, n := area, first;
      while n < |opaques|
        invariant first <= n <= |opaques|
        invariant areas == old(areas)
        invariant Areas(left, opaques[n..]) == Areas(area, opaques[first..])
      {
        AreasStep(left, opaques, n);
        var difference := RectDifference(left, opaques[n]);
        if difference.Some? {
          var pieces := difference.value;
          if |pieces| != 1 {
            AddAll(pieces, opaques, n + 1);
            return;
          }
          OnePiece(pieces, opaques[n + 1..]);
          left := pieces[0];
        }
        n := n + 1;
      }
      AreasStep(left, opaques, n);
      areas := areas + [left];
    }

    method AddAll(pieces: seq<Rect>, opaques: seq<Rect>, first: nat)
      requires first <= |opaques|
      modifies this
      ensures areas == old(areas) + AreasOfAll(pieces, opaques[first..])
      decreases |opaques| - first, 1
    {
      hide Areas, AreasOfAll, RectDifference;
      NoPieces(opaques[first..]);
      assert pieces[..0] == [];
      for k := 0 to |pieces|
        invariant areas == old(areas) + AreasOfAll(pieces[..k], opaques[first..])
      {
        AreasOfAllStep(pieces, k, opaques[first..]);
        Calculate(pieces[k], opaques, first);
      }
      assert pieces[..|pieces|] == pieces;
    }

    /** Before a layer is drawn, its areas are computed afresh: exactly one of them has each pixel to be drawn. */
    method Prepare(area: Rect, opaques: seq<Rect>)
      modifies this
      ensures forall px, py ::
                Covers(areas, px, py) == if Inside(area, px, py) && !InSome(opaques, px, py) then 1 else 0
      ensures !Empty(area) ==> forall r :: r in areas ==> !Empty(r)
    {
      hide Areas, Covers;
      areas := [];
      Calculate(area, opaques, 0);
      assert opaques[0..] == opaques;
      assert areas == Areas(area, opaques);
      forall px, py
        ensures Covers(areas, px, py) == if Inside(area, px, py) && !InSome(opaques, px, py) then 1 else 0
      {
        AreasAreExact(area, opaques, px, py);
      }
      if !Empty(area) {
        AreasAreNotEmpty(area, opaques);
      }
    }
  }

  lemma AreasStep(area: Rect, opaques: seq<Rect>, n: nat)
    requires n <= |opaques|
    ensures n == |opaques| ==> Areas(area, opaques[n..]) == [area]
    ensures n < |opaques| ==>
              Areas(area, opaques[n..]) == match RectDifference(area, opaques[n])
                                           case None => Areas(area, opaques[n + 1..])
                                           case Some(pieces) => AreasOfAll(pieces, opaques[n + 1..])
  {
    if n < |opaques| {
      assert opaques[n..][1..] == opaques[n + 1..];
    }
  }

  lemma NoPieces(opaques: seq<Rect>)
    ensures AreasOfAll([], opaques) == []
  {
  }
}
