/** Splitting a text at commas (src/string_utils.cpp), and writing words with commas between them. */
module Text {

  /** The blanks and the line ends of the C locale. */
  predicate IsSpace(c: char) {
    c == ' ' || '\t' <= c <= '\r'
  }

  /** Space, tab, line feed, vertical tab, form feed and carriage return. */
  lemma SpacesByValue(c: char)
    ensures IsSpace(c) <==> c as int in {32, 9, 10, 11, 12, 13}
  {
  }

  function TrimLeft(s: string): (r: string)
    ensures r == [] || !IsSpace(r[0])
  {
    if s != [] && IsSpace(s[0]) then TrimLeft(s[1..]) else s
  }

  function TrimRight(s: string): (r: string)
    ensures r == [] || !IsSpace(r[|r| - 1])
    ensures r <= s
  {
    if s != [] && IsSpace(s[|s| - 1]) then TrimRight(s[..|s| - 1]) else s
  }

  function Strip(s: string): string {
    TrimRight(TrimLeft(s))
  }

  /** Nothing to strip at either end. */
  predicate IsStripped(s: string) {
    s == [] || (!IsSpace(s[0]) && !IsSpace(s[|s| - 1]))
  }

  ghost predicate AllBlank(s: string) {
    forall i :: 0 <= i < |s| ==> IsSpace(s[i])
  }

  lemma {:induction false} TrimLeftRemovesBlanks(s: string) returns (blanks: string)
    ensures AllBlank(blanks) && s == blanks + TrimLeft(s)
  {
    if s != [] && IsSpace(s[0]) {
      var more := TrimLeftRemovesBlanks(s[1..]);
      blanks := [s[0]] + more;
    } else {
      blanks := [];
    }
  }

  lemma {:induction false} TrimRightRemovesBlanks(s: string) returns (blanks: string)
    ensures AllBlank(blanks) && s == TrimRight(s) + blanks
  {
    if s != [] && IsSpace(s[|s| - 1]) {
      var more := TrimRightRemovesBlanks(s[..|s| - 1]);
      blanks := more + [s[|s| - 1]];
    } else {
      blanks := [];
    }
  }

  /** Stripping removes blanks at the two ends and nothing else. */
  lemma StripRemovesBlanks(s: string) returns (before: string, after: string)
    ensures AllBlank(before) && AllBlank(after) && s == before + Strip(s) + after
    ensures IsStripped(Strip(s))
  {
    hide TrimLeft, TrimRight;
    before := TrimLeftRemovesBlanks(s);
    after := TrimRightRemovesBlanks(TrimLeft(s));
    StripIsStripped(s);
  }

  lemma StripIsStripped(s: string)
    ensures IsStripped(Strip(s))
  {
    var l, r := TrimLeft(s), Strip(s);
    assert r != [] ==> r[0] == l[0];
  }

  lemma {:induction false} TrimLeftHasNoOther(s: string, c: char)
    requires c !in s
    ensures c !in TrimLeft(s)
  {
    if s != [] && IsSpace(s[0]) {
      TrimLeftHasNoOther(s[1..], c);
    }
  }

  predicate NoComma(s: string) {
    ',' !in s
  }

  /** The pieces between the commas. */
  function Pieces(s: string): (p: seq<string>)
    ensures p != []
  {
    if s == [] then [""]
    else
      var rest := Pieces(s[1..]);
      if s[0] == ',' then [""] + rest else [[s[0]] + rest[0]] + rest[1..]
  }

  /** The pieces that are not blank, stripped. */
  function Kept(pieces: seq<string>): seq<string> {
    if pieces == [] then []
    else (if Strip(pieces[0]) == [] then [] else [Strip(pieces[0])]) + Kept(pieces[1..])
  }

  function Split(s: string): seq<string> {
    Kept(Pieces(s))
  }

  /** Pieces with a comma between each two. */
  function Glued(pieces: seq<string>): string
    requires pieces != []
  {
    if |pieces| == 1 then pieces[0] else pieces[0] + "," + Glued(pieces[1..])
  }

  /** The pieces are the text, cut at all its commas. */
  lemma {:induction false} PiecesMakeText(s: string)
    ensures Glued(Pieces(s)) == s && forall p :: p in Pieces(s) ==> NoComma(p)
  {
    PiecesHaveNoComma(s);
    if s != [] {
      var rest := Pieces(s[1..]);
      PiecesMakeText(s[1..]);
      if s[0] == ',' {
        assert Pieces(s)[1..] == rest;
        assert Glued(Pieces(s)) == "" + "," + s[1..];
      } else {
        assert Pieces(s)[1..] == rest[1..];
        assert |rest| > 1 ==> [s[0]] + rest[0] + "," + Glued(rest[1..]) == [s[0]] + Glued(rest);
      }
    }
  }

  lemma {:induction false} PiecesHaveNoComma(s: string)
    ensures forall p :: p in Pieces(s) ==> NoComma(p)
  {
    if s != [] {
      PiecesHaveNoComma(s[1..]);
      var rest := Pieces(s[1..]);
      assert rest[0] in rest;
    }
  }

  lemma {:induction false} KeptAreClean(pieces: seq<string>)
    requires forall p :: p in pieces ==> NoComma(p)
    ensures forall k :: k in Kept(pieces) ==> k != [] && IsStripped(k) && NoComma(k)
  {
    if pieces != [] {
      assert pieces[0] in pieces && forall p :: p in pieces[1..] ==> p in pieces;
      KeptAreClean(pieces[1..]);
      StripIsStripped(pieces[0]);
      TrimLeftHasNoOther(pieces[0], ',');
    }
  }

  /** No word that a split delivers is empty, has a comma, or begins or ends with a blank. */
  lemma SplitIsClean(s: string)
    ensures forall k :: k in Split(s) ==> k != [] && IsStripped(k) && NoComma(k)
  {
    PiecesHaveNoComma(s);
    KeptAreClean(Pieces(s));
  }

  // ---------------------------------------------------------------------------------------------
  // Splitting what was joined
  // ---------------------------------------------------------------------------------------------

  /** The words one after the other; a comma is put before a word unless the text is still empty. */
  function Joined(words: seq<string>): string {
    if words == [] then []
    else
      var before, last := Joined(words[..|words| - 1]), words[|words| - 1];
      if before == [] then last else before + "," + last
  }

  lemma {:induction false} PiecesOfWord(s: string)
    requires NoComma(s)
    ensures Pieces(s) == [s]
  {
    if s != [] {
      PiecesOfWord(s[1..]);
      assert [s[0]] + s[1..] == s;
    }
  }

  lemma {:induction false} PiecesAppend(a: string, w: string)
    requires NoComma(w)
    ensures Pieces(a + "," + w) == Pieces(a) + [w]
  {
    if a == [] {
      assert ("," + w)[1..] == w;
      assert a + "," + w == "," + w;
      PiecesOfWord(w);
    } else {
      assert (a + "," + w)[1..] == a[1..] + "," + w;
      PiecesAppend(a[1..], w);
    }
  }

  lemma {:induction false} PiecesOfJoined(words: seq<string>)
    requires words != [] && forall w :: w in words ==> w != [] && NoComma(w)
    ensures Pieces(Joined(words)) == words && Joined(words) != []
  {
    var before, last := words[..|words| - 1], words[|words| - 1];
    assert last in words && words == before + [last];
    if before == [] {
      PiecesOfWord(last);
    } else {
      assert forall w :: w in before ==> w in words;
      PiecesOfJoined(before);
      PiecesAppend(Joined(before), last);
    }
  }

  lemma StripStripped(s: string)
    requires IsStripped(s)
    ensures Strip(s) == s
  {
  }

  lemma {:induction false} KeepAll(words: seq<string>)
    requires forall w :: w in words ==> w != [] && IsStripped(w)
    ensures Kept(words) == words
  {
    if words != [] {
      assert words[0] in words && forall w :: w in words[1..] ==> w in words;
      StripStripped(words[0]);
      KeepAll(words[1..]);
    }
  }

  /** Clean words come back from the text they are joined to, in order. */
  lemma SplitOfJoined(words: seq<string>)
    requires forall w :: w in words ==> w != [] && IsStripped(w) && NoComma(w)
    ensures Split(Joined(words)) == words
  {
    if words == [] {
      assert Pieces("") == [""] && Kept([""]) == Kept([]);
    } else {
      PiecesOfJoined(words);
      KeepAll(words);
    }
  }

  // ---------------------------------------------------------------------------------------------
  // The loop
  // ---------------------------------------------------------------------------------------------

  lemma {:induction false} KeptSum(a: seq<string>, b: seq<string>)
    ensures Kept(a + b) == Kept(a) + Kept(b)
  {
    if a == [] {
      assert a + b == b;
    } else {
      assert (a + b)[1..] == a[1..] + b;
      KeptSum(a[1..], b);
    }
  }

  lemma {:induction false} FirstPiece(s: string, i: nat)
    requires i < |s| && s[i] == ',' && NoComma(s[..i])
    ensures Pieces(s) == [s[..i]] + Pieces(s[i + 1..])
    decreases i
  {
    if i > 0 {
      assert s[..i][1..] == s[1..][..i - 1] && s[1..][i..] == s[i + 1..];
      assert s[0] == s[..i][0];
      assert s[..i] == [s[0]] + s[1..][..i - 1];
      FirstPiece(s[1..], i - 1);
    }
  }

  /** A blank at the beginning makes no difference. */
  lemma BlankMakesNoDifference(s: string)
    requires s != [] && IsSpace(s[0])
    ensures Split(s) == Split(s[1..])
  {
    hide TrimRight;
    var rest := Pieces(s[1..]);
    var first := [s[0]] + rest[0];
    assert first[1..] == rest[0];
    assert Pieces(s) == [first] + rest[1..];
    assert Strip(first) == Strip(rest[0]);
    assert Kept(Pieces(s)) == (if Strip(first) == [] then [] else [Strip(first)]) + Kept(rest[1..]);
  }

  method SplitText(val: string) returns (res: seq<string>)
    ensures res == Split(val)
  {
    hide Pieces, Kept, Strip;
    res := [];
    var i1, i2 := 0, 0;
    assert val[0..] == val;
    while i2 < |val|
      invariant 0 <= i1 <= i2 <= |val|
      invariant NoComma(val[i1..i2])
      invariant res + Split(val[i1..]) == Split(val)
      decreases |val| - i2
    {
      if val[i2] == ',' {
        PieceAt(val, i1, i2);
        var piece := Strip(val[i1..i2]);
        if piece != [] {
          res := res + [piece];
        }
        i2 := i2 + 1;
        while i2 < |val| && val[i2] == ' '
          invariant 0 <= i2 <= |val|
          invariant res + Split(val[i2..]) == Split(val)
        {
          BlankMakesNoDifference(val[i2..]);
          assert val[i2..][1..] == val[i2 + 1..];
          i2 := i2 + 1;
        }
        i1 := i2;
      } else {
        assert val[i1..i2 + 1] == val[i1..i2] + [val[i2]];
        i2 := i2 + 1;
      }
    }
    assert val[i1..i2] == val[i1..];
    LastPiece(val[i1..]);
    var piece := Strip(val[i1..i2]);
    if piece != [] {
      res := res + [piece];
    }
  }

  lemma PieceAt(val: string, i1: nat, i2: nat)
    requires i1 <= i2 < |val| && val[i2] == ',' && NoComma(val[i1..i2])
    ensures var piece := Strip(val[i1..i2]);
      Split(val[i1..]) == (if piece == [] then [] else [piece]) + Split(val[i2 + 1..])
  {
    var s := val[i1..];
    assert s[..i2 - i1] == val[i1..i2] && s[i2 - i1 + 1..] == val[i2 + 1..];
    FirstPiece(s, i2 - i1);
    KeptSum([val[i1..i2]], Pieces(val[i2 + 1..]));
    LastPiece(val[i1..i2]);
    PiecesOfWord(val[i1..i2]);
  }

  lemma LastPiece(s: string)
    requires NoComma(s)
    ensures Split(s) == if Strip(s) == [] then [] else [Strip(s)]
  {
    PiecesOfWord(s);
    assert Kept([s][1..]) == [];
  }
}
