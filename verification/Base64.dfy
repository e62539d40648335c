/** Base64 as buffers of bytes (src/base64.cpp): the alphabet of section 4 of RFC 4648, line breaks after at least a
  given number of characters, and a decoder that skips what is not in the alphabet. */
module Base64 {
  import opened Arithmetic
  import opened Wrappers

  const NEWLINE: Byte := 10
  const PAD: Byte := 61

  // ---------------------------------------------------------------------------------------------
  // The alphabet
  // ---------------------------------------------------------------------------------------------

  /** The encoding table: A-Z, a-z, 0-9, + and /. */
  function Char(v: int): (c: Byte)
    requires 0 <= v < 64
    ensures IsAlphabet(c) && c != PAD && Inverse(c) == v
  {
    if v < 26 then v + 65
    else if v < 52 then v - 26 + 97
    else if v < 62 then v - 52 + 48
    else if v == 62 then 43
    else 47
  }

  predicate IsAlphabet(c: Byte) {
    65 <= c <= 90 || 97 <= c <= 122 || 48 <= c <= 57 || c == 43 || c == 47
  }

  /** The decoding table. */
  function Inverse(c: Byte): (v: int)
    requires IsAlphabet(c)
    ensures 0 <= v < 64
  {
    if 65 <= c <= 90 then c - 65
    else if 97 <= c <= 122 then c - 97 + 26
    else if 48 <= c <= 57 then c - 48 + 52
    else if c == 43 then 62
    else 63
  }

  /** Table 1 of section 4 of RFC 4648. */
  lemma CharByValue(v: int)
    requires 0 <= v < 64
    ensures 0 <= v < 26 ==> Char(v) as char == 'A' + v as char
    ensures 26 <= v < 52 ==> Char(v) as char == 'a' + (v - 26) as char
    ensures 52 <= v < 62 ==> Char(v) as char == '0' + (v - 52) as char
    ensures v == 62 ==> Char(v) as char == '+'
    ensures v == 63 ==> Char(v) as char == '/'
    ensures PAD as char == '='
  {
  }

  // ---------------------------------------------------------------------------------------------
  // One block
  // ---------------------------------------------------------------------------------------------

  function At(s: seq<Byte>, i: nat): Byte {
    if i < |s| then s[i] else 0
  }

  function HighSix(a: Byte): (r: int)
    ensures 0 <= r < 64
  {
    a / 4
  }

  function LowTwoHighFour(a: Byte, b: Byte): (r: int)
    ensures 0 <= r < 64
  {
    (a as int) % 4 * 16 + b / 16
  }

  function LowFourHighTwo(b: Byte, c: Byte): (r: int)
    ensures 0 <= r < 64
  {
    (b as int) % 16 * 4 + c / 64
  }

  function LowSix(c: Byte): (r: int)
    ensures 0 <= r < 64
  {
    c % 64
  }

  /** Up to three bytes as four characters; missing bytes count as zero and show as padding. */
  function EncodedBlock(data: seq<Byte>): (r: seq<Byte>)
    requires 1 <= |data|
    ensures |r| == 4
  {
    var a, b, c := At(data, 0), At(data, 1), At(data, 2);
    [Char(HighSix(a)),
     Char(LowTwoHighFour(a, b)),
     if |data| > 1 then Char(LowFourHighTwo(b, c)) else PAD,
     if |data| > 2 then Char(LowSix(c)) else PAD]
  }

  function DecodedBlock(in4: seq<Byte>): (r: seq<Byte>)
    requires |in4| == 4 && forall i :: 0 <= i < 4 ==> IsAlphabet(in4[i])
    ensures |r| == 3
  {
    var nn := Inverse(in4[0]) * 0x4_0000 + Inverse(in4[1]) * 0x1000 + Inverse(in4[2]) * 0x40 + Inverse(in4[3]);
    [nn / 0x1_0000 % 256, nn / 0x100 % 256, nn % 256]
  }

  /** A padding character is decoded as if it were the character for zero. */
  function Unpadded(c: Byte): Byte {
    if c == PAD then Char(0) else c
  }

  // ---------------------------------------------------------------------------------------------
  // Encoding
  // ---------------------------------------------------------------------------------------------

  function EncodeBufferReq(n: nat, lineLength: int): (r: nat) {
    var chars := (n + 2) / 3 * 4;
    if lineLength > 0 then
      DivBounds(chars, lineLength);
      chars + chars / lineLength
    else chars
  }

  function FirstBlock(data: seq<Byte>): (r: seq<Byte>)
    ensures |r| == if |data| < 3 then |data| else 3
  {
    if |data| <= 3 then data else data[..3]
  }

  function Rest(data: seq<Byte>): (r: seq<Byte>)
    ensures |r| == if |data| < 3 then 0 else |data| - 3
  {
    if |data| <= 3 then [] else data[3..]
  }

  /** What the encoder writes from here on, with `cnt` characters already on the line. */
  function Encoded(data: seq<Byte>, cnt: int, lineLength: int): seq<Byte>
    decreases |data|
  {
    if data == [] then
      if cnt >= lineLength then [NEWLINE] else []
    else if cnt + 4 >= lineLength then
      EncodedBlock(FirstBlock(data)) + [NEWLINE] + Encoded(Rest(data), 0, lineLength)
    else
      EncodedBlock(FirstBlock(data)) + Encoded(Rest(data), cnt + 4, lineLength)
  }

  function Blocks(n: nat): nat {
    (n + 2) / 3
  }

  /** Every line break follows at least `lineLength` characters. */
  lemma {:induction false} EncodedLength(data: seq<Byte>, cnt: nat, lineLength: nat)
    requires cnt < lineLength
    ensures var chars := 4 * Blocks(|data|); var breaks := |Encoded(data, cnt, lineLength)| - chars;
      breaks >= 0 && breaks * lineLength <= chars + cnt
    decreases |data|
  {
    hide EncodedBlock, FirstBlock, Rest;
    if data != [] {
      var chars := 4 * Blocks(|Rest(data)|);
      assert 4 * Blocks(|data|) == chars + 4;
      if cnt + 4 >= lineLength {
        EncodedLength(Rest(data), 0, lineLength);
        var breaks := |Encoded(Rest(data), 0, lineLength)| - chars;
        assert |Encoded(data, cnt, lineLength)| == chars + 4 + breaks + 1;
        assert (breaks + 1) * lineLength == breaks * lineLength + lineLength;
      } else {
        EncodedLength(Rest(data), cnt + 4, lineLength);
        assert |Encoded(data, cnt, lineLength)| == 4 + |Encoded(Rest(data), cnt + 4, lineLength)|;
      }
    }
  }

  /** Without a positive line length there is a break after every block and one more at the end. */
  lemma {:induction false} EncodedLengthUnbroken(data: seq<Byte>, lineLength: int)
    requires lineLength <= 0
    ensures |Encoded(data, 0, lineLength)| == 5 * Blocks(|data|) + 1
    decreases |data|
  {
    hide EncodedBlock, FirstBlock, Rest;
    if data != [] {
      EncodedLengthUnbroken(Rest(data), lineLength);
    }
  }

  /** The encoder stays inside the buffer it sized beforehand exactly for positive line lengths. */
  lemma EncodedFitsExactlyIfPositive(data: seq<Byte>, lineLength: int)
    ensures |Encoded(data, 0, lineLength)| <= EncodeBufferReq(|data|, lineLength) <==> lineLength > 0
  {
    hide Encoded;
    if lineLength > 0 {
      EncodedLength(data, 0, lineLength);
      var chars := 4 * Blocks(|data|);
      var breaks := |Encoded(data, 0, lineLength)| - chars;
      DivBounds(chars, lineLength);
      CancelLt(breaks, chars / lineLength + 1, lineLength);
    } else {
      EncodedLengthUnbroken(data, lineLength);
    }
  }

  /** The characters on a full line: the line length, rounded up to whole blocks. */
  function LineWidth(lineLength: nat): (w: nat)
    ensures w % 4 == 0 && lineLength <= w < lineLength + 4
  {
    (lineLength + 3) / 4 * 4
  }

  /** The first `x` characters are whole lines of `m` characters, the line break being one of them. */
  predicate EndsLine(x: nat, m: nat)
    requires m > 0
  {
    x % m == 0
  }

  /** Section 3.1 of RFC 4648: all lines but the last have the same width, and a full last line is ended too. */
  lemma {:induction false} LinesAreEqual(data: seq<Byte>, cnt: nat, lineLength: nat, k: nat)
    requires cnt % 4 == 0 && cnt < lineLength && k < |Encoded(data, cnt, lineLength)|
    ensures Encoded(data, cnt, lineLength)[k] == NEWLINE <==> EndsLine(cnt + k + 1, LineWidth(lineLength) + 1)
    decreases |data|
  {
    hide EncodedBlock, FirstBlock, Rest, LineWidth, EndsLine;
    if data != [] {
      var w := LineWidth(lineLength);
      BlockHasNoNewline(FirstBlock(data));
      if k < 4 {
        ShortOfLine(cnt + k + 1, w + 1);
      } else if cnt + 4 >= lineLength {
        assert cnt + 4 == w;
        if k > 4 {
          LinesAreEqual(Rest(data), 0, lineLength, k - 5);
          NextLine(k - 4, w + 1);
        } else {
          NextLine(0, w + 1);
        }
      } else {
        LinesAreEqual(Rest(data), cnt + 4, lineLength, k - 4);
      }
    }
  }

  /** There is a line break for every full line, and nothing else is added: so many bytes at the end of the buffer stay
      unused as it has room for more breaks, because the lines are rounded up. */
  lemma BreaksAreExact(data: seq<Byte>, lineLength: nat)
    requires lineLength > 0
    ensures var chars := (|data| + 2) / 3 * 4;
      && |Encoded(data, 0, lineLength)| == chars + chars / LineWidth(lineLength)
      && |EncodedBuffer(data, lineLength)| == chars + chars / lineLength
  {
    hide Encoded, LineWidth;
    EncodedBreaks(data, 0, lineLength);
    EncodedFitsExactlyIfPositive(data, lineLength);
  }

  lemma {:induction false} EncodedBreaks(data: seq<Byte>, cnt: nat, lineLength: nat)
    requires cnt % 4 == 0 && cnt < lineLength
    ensures |Encoded(data, cnt, lineLength)| == 4 * Blocks(|data|) + (cnt + 4 * Blocks(|data|)) / LineWidth(lineLength)
    decreases |data|
  {
    hide Encoded, Rest, LineWidth, Blocks;
    var w, chars := LineWidth(lineLength), 4 * Blocks(|data|);
    LengthStep(data, cnt, lineLength);
    if data == [] {
      DivUnique(cnt, w, 0);
    } else if cnt + 4 >= lineLength {
      assert cnt + 4 == w;
      EncodedBreaks(Rest(data), 0, lineLength);
      OneMoreLine(chars - 4, w);
    } else {
      EncodedBreaks(Rest(data), cnt + 4, lineLength);
    }
  }

  lemma LengthStep(data: seq<Byte>, cnt: nat, lineLength: nat)
    requires cnt < lineLength
    ensures data == [] ==> |Encoded(data, cnt, lineLength)| == 0 && Blocks(|data|) == 0
    ensures data != [] ==> Blocks(|data|) == Blocks(|Rest(data)|) + 1
    ensures data != [] && cnt + 4 >= lineLength ==>
              |Encoded(data, cnt, lineLength)| == 5 + |Encoded(Rest(data), 0, lineLength)|
    ensures data != [] && cnt + 4 < lineLength ==>
              |Encoded(data, cnt, lineLength)| == 4 + |Encoded(Rest(data), cnt + 4, lineLength)|
  {
    hide EncodedBlock, FirstBlock, Rest;
  }

  lemma OneMoreLine(x: nat, w: nat)
    requires w > 0
    ensures (x + w) / w == x / w + 1
  {
    DivBounds(x, w);
    DivUnique(x + w, w, x / w + 1);
  }

  lemma BlockHasNoNewline(data: seq<Byte>)
    requires data != []
    ensures forall i :: 0 <= i < 4 ==> EncodedBlock(data)[i] != NEWLINE
  {
  }

  lemma ShortOfLine(x: nat, m: nat)
    requires 0 < x < m
    ensures !EndsLine(x, m)
  {
  }

  lemma NextLine(x: nat, m: nat)
    requires m > 0
    ensures EndsLine(x + m, m) <==> EndsLine(x, m)
    ensures EndsLine(m, m)
  {
    assert x == x / m * m + x % m;
    DivUnique(x + m, m, x / m + 1);
  }

  // ---------------------------------------------------------------------------------------------
  // Decoding
  // ---------------------------------------------------------------------------------------------

  function DecodeBufferReq(n: nat): nat {
    (n + 3) / 4 * 3
  }

  /** The decoder between two characters: the characters of the current block, and its padding so far. */
  datatype Pending = Pending(chars: seq<Byte>, padding: nat) {
    ghost predicate Valid() {
      |chars| < 4 && forall i :: 0 <= i < |chars| ==> IsAlphabet(chars[i])
    }
  }

  /** What is written from here on, and how many bytes of it count. */
  function Decoded(data: seq<Byte>, p: Pending): (r: (seq<Byte>, int))
    requires p.Valid()
    decreases |data|
  {
    if data == [] then ([], 0)
    else
      var c, padding := Unpadded(data[0]), p.padding + if data[0] == PAD then 1 else 0;
      if !IsAlphabet(c) then Decoded(data[1..], Pending(p.chars, padding))
      else
        var chars := p.chars + [c];
        if |chars| < 4 then Decoded(data[1..], Pending(chars, padding))
        else
          var (out, cnt) := Decoded(data[1..], Pending([], 0));
          (DecodedBlock(chars) + out, 3 - padding + cnt)
  }

  /** The buffer is cut to the count, which may be negative: more padding than bytes. */
  function Decode(data: seq<Byte>): Result<seq<Byte>> {
    var (out, cnt) := Decoded(data, Pending([], 0));
    DecodedFits(data, Pending([], 0));
    if cnt < 0 then Err else Ok(out[..cnt])
  }

  /** Every four characters give three bytes, so the buffer suffices; the count is never more than was written. */
  lemma {:induction false} DecodedFits(data: seq<Byte>, p: Pending)
    requires p.Valid()
    ensures var (out, cnt) := Decoded(data, p);
      && 4 * |out| <= 3 * (|p.chars| + |data|)
      && |out| % 3 == 0
      && cnt <= |out|
      && (|p.chars| == 0 ==> |out| <= DecodeBufferReq(|data|))
    decreases |data|
  {
    hide IsAlphabet, Unpadded, DecodedBlock, DecodeBufferReq;
    BufferFits(|data|);
    if data != [] {
      var c, padding := Unpadded(data[0]), p.padding + if data[0] == PAD then 1 else 0;
      if !IsAlphabet(c) {
        DecodedFits(data[1..], Pending(p.chars, padding));
      } else if |p.chars| < 3 {
        DecodedFits(data[1..], Pending(p.chars + [c], padding));
      } else {
        DecodedFits(data[1..], Pending([], 0));
      }
    }
  }

  lemma BufferFits(n: nat)
    ensures forall out: nat :: 4 * out <= 3 * n ==> out <= DecodeBufferReq(n)
  {
  }

  // ---------------------------------------------------------------------------------------------
  // Round trip
  // ---------------------------------------------------------------------------------------------

  lemma BitsOfBlock(a: Byte, b: Byte, c: Byte)
    ensures HighSix(a) * 0x4_0000 + LowTwoHighFour(a, b) * 0x1000 + LowFourHighTwo(b, c) * 0x40 + LowSix(c)
            == a as int * 0x1_0000 + b as int * 0x100 + c
  {
  }

  lemma QuotientOf(x: int, d: int, q: int, r: int)
    requires x == q * d + r && 0 <= r < d
    ensures x / d == q
  {
    assert (q + 1) * d == q * d + d;
    DivUnique(x, d, q);
  }

  lemma BytesOf24Bits(a: int, b: int, c: int)
    requires 0 <= a < 256 && 0 <= b < 256 && 0 <= c < 256
    ensures var nn := a * 0x1_0000 + b * 0x100 + c;
      nn / 0x1_0000 % 256 == a && nn / 0x100 % 256 == b && nn % 256 == c
  {
    var nn := a * 0x1_0000 + b * 0x100 + c;
    QuotientOf(nn, 0x1_0000, a, b * 0x100 + c);
    QuotientOf(nn, 0x100, a * 0x100 + b, c);
  }

  /** A block decodes to its bytes, followed by zeros for the missing ones. */
  lemma BlockRoundTrip(data: seq<Byte>)
    requires 1 <= |data| <= 3
    ensures var e := EncodedBlock(data);
      && (forall i :: 0 <= i < 4 ==> IsAlphabet(Unpadded(e[i])))
      && DecodedBlock([Unpadded(e[0]), Unpadded(e[1]), Unpadded(e[2]), Unpadded(e[3])])
         == [At(data, 0), At(data, 1), At(data, 2)]
  {
    hide Char, Inverse, IsAlphabet, HighSix, LowTwoHighFour, LowFourHighTwo, LowSix;
    var a, b, c := At(data, 0), At(data, 1), At(data, 2);
    BitsOfBlock(a, b, c);
    BytesOf24Bits(a, b, c);
    MissingBytesAreZero();
  }

  lemma MissingBytesAreZero()
    ensures LowFourHighTwo(0, 0) == 0 && LowSix(0) == 0
  {
  }

  /** The three bytes of any four characters are the 24 bits of their values, the first six the highest. */
  lemma DecodedBlockIs24Bits(in4: seq<Byte>)
    requires |in4| == 4 && forall i :: 0 <= i < 4 ==> IsAlphabet(in4[i])
    ensures var d := DecodedBlock(in4);
      d[0] as int * 0x1_0000 + d[1] as int * 0x100 + d[2] as int
      == Inverse(in4[0]) * 0x4_0000 + Inverse(in4[1]) * 0x1000 + Inverse(in4[2]) * 0x40 + Inverse(in4[3])
  {
    hide Inverse;
    var nn := Inverse(in4[0]) * 0x4_0000 + Inverse(in4[1]) * 0x1000 + Inverse(in4[2]) * 0x40 + Inverse(in4[3]);
    BytesOf(nn);
  }

  lemma BytesOf(nn: int)
    requires 0 <= nn < 0x100_0000
    ensures nn / 0x1_0000 % 256 * 0x1_0000 + nn / 0x100 % 256 * 0x100 + nn % 256 == nn
  {
    assert nn / 0x100 == nn / 0x1_0000 * 256 + nn / 0x100 % 256;
  }

  /** The test vectors of section 10 of RFC 4648. */
  lemma TestVectors()
    ensures Plain([102]) == [90, 103, 61, 61]
    ensures Plain([102, 111]) == [90, 109, 56, 61]
    ensures Plain([102, 111, 111]) == [90, 109, 57, 118]
    ensures Plain([102, 111, 111, 98, 97, 114]) == [90, 109, 57, 118, 89, 109, 70, 121]
  {
    hide EncodedBlock;
    assert Plain([]) == [];
    assert [102, 111, 111, 98, 97, 114][3..] == [98, 97, 114];
    assert [102, 111, 111, 98, 97, 114][..3] == [102, 111, 111];
    TestBlocks();
    assert Plain([98, 97, 114]) == [89, 109, 70, 121];
  }

  lemma TestBlocks()
    ensures EncodedBlock([102]) == [90, 103, 61, 61] && EncodedBlock([102, 111]) == [90, 109, 56, 61]
    ensures EncodedBlock([102, 111, 111]) == [90, 109, 57, 118] && EncodedBlock([98, 97, 114]) == [89, 109, 70, 121]
  {
  }

  /** A block of padding counts as less than nothing, and there is no decoding. */
  lemma PaddingAloneFails()
    ensures Decode([PAD, PAD, PAD, PAD]) == Err
  {
    hide DecodedBlock, Decoded;
    var e := [PAD, PAD, PAD, PAD];
    DecodedFourSteps(e, []);
    DecodedNothing(Pending([], 0));
    assert e + [] == e;
  }

  /** Section 4 of RFC 4648: the characters of a full block are the base-64 digits of its 24 bits. */
  lemma FullBlockIsBase64Digits(data: seq<Byte>)
    requires |data| == 3
    ensures var nn := data[0] as int * 0x1_0000 + data[1] as int * 0x100 + data[2] as int;
      EncodedBlock(data) == [Char(nn / 0x4_0000 % 64), Char(nn / 0x1000 % 64), Char(nn / 0x40 % 64), Char(nn % 64)]
  {
    hide Char, HighSix, LowTwoHighFour, LowFourHighTwo, LowSix;
    var a, b, c := data[0], data[1], data[2];
    BitsOfBlock(a, b, c);
    DigitsOfSum(HighSix(a), LowTwoHighFour(a, b), LowFourHighTwo(b, c), LowSix(c));
  }

  lemma DigitsOfSum(s0: int, s1: int, s2: int, s3: int)
    requires 0 <= s0 < 64 && 0 <= s1 < 64 && 0 <= s2 < 64 && 0 <= s3 < 64
    ensures var nn := s0 * 0x4_0000 + s1 * 0x1000 + s2 * 0x40 + s3;
      nn / 0x4_0000 % 64 == s0 && nn / 0x1000 % 64 == s1 && nn / 0x40 % 64 == s2 && nn % 64 == s3
  {
    var nn := s0 * 0x4_0000 + s1 * 0x1000 + s2 * 0x40 + s3;
    QuotientOf(nn, 0x4_0000, s0, s1 * 0x1000 + s2 * 0x40 + s3);
    QuotientOf(nn, 0x1000, s0 * 0x40 + s1, s2 * 0x40 + s3);
    QuotientOf(nn, 0x40, s0 * 0x1000 + s1 * 0x40 + s2, s3);
  }

  /** The characters a decoder looks at. */
  predicate Counts(c: Byte) {
    c == PAD || IsAlphabet(c)
  }

  function Significant(s: seq<Byte>): seq<Byte> {
    if s == [] then [] else (if Counts(s[0]) then [s[0]] else []) + Significant(s[1..])
  }

  /** Section 3.3 of RFC 4648: what is not in the alphabet makes no difference, wherever it stands. */
  lemma {:induction false} DecodedIgnoresOthers(s: seq<Byte>, p: Pending)
    requires p.Valid()
    ensures Decoded(s, p) == Decoded(Significant(s), p)
    decreases |s|
  {
    if s != [] {
      var t := Significant(s);
      var c, padding := Unpadded(s[0]), p.padding + if s[0] == PAD then 1 else 0;
      if !Counts(s[0]) {
        assert t == Significant(s[1..]);
        DecodedIgnoresOthers(s[1..], p);
      } else {
        assert t[0] == s[0] && t[1..] == Significant(s[1..]);
        DecodedIgnoresOthers(s[1..], if |p.chars| < 3 then Pending(p.chars + [c], padding) else Pending([], 0));
      }
    }
  }

  lemma {:induction false} SignificantOfSum(s: seq<Byte>, t: seq<Byte>)
    ensures Significant(s + t) == Significant(s) + Significant(t)
  {
    hide Counts;
    if s == [] {
      assert s + t == t;
    } else {
      assert (s + t)[0] == s[0] && (s + t)[1..] == s[1..] + t;
      SignificantOfSum(s[1..], t);
      var head := if Counts(s[0]) then [s[0]] else [];
      assert head + (Significant(s[1..]) + Significant(t)) == head + Significant(s[1..]) + Significant(t);
    }
  }

  /** The encoding without line breaks. */
  function Plain(data: seq<Byte>): seq<Byte>
    decreases |data|
  {
    if data == [] then [] else EncodedBlock(FirstBlock(data)) + Plain(Rest(data))
  }

  lemma SignificantBlock(data: seq<Byte>)
    requires 1 <= |data|
    ensures Significant(EncodedBlock(data)) == EncodedBlock(data)
  {
    var e := EncodedBlock(data);
    assert e == [e[0]] + [e[1]] + [e[2]] + [e[3]];
    SignificantOfSum([e[0]] + [e[1]] + [e[2]], [e[3]]);
    SignificantOfSum([e[0]] + [e[1]], [e[2]]);
    SignificantOfSum([e[0]], [e[1]]);
    forall i | 0 <= i < 4
      ensures Significant([e[i]]) == [e[i]]
    {
      assert [e[i]][1..] == [];
    }
  }

  /** Line breaks are all that the line length adds. */
  lemma {:induction false} SignificantOfEncoded(data: seq<Byte>, cnt: int, lineLength: int)
    ensures Significant(Encoded(data, cnt, lineLength)) == Plain(data)
    decreases |data|
  {
    assert Significant([NEWLINE]) == [];
    if data != [] {
      var e := EncodedBlock(FirstBlock(data));
      SignificantBlock(FirstBlock(data));
      if cnt + 4 >= lineLength {
        SignificantOfEncoded(Rest(data), 0, lineLength);
        SignificantOfSum(e + [NEWLINE], Encoded(Rest(data), 0, lineLength));
        SignificantOfSum(e, [NEWLINE]);
      } else {
        SignificantOfEncoded(Rest(data), cnt + 4, lineLength);
        SignificantOfSum(e, Encoded(Rest(data), cnt + 4, lineLength));
      }
    }
  }

  function Padding(c: Byte): nat {
    if c == PAD then 1 else 0
  }

  /** A significant character is added to the block, and the fourth completes it. */
  lemma DecodedStep(c: Byte, more: seq<Byte>, p: Pending)
    requires p.Valid() && IsAlphabet(Unpadded(c))
    ensures var chars, padding := p.chars + [Unpadded(c)], p.padding + Padding(c);
      Decoded([c] + more, p)
      == if |chars| < 4 then Decoded(more, Pending(chars, padding))
         else var (out, cnt) := Decoded(more, Pending([], 0)); (DecodedBlock(chars) + out, 3 - padding + cnt)
  {
    hide Decoded, DecodedBlock, IsAlphabet, Char;
    assert ([c] + more)[1..] == more;
    DecodedNext([c] + more, p);
  }

  /** Decoding a block and going on. */
  lemma DecodedAfterBlock(data: seq<Byte>, more: seq<Byte>)
    requires 1 <= |data| <= 3
    ensures var (out, cnt) := Decoded(more, Pending([], 0));
      Decoded(EncodedBlock(data) + more, Pending([], 0))
      == ([At(data, 0), At(data, 1), At(data, 2)] + out, |data| + cnt)
  {
    hide Decoded, DecodedBlock, Char, IsAlphabet, Inverse, At;
    var e := EncodedBlock(data);
    BlockRoundTrip(data);
    assert e[0] != PAD && e[1] != PAD && (e[2] == PAD <==> |data| < 2) && (e[3] == PAD <==> |data| < 3);
    hide EncodedBlock;
    DecodedFourSteps(e, more);
  }

  lemma DecodedFourSteps(e: seq<Byte>, more: seq<Byte>)
    requires |e| == 4 && forall i :: 0 <= i < 4 ==> IsAlphabet(Unpadded(e[i]))
    ensures var padding := Padding(e[0]) + Padding(e[1]) + Padding(e[2]) + Padding(e[3]);
      var (out, cnt) := Decoded(more, Pending([], 0));
      Decoded(e + more, Pending([], 0))
      == (DecodedBlock([Unpadded(e[0]), Unpadded(e[1]), Unpadded(e[2]), Unpadded(e[3])]) + out, 3 - padding + cnt)
  {
    hide Decoded, DecodedBlock, IsAlphabet, Unpadded, Padding;
    var s3 := [e[3]] + more;
    var s2 := [e[2]] + s3;
    var s1 := [e[1]] + s2;
    assert e + more == [e[0]] + s1;
    var u0, u1, u2, u3 := Unpadded(e[0]), Unpadded(e[1]), Unpadded(e[2]), Unpadded(e[3]);
    var p1, p2 := Padding(e[0]), Padding(e[0]) + Padding(e[1]);
    DecodedStep(e[0], s1, Pending([], 0));
    DecodedStep(e[1], s2, Pending([u0], p1));
    DecodedStep(e[2], s3, Pending([u0, u1], p2));
    DecodedStep(e[3], more, Pending([u0, u1, u2], p2 + Padding(e[2])));
    assert [] + [u0] == [u0] && [u0] + [u1] == [u0, u1];
    assert [u0, u1] + [u2] == [u0, u1, u2] && [u0, u1, u2] + [u3] == [u0, u1, u2, u3];
  }

  /** The encoding decodes to the data, and fills the buffer sized for it. */
  lemma {:induction false} DecodedPlain(data: seq<Byte>)
    ensures var (out, cnt) := Decoded(Plain(data), Pending([], 0));
      && cnt == |data| <= |out| && out[..cnt] == data
      && |out| == DecodeBufferReq(|Plain(data)|)
    decreases |data|
  {
    hide Decoded, EncodedBlock, DecodeBufferReq, Plain;
    PlainNext(data);
    if data == [] {
      DecodedNothing(Pending([], 0));
    } else {
      var head, rest := FirstBlock(data), Rest(data);
      DecodedPlain(rest);
      DecodedAfterBlock(head, Plain(rest));
      assert data == head + rest && (|head| < 3 ==> rest == []);
      var (out, cnt) := Decoded(Plain(rest), Pending([], 0));
      var bytes: seq<Byte> := [At(head, 0), At(head, 1), At(head, 2)];
      assert bytes[..|head|] == head;
      if |head| == 3 {
        assert (bytes + out)[..3 + cnt] == bytes + out[..cnt];
      }
    }
  }

  /** One block of the plain encoding, and the room that its bytes take. */
  lemma PlainNext(data: seq<Byte>)
    ensures data == [] ==> Plain(data) == [] && DecodeBufferReq(|Plain(data)|) == 0
    ensures data != [] ==>
              && Plain(data) == EncodedBlock(FirstBlock(data)) + Plain(Rest(data))
              && DecodeBufferReq(|Plain(data)|) == 3 + DecodeBufferReq(|Plain(Rest(data))|)
  {
    hide EncodedBlock, FirstBlock, Rest;
  }

  /** Any text whose significant characters are those of the encoding decodes to the data: line breaks of any kind,
      unused bytes of the buffer and foreign characters may stand anywhere. */
  lemma RoundTrip(data: seq<Byte>, text: seq<Byte>)
    requires Significant(text) == Plain(data)
    ensures Decode(text) == Ok(data)
  {
    DecodedIgnoresOthers(text, Pending([], 0));
    DecodedPlain(data);
  }

  /** A buffer of `n` bytes with `written` at its start and zeros after it. */
  function Buffer(written: seq<Byte>, n: nat): (r: seq<Byte>)
    requires |written| <= n
    ensures |r| == n && r[..|written|] == written
  {
    written + seq(n - |written|, _ => 0)
  }

  lemma BufferStep(written: seq<Byte>, more: seq<Byte>, n: nat)
    requires |written| + |more| <= n
    ensures var b := Buffer(written, n);
      written + more + b[|written| + |more|..] == Buffer(written + more, n)
  {
  }

  /** The whole buffer: what was written, and zeros up to its size. */
  function EncodedBuffer(data: seq<Byte>, lineLength: int): seq<Byte>
    requires lineLength > 0
  {
    EncodedFitsExactlyIfPositive(data, lineLength);
    Buffer(Encoded(data, 0, lineLength), EncodeBufferReq(|data|, lineLength))
  }

  lemma {:induction false} ZerosAreInsignificant(n: nat)
    ensures Significant(seq(n, _ => 0)) == []
  {
    if n > 0 {
      assert seq(n, _ => 0)[1..] == seq(n - 1, _ => 0);
      ZerosAreInsignificant(n - 1);
    }
  }

  /** For every byte sequence and every positive line length, decoding the encoder's buffer gives the data back. */
  lemma EncodeDecodeRoundTrip(data: seq<Byte>, lineLength: int)
    requires lineLength > 0
    ensures Decode(EncodedBuffer(data, lineLength)) == Ok(data)
  {
    EncodedFitsExactlyIfPositive(data, lineLength);
    var e := Encoded(data, 0, lineLength);
    var zeros := seq(EncodeBufferReq(|data|, lineLength) - |e|, _ => 0);
    SignificantOfEncoded(data, 0, lineLength);
    ZerosAreInsignificant(|zeros|);
    SignificantOfSum(e, zeros);
    RoundTrip(data, EncodedBuffer(data, lineLength));
  }

  // ---------------------------------------------------------------------------------------------
  // The buffer loops
  // ---------------------------------------------------------------------------------------------

  method EncodeBlock(data: seq<Byte>, inPos: nat, dest: array<Byte>, outPos: nat, len: nat)
    requires 1 <= len <= 3 && inPos + len <= |data| && outPos + 4 <= dest.Length
    modifies dest
    ensures dest[..] == old(dest[..outPos]) + EncodedBlock(data[inPos..inPos + len]) + old(dest[outPos + 4..])
  {
    hide Char, HighSix, LowTwoHighFour, LowFourHighTwo, LowSix;
    var a: Byte := data[inPos];
    var b: Byte := if len > 1 then data[inPos + 1] else 0;
    var c: Byte := if len > 2 then data[inPos + 2] else 0;
    ghost var e := EncodedBlock(data[inPos..inPos + len]);
    dest[outPos] := Char(HighSix(a));
    dest[outPos + 1] := Char(LowTwoHighFour(a, b));
    dest[outPos + 2] := if len > 1 then Char(LowFourHighTwo(b, c)) else PAD;
    dest[outPos + 3] := if len > 2 then Char(LowSix(c)) else PAD;
    assert dest[outPos..outPos + 4] == e;
  }

  /** The data from position `i` on; the last step of the loop goes past the end. */
  function From(data: seq<Byte>, i: nat): seq<Byte> {
    if i <= |data| then data[i..] else []
  }

  function BlockLength(data: seq<Byte>, i: nat): (len: nat)
    requires i < |data|
    ensures 1 <= len <= 3 && i + len <= |data|
  {
    if |data| - i > 2 then 3 else |data| - i
  }

  /** What one round of the loop moves from what is left to what is written. */
  lemma EncodedNext(written: seq<Byte>, data: seq<Byte>, i: nat, cnt: int, lineLength: int)
    requires i < |data|
    ensures var block := written + EncodedBlock(data[i..i + BlockLength(data, i)]);
      && (cnt + 4 >= lineLength ==>
            written + Encoded(From(data, i), cnt, lineLength)
            == block + [NEWLINE] + Encoded(From(data, i + 3), 0, lineLength))
      && (cnt + 4 < lineLength ==>
            written + Encoded(From(data, i), cnt, lineLength)
            == block + Encoded(From(data, i + 3), cnt + 4, lineLength))
  {
    hide EncodedBlock;
    var e := EncodedBlock(data[i..i + BlockLength(data, i)]);
    assert FirstBlock(data[i..]) == data[i..i + BlockLength(data, i)];
    assert Rest(data[i..]) == From(data, i + 3);
    if cnt + 4 >= lineLength {
      var more := Encoded(From(data, i + 3), 0, lineLength);
      assert written + (e + [NEWLINE] + more) == written + e + [NEWLINE] + more;
    } else {
      var more := Encoded(From(data, i + 3), cnt + 4, lineLength);
      assert written + (e + more) == written + e + more;
    }
  }

  method PutBlock(data: seq<Byte>, inPos: nat, dest: array<Byte>, outPos: nat, len: nat, ghost written: seq<Byte>)
    requires 1 <= len <= 3 && inPos + len <= |data| && outPos == |written| && outPos + 4 <= dest.Length
    requires dest[..] == Buffer(written, dest.Length)
    modifies dest
    ensures dest[..] == Buffer(written + EncodedBlock(data[inPos..inPos + len]), dest.Length)
  {
    hide EncodedBlock, Buffer;
    BufferStep(written, EncodedBlock(data[inPos..inPos + len]), dest.Length);
    EncodeBlock(data, inPos, dest, outPos, len);
  }

  method PutNewline(dest: array<Byte>, outPos: nat, ghost written: seq<Byte>)
    requires outPos == |written| < dest.Length && dest[..] == Buffer(written, dest.Length)
    modifies dest
    ensures dest[..] == Buffer(written + [NEWLINE], dest.Length)
  {
    hide Buffer;
    BufferStep(written, [NEWLINE], dest.Length);
    dest[outPos] := NEWLINE;
    assert dest[..] == written + [NEWLINE] + old(dest[outPos + 1..]);
  }

  /** The buffer is sized up front; that no write falls outside it is checked at each assignment. */
  method B64Encode(data: seq<Byte>, lineLength: int) returns (dest: array<Byte>)
    requires lineLength > 0
    ensures fresh(dest) && dest[..] == EncodedBuffer(data, lineLength)
  {
    hide EncodedBlock, Encoded, EncodeBufferReq, Buffer, From, BlockLength;
    var size := EncodeBufferReq(|data|, lineLength);
    dest := new Byte[size](_ => 0);
    ghost var all := Encoded(data, 0, lineLength);
    EncodedFitsExactlyIfPositive(data, lineLength);
    EmptyBuffer(size);
    assert dest[..] == Buffer([], size);
    var i, outPos, lineCnt := 0, 0, 0;
    ghost var written := [];
    FromStart(data);
    while i < |data|
      invariant 0 <= i && outPos == |written|
      invariant all == written + Encoded(From(data, i), lineCnt, lineLength)
      invariant dest[..] == Buffer(written, size)
      decreases |data| - i
    {
      var len := BlockLength(data, i);
      EncodedNext(written, data, i, lineCnt, lineLength);
      PutBlock(data, i, dest, outPos, len, written);
      outPos := outPos + 4;
      written := written + EncodedBlock(data[i..i + len]);
      lineCnt := lineCnt + 4;
      if lineCnt >= lineLength {
        lineCnt := 0;
        PutNewline(dest, outPos, written);
        outPos := outPos + 1;
        written := written + [NEWLINE];
      }
      i := i + 3;
    }
    NothingLeft(data, i, lineCnt, lineLength);
    if lineCnt >= lineLength {
      PutNewline(dest, outPos, written);
      outPos := outPos + 1;
      written := written + [NEWLINE];
    }
    assert written == all;
  }

  lemma FromStart(data: seq<Byte>)
    ensures From(data, 0) == data
  {
  }

  lemma NothingLeft(data: seq<Byte>, i: nat, cnt: int, lineLength: int)
    requires i >= |data|
    ensures Encoded(From(data, i), cnt, lineLength) == if cnt >= lineLength then [NEWLINE] else []
  {
  }

  lemma EmptyBuffer(n: nat)
    ensures Buffer([], n) == seq(n, _ => 0)
  {
  }

  method DecodeBlock(in4: seq<Byte>, dest: array<Byte>, outPos: nat)
    requires |in4| == 4 && forall i :: 0 <= i < 4 ==> IsAlphabet(in4[i])
    requires outPos + 3 <= dest.Length
    modifies dest
    ensures dest[..outPos + 3] == old(dest[..outPos]) + DecodedBlock(in4)
  {
    hide Inverse, IsAlphabet;
    var nn := Inverse(in4[0]) * 0x4_0000 + Inverse(in4[1]) * 0x1000 + Inverse(in4[2]) * 0x40 + Inverse(in4[3]);
    dest[outPos] := nn / 0x1_0000 % 256;
    dest[outPos + 1] := nn / 0x100 % 256;
    dest[outPos + 2] := nn % 256;
  }

  method B64Decode(data: seq<Byte>) returns (r: Result<seq<Byte>>)
    ensures r == Decode(data)
  {
    hide Decoded, DecodedBlock, IsAlphabet, Char;
    var dest := new Byte[DecodeBufferReq(|data|)](_ => 0);
    var outPos := 0;
    var buffer: seq<Byte> := [];
    var cnt, padding := 0, 0;
    DecodedFits(data, Pending([], 0));
    ghost var (out, total) := Decoded(data, Pending([], 0));
    assert data[0..] == data;
    for i := 0 to |data|
      invariant 0 <= padding && 0 <= outPos <= |out| <= dest.Length && Pending(buffer, padding).Valid()
      invariant var (more, left) := Decoded(data[i..], Pending(buffer, padding));
                out == dest[..outPos] + more && total == cnt + left
    {
      var ch := data[i];
      DecodedNext(data[i..], Pending(buffer, padding));
      assert data[i..][1..] == data[i + 1..];
      if ch == PAD {
        ch := Char(0);
        padding := padding + 1;
      }
      if IsAlphabet(ch) {
        buffer := buffer + [ch];
        if |buffer| >= 4 {
          DecodeBlock(buffer, dest, outPos);
          buffer := [];
          outPos := outPos + 3;
          cnt := cnt + 3 - padding;
          padding := 0;
        }
      }
    }
    DecodedNothing(Pending(buffer, padding));
    assert data[|data|..] == [];
    assert out == dest[..outPos] && cnt == total <= outPos;
    if cnt < 0 {
      return Err;
    }
    assert dest[..cnt] == out[..cnt];
    r := Ok(dest[..cnt]);
  }

  lemma DecodedNothing(p: Pending)
    requires p.Valid()
    ensures Decoded([], p) == ([], 0)
  {
  }

  lemma DecodedNext(data: seq<Byte>, p: Pending)
    requires data != [] && p.Valid()
    ensures var c, padding := Unpadded(data[0]), p.padding + if data[0] == PAD then 1 else 0;
      Decoded(data, p)
      == if !IsAlphabet(c) then Decoded(data[1..], Pending(p.chars, padding))
         else if |p.chars| < 3 then Decoded(data[1..], Pending(p.chars + [c], padding))
         else var (out, cnt) := Decoded(data[1..], Pending([], 0));
              (DecodedBlock(p.chars + [c]) + out, 3 - padding + cnt)
  {
  }
}
