/** The integer logic of create_cover_images.py: the diagonal gradient mask
    built by `create_gradient` and the `#RRGGBB` parser `hex_to_rgb`. */
module CoverImages {
  import opened Outcomes
  import opened Arithmetic

  // ---------------------------------------------------------------------
  // create_gradient: the mask list
  // ---------------------------------------------------------------------

  /** The mask byte of pixel (x, y): `int(255 * (x + y) / (width + height))`.
      Both operands are non-negative integers far below 2^53, so the float
      quotient truncated by `int` is exactly the floor quotient. */
  function MaskValue(width: nat, height: nat, x: nat, y: nat): nat
    requires x < width && y < height
  {
    255 * (x + y) / (width + height)
  }

  /** The mask bytes of row y, left to right. */
  function Row(width: nat, height: nat, y: nat): seq<nat>
    requires y < height
  {
    seq(width, x requires 0 <= x < width => MaskValue(width, height, x, y))
  }

  /** Rows 0 .. n-1 of the mask, concatenated top to bottom. */
  function Rows(width: nat, height: nat, n: nat): seq<nat>
    requires n <= height
  {
    if n == 0 then [] else Rows(width, height, n - 1) + Row(width, height, n - 1)
  }

  /** The whole mask list, row-major: what `mask.putdata` receives. */
  function Mask(width: nat, height: nat): seq<nat> {
    Rows(width, height, height)
  }

  /** The nested `for y` / `for x` loops that append one byte per pixel. */
  method CreateGradientMask(width: nat, height: nat) returns (maskData: seq<nat>)
    ensures maskData == Mask(width, height)
  {
    maskData := [];
    for y := 0 to height
      invariant maskData == Rows(width, height, y)
    {
      ghost var row := Row(width, height, y);
      for x := 0 to width
        invariant maskData == Rows(width, height, y) + row[..x]
      {
        assert row[..x + 1] == row[..x] + [MaskValue(width, height, x, y)];
        maskData := maskData + [255 * (x + y) / (width + height)];
      }
      assert row[..width] == row;
    }
  }

  lemma {:induction false} RowsLength(width: nat, height: nat, n: nat)
    requires n <= height
    ensures |Rows(width, height, n)| == n * width
  {
    if n > 0 {
      RowsLength(width, height, n - 1);
      assert n * width == (n - 1) * width + width;
    }
  }

  lemma {:induction false} RowsAt(width: nat, height: nat, n: nat, x: nat, y: nat)
    requires n <= height && x < width && y < n
    ensures y * width + x < |Rows(width, height, n)|
    ensures Rows(width, height, n)[y * width + x] == MaskValue(width, height, x, y)
  {
    RowsLength(width, height, n - 1);
    if y < n - 1 {
      RowsAt(width, height, n - 1, x, y);
    } else {
      assert y * width == (n - 1) * width;
    }
  }

  /** The mask has one entry per pixel. */
  lemma MaskLength(width: nat, height: nat)
    ensures |Mask(width, height)| == width * height
  {
    RowsLength(width, height, height);
    assert height * width == width * height;
  }

  /** Row-major layout: the byte of pixel (x, y) sits at index y*width + x
      and is the truncated quotient of 255*(x+y) by width+height. */
  lemma MaskAt(width: nat, height: nat, x: nat, y: nat)
    requires x < width && y < height
    ensures y * width + x < |Mask(width, height)|
    ensures Mask(width, height)[y * width + x] == 255 * (x + y) / (width + height)
  {
    RowsAt(width, height, height, x, y);
  }

  /** No pixel's mask byte reaches 255: since x+y <= width+height-2 is
      strictly below the divisor width+height, the end colour is never
      applied in full, not even at the bottom-right pixel. */
  lemma MaskValueBelowFull(width: nat, height: nat, x: nat, y: nat)
    requires x < width && y < height
    ensures MaskValue(width, height, x, y) <= 254
  {
    DivBelow(255 * (x + y), width + height, 255);
  }

  lemma {:induction false} RowsBelowFull(width: nat, height: nat, n: nat)
    requires n <= height
    ensures forall i :: 0 <= i < |Rows(width, height, n)| ==> Rows(width, height, n)[i] <= 254
  {
    if n > 0 {
      var y := n - 1;
      RowsBelowFull(width, height, y);
      forall x | 0 <= x < width
        ensures Row(width, height, y)[x] <= 254
      {
        MaskValueBelowFull(width, height, x, y);
      }
    }
  }

  /** Every byte of the mask lies in [0, 254]. */
  lemma MaskBelowFull(width: nat, height: nat)
    ensures forall i :: 0 <= i < |Mask(width, height)| ==> 0 <= Mask(width, height)[i] <= 254
  {
    RowsBelowFull(width, height, height);
  }

  /** The top-left byte is 0, so that pixel keeps the start colour. */
  lemma MaskTopLeftZero(width: nat, height: nat)
    requires width >= 1 && height >= 1
    ensures |Mask(width, height)| > 0 && Mask(width, height)[0] == 0
  {
    MaskAt(width, height, 0, 0);
  }

  /** The bottom-right byte is 255*(w+h-2) div (w+h), short of 255. */
  lemma MaskBottomRight(width: nat, height: nat)
    requires width >= 1 && height >= 1
    ensures (height - 1) * width + (width - 1) == |Mask(width, height)| - 1
    ensures Mask(width, height)[|Mask(width, height)| - 1]
         == 255 * (width + height - 2) / (width + height) < 255
  {
    MaskAt(width, height, width - 1, height - 1);
    MaskLength(width, height);
    assert (height - 1) * width + width == height * width;
    MaskValueBelowFull(width, height, width - 1, height - 1);
  }

  /** On the 4x2 canvas the far corner gets 170 of 255, not 255. */
  lemma MaskFourByTwo()
    ensures Mask(4, 2) == [0, 42, 85, 127, 42, 85, 127, 170]
  {
    assert Row(4, 2, 0) == [0, 42, 85, 127];
    assert Row(4, 2, 1) == [42, 85, 127, 170];
  }

  /** Pixels on one anti-diagonal (equal x+y) get equal bytes. */
  lemma MaskAntiDiagonal(width: nat, height: nat, x1: nat, y1: nat, x2: nat, y2: nat)
    requires x1 < width && y1 < height && x2 < width && y2 < height
    requires x1 + y1 == x2 + y2
    ensures y1 * width + x1 < |Mask(width, height)| && y2 * width + x2 < |Mask(width, height)|
    ensures Mask(width, height)[y1 * width + x1] == Mask(width, height)[y2 * width + x2]
  {
    MaskAt(width, height, x1, y1);
    MaskAt(width, height, x2, y2);
  }

  /** The byte never decreases as x+y grows. */
  lemma MaskMonotone(width: nat, height: nat, x1: nat, y1: nat, x2: nat, y2: nat)
    requires x1 < width && y1 < height && x2 < width && y2 < height
    requires x1 + y1 <= x2 + y2
    ensures y1 * width + x1 < |Mask(width, height)| && y2 * width + x2 < |Mask(width, height)|
    ensures Mask(width, height)[y1 * width + x1] <= Mask(width, height)[y2 * width + x2]
  {
    MaskAt(width, height, x1, y1);
    MaskAt(width, height, x2, y2);
    DivMonotone(255 * (x1 + y1), 255 * (x2 + y2), width + height);
  }

  // ---------------------------------------------------------------------
  // hex_to_rgb
  // ---------------------------------------------------------------------

  datatype Rgb = Rgb(red: nat, green: nat, blue: nat)

  predicate IsByte(n: nat) {
    n <= 255
  }

  predicate ValidRgb(c: Rgb) {
    IsByte(c.red) && IsByte(c.green) && IsByte(c.blue)
  }

  /** `int(literal, 16)` raises ValueError on an empty or non-hex literal. */
  datatype ParseError = ValueError(literal: string)

  /** `str.lstrip('#')`. */
  function LStripHash(s: string): string {
    if s != [] && s[0] == '#' then LStripHash(s[1..]) else s
  }

  /** lstrip drops every leading '#' and nothing else: the result is a
      suffix of the input, everything before it is '#', and it does not
      itself start with '#'. */
  lemma {:induction false} LStripHashStrips(s: string)
    ensures |LStripHash(s)| <= |s| && LStripHash(s) == s[|s| - |LStripHash(s)|..]
    ensures forall i :: 0 <= i < |s| - |LStripHash(s)| ==> s[i] == '#'
    ensures LStripHash(s) == [] || LStripHash(s)[0] != '#'
  {
    if s != [] && s[0] == '#' {
      var r := LStripHash(s[1..]);
      LStripHashStrips(s[1..]);
      assert LStripHash(s) == r;
      assert s[1..][|s| - 1 - |r|..] == s[|s| - |r|..];
      forall i | 0 <= i < |s| - |r|
        ensures s[i] == '#'
      {
        if i > 0 {
          assert s[i] == s[1..][i - 1];
        }
      }
    }
  }

  /** Python's slice `t[i:j]`, which clamps both ends to the length. */
  function Slice(t: string, i: nat, j: nat): (r: string)
    requires i <= j
    ensures |r| == if |t| <= i then 0 else Min(|t|, j) - i
    ensures forall k :: 0 <= k < |r| ==> r[k] == t[i + k]
  {
    if |t| <= i then [] else if |t| <= j then t[i..] else t[i..j]
  }

  predicate IsHexDigit(c: char) {
    '0' <= c <= '9' || 'a' <= c <= 'f' || 'A' <= c <= 'F'
  }

  predicate IsHexLiteral(s: string) {
    s != [] && forall i :: 0 <= i < |s| ==> IsHexDigit(s[i])
  }

  function HexDigitValue(c: char): (d: nat)
    requires IsHexDigit(c)
    ensures d < 16
  {
    if '0' <= c <= '9' then c as nat - '0' as nat
    else if 'a' <= c <= 'f' then c as nat - 'a' as nat + 10
    else c as nat - 'A' as nat + 10
  }

  function Pow16(n: nat): (p: nat)
    ensures p >= 1
  {
    if n == 0 then 1 else 16 * Pow16(n - 1)
  }

  /** The base-16 value of a string of hex digits, most significant first. */
  function HexValue(s: string): (v: nat)
    requires forall i :: 0 <= i < |s| ==> IsHexDigit(s[i])
    ensures v < Pow16(|s|)
  {
    if s == [] then 0 else 16 * HexValue(s[..|s| - 1]) + HexDigitValue(s[|s| - 1])
  }

  /** `int(literal, 16)`, restricted to plain hex-digit literals. */
  function IntBase16(literal: string): (r: Result<nat, ParseError>)
    ensures r.Ok? <==> IsHexLiteral(literal)
    ensures r.Err? ==> r.error == ValueError(literal)
    ensures r.Ok? && |literal| <= 2 ==> IsByte(r.value)
  {
    if IsHexLiteral(literal) then
      assert |literal| <= 2 ==> Pow16(|literal|) <= 256;
      Ok(HexValue(literal))
    else Err(ValueError(literal))
  }

  /** The slices `t[0:2]`, `t[2:4]`, `t[4:6]` that hex_to_rgb reads. */
  function Channel(t: string, k: nat): string
    requires k < 3
  {
    Slice(t, 2 * k, 2 * k + 2)
  }

  /** hex_to_rgb: strip leading '#', then parse the three two-character
      slices as base-16 integers, the first failing slice raising. */
  function HexToRgb(hexColor: string): (r: Result<Rgb, ParseError>)
    ensures r.Ok? ==> ValidRgb(r.value)
  {
    ParseChannels(LStripHash(hexColor))
  }

  /** The three `int(t[i:i+2], 16)` calls of the tuple comprehension, in order. */
  function ParseChannels(t: string): (r: Result<Rgb, ParseError>)
    ensures r.Ok? ==> ValidRgb(r.value)
  {
    var red :- IntBase16(Channel(t, 0));
    var green :- IntBase16(Channel(t, 1));
    var blue :- IntBase16(Channel(t, 2));
    Ok(Rgb(red, green, blue))
  }

  function Min(a: nat, b: nat): nat {
    if a <= b then a else b
  }

  /** The stripped strings hex_to_rgb accepts: at least five characters
      (the clamped last slice may hold a single digit) and only hex digits
      among the first six. */
  predicate HexColorAccepted(t: string) {
    5 <= |t| && forall i :: 0 <= i < Min(|t|, 6) ==> IsHexDigit(t[i])
  }

  /** A slice of hex digits is a literal `int(_, 16)` accepts. */
  lemma HexLiteralSlice(t: string, a: nat, b: nat)
    requires a < b <= |t|
    ensures IsHexLiteral(t[a..b]) <==> forall i :: a <= i < b ==> IsHexDigit(t[i])
  {
    if forall i :: a <= i < b ==> IsHexDigit(t[i]) {
      forall j | 0 <= j < b - a ensures IsHexDigit(t[a..b][j]) {
        assert t[a..b][j] == t[a + j];
      }
    } else {
      var i :| a <= i < b && !IsHexDigit(t[i]);
      assert t[a..b][i - a] == t[i];
    }
  }

  /** The three slices parse exactly when the string has five or more
      characters of which the first six (or all five) are hex digits. */
  lemma ParseChannelsAccepts(t: string)
    ensures ParseChannels(t).Ok? <==> HexColorAccepted(t)
  {
    if |t| < 5 {
      assert Channel(t, 2) == [];
    } else {
      var e := Min(|t|, 6);
      assert Channel(t, 0) == t[0..2] && Channel(t, 1) == t[2..4] && Channel(t, 2) == t[4..e];
      HexLiteralSlice(t, 0, 2);
      HexLiteralSlice(t, 2, 4);
      HexLiteralSlice(t, 4, e);
    }
  }

  /** hex_to_rgb parses exactly the strings that, once stripped of their
      leading '#', have five or more characters of which the first six
      (or all five) are hex digits. */
  lemma HexToRgbAccepts(hexColor: string)
    ensures HexToRgb(hexColor).Ok? <==> HexColorAccepted(LStripHash(hexColor))
  {
    ParseChannelsAccepts(LStripHash(hexColor));
  }

  function Hashes(n: nat): string {
    seq(n, _ => '#')
  }

  /** Every leading '#' is stripped, however many there are. */
  lemma {:induction false} LStripHashPrefix(n: nat, s: string)
    ensures LStripHash(Hashes(n) + s) == LStripHash(s)
  {
    if n > 0 {
      var h := Hashes(n) + s;
      assert h[0] == '#';
      assert h[1..] == Hashes(n - 1) + s;
      LStripHashPrefix(n - 1, s);
      assert LStripHash(h) == LStripHash(h[1..]);
    } else {
      assert Hashes(n) + s == s;
    }
  }

  /** `"667eea"`, `"#667eea"` and `"##667eea"` parse alike: any number of
      leading '#' is ignored. */
  lemma LeadingHashesIgnored(n: nat, s: string)
    ensures HexToRgb(Hashes(n) + s) == HexToRgb(s)
  {
    LStripHashPrefix(n, s);
  }

  lemma {:induction false} LStripHashAppend(s: string, rest: string)
    requires LStripHash(s) != []
    ensures LStripHash(s + rest) == LStripHash(s) + rest
  {
    if s[0] == '#' {
      assert (s + rest)[0] == '#' && (s + rest)[1..] == s[1..] + rest;
      LStripHashAppend(s[1..], rest);
      assert LStripHash(s + rest) == LStripHash(s[1..] + rest);
    } else {
      assert (s + rest)[0] == s[0];
    }
  }

  lemma ChannelsOfLong(t: string)
    requires |t| >= 6
    ensures Channel(t, 0) == t[0..6][0..2]
    ensures Channel(t, 1) == t[0..6][2..4]
    ensures Channel(t, 2) == t[0..6][4..6]
  {
  }

  lemma ParseChannelsIgnoresTail(t: string, rest: string)
    requires |t| >= 6
    ensures ParseChannels(t + rest) == ParseChannels(t)
  {
    ChannelsOfLong(t);
    ChannelsOfLong(t + rest);
    assert (t + rest)[0..6] == t[0..6];
  }

  /** Characters after the sixth digit are never read. */
  lemma TrailingCharactersIgnored(hexColor: string, rest: string)
    requires |LStripHash(hexColor)| >= 6
    ensures HexToRgb(hexColor + rest) == HexToRgb(hexColor)
  {
    var t := LStripHash(hexColor);
    LStripHashAppend(hexColor, rest);
    ParseChannelsIgnoresTail(t, rest);
  }

  // The serialiser below is the partner of hex_to_rgb (the scripts write
  // their colours as literals): `#` and two lower-case digits per channel.

  predicate IsLowerHexDigit(c: char) {
    '0' <= c <= '9' || 'a' <= c <= 'f'
  }

  /** The lower-case hex digit of d; hex_to_rgb reads it back as d. */
  function HexDigitChar(d: nat): (c: char)
    requires d < 16
    ensures IsLowerHexDigit(c) && IsHexDigit(c) && HexDigitValue(c) == d
  {
    if d < 10 then (d + '0' as nat) as char else (d - 10 + 'a' as nat) as char
  }

  lemma HexDigitCharOfValue(c: char)
    requires IsLowerHexDigit(c)
    ensures HexDigitChar(HexDigitValue(c)) == c
  {
  }

  /** Two hex digits, high nibble first, whose base-16 value is n. */
  function HexByte(n: nat): (s: string)
    requires IsByte(n)
    ensures |s| == 2 && IsHexLiteral(s) && HexValue(s) == n
  {
    var s := [HexDigitChar(n / 16), HexDigitChar(n % 16)];
    assert s[..1] == [s[0]];
    s
  }

  function RgbToHex(c: Rgb): (s: string)
    requires ValidRgb(c)
    ensures |s| == 7 && s[0] == '#'
  {
    "#" + HexByte(c.red) + HexByte(c.green) + HexByte(c.blue)
  }

  /** Formatting a colour as `#rrggbb` and parsing it gives the colour back. */
  lemma RgbHexRoundTrip(c: Rgb)
    requires ValidRgb(c)
    ensures HexToRgb(RgbToHex(c)) == Ok(c)
  {
    var body := HexByte(c.red) + HexByte(c.green) + HexByte(c.blue);
    assert RgbToHex(c) == "#" + body;
    assert (RgbToHex(c))[1..] == body;
    assert LStripHash(body) == body;
    assert Channel(body, 0) == HexByte(c.red);
    assert Channel(body, 1) == HexByte(c.green);
    assert Channel(body, 2) == HexByte(c.blue);
  }

  lemma HexByteOfValue(s: string)
    requires |s| == 2 && IsLowerHexDigit(s[0]) && IsLowerHexDigit(s[1])
    ensures IsHexLiteral(s) && HexValue(s) <= 255 && HexByte(HexValue(s)) == s
  {
    assert s[..1] == [s[0]];
    var hi, lo := HexDigitValue(s[0]), HexDigitValue(s[1]);
    assert HexValue(s) == 16 * hi + lo;
    assert (16 * hi + lo) / 16 == hi && (16 * hi + lo) % 16 == lo;
    HexDigitCharOfValue(s[0]);
    HexDigitCharOfValue(s[1]);
  }

  /** Parsing a canonical `#rrggbb` string and formatting the result
      gives the string back. */
  lemma HexRgbRoundTrip(s: string)
    requires |s| == 7 && s[0] == '#'
    requires forall i :: 1 <= i < 7 ==> IsLowerHexDigit(s[i])
    ensures HexToRgb(s).Ok? && RgbToHex(HexToRgb(s).value) == s
  {
    assert LStripHash(s) == s[1..];
    var t := s[1..];
    assert Channel(t, 0) == s[1..3] && Channel(t, 1) == s[3..5] && Channel(t, 2) == s[5..7];
    HexByteOfValue(s[1..3]);
    HexByteOfValue(s[3..5]);
    HexByteOfValue(s[5..7]);
    assert s == "#" + s[1..3] + s[3..5] + s[5..7];
  }

  /** The (start, end) gradient colours `main` passes to create_cover_slide
      for the three cover slides. */
  const CoverGradients: seq<(string, string)> := [
    ("#667eea", "#764ba2"),
    ("#f093fb", "#f5576c"),
    ("#4facfe", "#00f2fe")
  ]

  /** The value of the two hex digits `hi lo`. */
  function HexPairValue(hi: char, lo: char): nat
    requires IsHexDigit(hi) && IsHexDigit(lo)
  {
    16 * HexDigitValue(hi) + HexDigitValue(lo)
  }

  lemma HexPairLiteral(hi: char, lo: char)
    requires IsHexDigit(hi) && IsHexDigit(lo)
    ensures IsHexLiteral([hi, lo]) && HexValue([hi, lo]) == HexPairValue(hi, lo)
  {
    var s := [hi, lo];
    assert s[..|s| - 1] == [hi] && [hi][..0] == [];
    assert HexValue([hi]) == HexDigitValue(hi);
  }

  /** `#` followed by six hex digits parses to the three pairs' values. */
  lemma HexColourOfDigits(hex: string, r1: char, r0: char, g1: char, g0: char, b1: char, b0: char)
    requires IsHexDigit(r1) && IsHexDigit(r0) && IsHexDigit(g1) && IsHexDigit(g0)
    requires IsHexDigit(b1) && IsHexDigit(b0)
    requires hex == ['#', r1, r0, g1, g0, b1, b0]
    ensures HexToRgb(hex) == Ok(Rgb(HexPairValue(r1, r0), HexPairValue(g1, g0), HexPairValue(b1, b0)))
  {
    var digits := hex[1..];
    assert digits == [r1, r0, g1, g0, b1, b0];
    assert LStripHash(hex) == LStripHash(digits) == digits;
    assert Channel(digits, 0) == [r1, r0];
    assert Channel(digits, 1) == [g1, g0];
    assert Channel(digits, 2) == [b1, b0];
    HexPairLiteral(r1, r0);
    HexPairLiteral(g1, g0);
    HexPairLiteral(b1, b0);
  }

  /** Cover slide 1: the purple/indigo gradient. */
  lemma PurpleIndigoColours()
    ensures HexToRgb(CoverGradients[0].0) == Ok(Rgb(102, 126, 234))
    ensures HexToRgb(CoverGradients[0].1) == Ok(Rgb(118, 75, 162))
  {
    HexColourOfDigits(CoverGradients[0].0, '6', '6', '7', 'e', 'e', 'a');
    assert HexPairValue('6', '6') == 102 && HexPairValue('7', 'e') == 126 && HexPairValue('e', 'a') == 234;
    HexColourOfDigits(CoverGradients[0].1, '7', '6', '4', 'b', 'a', '2');
    assert HexPairValue('7', '6') == 118 && HexPairValue('4', 'b') == 75 && HexPairValue('a', '2') == 162;
  }

  /** Cover slide 2: the pink/rose gradient. */
  lemma PinkRoseColours()
    ensures HexToRgb(CoverGradients[1].0) == Ok(Rgb(240, 147, 251))
    ensures HexToRgb(CoverGradients[1].1) == Ok(Rgb(245, 87, 108))
  {
    HexColourOfDigits(CoverGradients[1].0, 'f', '0', '9', '3', 'f', 'b');
    assert HexPairValue('f', '0') == 240 && HexPairValue('9', '3') == 147 && HexPairValue('f', 'b') == 251;
    HexColourOfDigits(CoverGradients[1].1, 'f', '5', '5', '7', '6', 'c');
    assert HexPairValue('f', '5') == 245 && HexPairValue('5', '7') == 87 && HexPairValue('6', 'c') == 108;
  }

  /** Cover slide 3: the cyan/blue gradient. */
  lemma CyanBlueColours()
    ensures HexToRgb(CoverGradients[2].0) == Ok(Rgb(79, 172, 254))
    ensures HexToRgb(CoverGradients[2].1) == Ok(Rgb(0, 242, 254))
  {
    HexColourOfDigits(CoverGradients[2].0, '4', 'f', 'a', 'c', 'f', 'e');
    assert HexPairValue('4', 'f') == 79 && HexPairValue('a', 'c') == 172 && HexPairValue('f', 'e') == 254;
    HexColourOfDigits(CoverGradients[2].1, '0', '0', 'f', '2', 'f', 'e');
    assert HexPairValue('0', '0') == 0 && HexPairValue('f', '2') == 242 && HexPairValue('f', 'e') == 254;
  }
}
