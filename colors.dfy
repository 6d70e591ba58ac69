/** hex_to_rgb: the theme's colour strings turned into (r, g, b) triples. */
module Colors {
  import opened Wrappers

  datatype Rgb = Rgb(r: int, g: int, b: int)

  const Black := Rgb(0, 0, 0)

  /** What hex_to_rgb gives: a triple, or the ValueError that int(..., 16)
      raises, carrying the two-character literal it rejected. */
  datatype Conversion = Converted(rgb: Rgb) | ValueError(literal: string)

  /** s.lstrip('#'): every leading '#' removed, nothing else. */
  function StripHashes(s: string): string
  {
    if s != [] && s[0] == '#' then StripHashes(s[1..]) else s
  }

  /** lstrip('#') leaves a suffix of s that does not start with '#', and
      drops only '#'s. */
  lemma {:induction false} StripHashesSpec(s: string)
    ensures var r := StripHashes(s);
      |r| <= |s| && r == s[|s| - |r|..] && (r == [] || r[0] != '#')
      && forall i :: 0 <= i < |s| - |r| ==> s[i] == '#'
  {
    if s != [] && s[0] == '#' {
      StripHashesSpec(s[1..]);
      assert s[1..][|s| - 1 - |StripHashes(s)|..] == s[|s| - |StripHashes(s)|..];
    }
  }

  /** ''.join(c * 2 for c in s): every character written twice. */
  function Doubled(s: string): (r: string)
    ensures |r| == 2 * |s|
  {
    if s == [] then [] else [s[0], s[0]] + Doubled(s[1..])
  }

  /** Character i of the doubled string is character i / 2 of s. */
  lemma {:induction false} DoubledAt(s: string)
    ensures forall i :: 0 <= i < 2 * |s| ==> Doubled(s)[i] == s[i / 2]
  {
    if s != [] {
      DoubledAt(s[1..]);
      var d := Doubled(s);
      forall i | 2 <= i < 2 * |s|
        ensures d[i] == s[i / 2]
      {
        assert d[i] == Doubled(s[1..])[i - 2];
        assert (i - 2) / 2 == i / 2 - 1;
      }
    }
  }

  predicate IsHexDigit(c: char)
  {
    '0' <= c <= '9' || 'a' <= c <= 'f' || 'A' <= c <= 'F'
  }

  function HexDigitValue(c: char): (v: nat)
    requires IsHexDigit(c)
    ensures v < 16
  {
    if '0' <= c <= '9' then c as int - '0' as int
    else if 'a' <= c <= 'f' then c as int - 'a' as int + 10
    else c as int - 'A' as int + 10
  }

  /** The characters int() skips at both ends of its argument: the ASCII
      white space tab, line feed, vertical tab, form feed, carriage return
      and space, and the non-ASCII characters str.isspace() accepts (int()
      first turns those into spaces). The ASCII separators U+001C to U+001F,
      which str.isspace() also accepts, are kept as they are and rejected. */
  predicate IsSpace(c: char)
  {
    '\t' <= c <= '\r' || c == ' ' || c == '\U{85}' || c == '\U{a0}'
    || c == '\U{1680}' || '\U{2000}' <= c <= '\U{200a}' || c == '\U{2028}' || c == '\U{2029}'
    || c == '\U{202f}' || c == '\U{205f}' || c == '\U{3000}'
  }

  /** int(a + b, 16) for a two-character string: two hex digits; or one
      digit with surrounding white space; or a signed digit. None is the
      ValueError Python raises for everything else ('0x' among them, a
      prefix without digits). */
  function IntBase16(a: char, b: char): (r: Option<int>)
    ensures IsHexDigit(a) && IsHexDigit(b) ==> r == Some(PairValue(a, b))
    ensures r.Some? ==> (IsHexDigit(a) || IsHexDigit(b)) && -15 <= r.value <= 255
  {
    if IsHexDigit(a) && IsHexDigit(b) then Some(16 * HexDigitValue(a) + HexDigitValue(b))
    else if IsSpace(a) && IsHexDigit(b) then Some(HexDigitValue(b))
    else if IsHexDigit(a) && IsSpace(b) then Some(HexDigitValue(a))
    else if a == '+' && IsHexDigit(b) then Some(HexDigitValue(b))
    else if a == '-' && IsHexDigit(b) then Some(-(HexDigitValue(b) as int))
    else None
  }

  /** tuple(int(h[i:i+2], 16) for i in (0, 2, 4)): the pairs are converted
      left to right and the first one int() rejects raises. */
  function Components(h: string): (r: Conversion)
    requires |h| == 6
    ensures r.ValueError? ==> |r.literal| == 2 && IntBase16(r.literal[0], r.literal[1]).None?
    ensures r.Converted? <==>
      IntBase16(h[0], h[1]).Some? && IntBase16(h[2], h[3]).Some? && IntBase16(h[4], h[5]).Some?
  {
    var r := IntBase16(h[0], h[1]);
    var g := IntBase16(h[2], h[3]);
    var b := IntBase16(h[4], h[5]);
    if r.None? then ValueError(h[0..2])
    else if g.None? then ValueError(h[2..4])
    else if b.None? then ValueError(h[4..6])
    else Converted(Rgb(r.value, g.value, b.value))
  }

  /** hex_to_rgb(hex_color). */
  function HexToRgb(color: Option<string>): (r: Conversion)
    ensures r.ValueError? ==> |r.literal| == 2 && IntBase16(r.literal[0], r.literal[1]).None?
  {
    match color
    case None => Converted(Black)
    case Some(s) =>
      var t := StripHashes(s);
      var h := if |t| == 3 then Doubled(t) else t;
      if |h| != 6 then Converted(Black) else Components(h)
  }

  /** The value of the hex-digit pair a b. */
  function PairValue(a: char, b: char): int
    requires IsHexDigit(a) && IsHexDigit(b)
  {
    16 * HexDigitValue(a) + HexDigitValue(b)
  }

  predicate AllHexDigits(s: string)
  {
    forall i :: 0 <= i < |s| ==> IsHexDigit(s[i])
  }

  // ----- Properties -----

  /** No colour is black. */
  lemma NoneIsBlack()
    ensures HexToRgb(None) == Converted(Black)
  {
  }

  /** After the '#'s are stripped, any length but 3 and 6 is black,
      whatever the characters are. */
  lemma OtherLengthsAreBlack(s: string)
    requires |StripHashes(s)| != 3 && |StripHashes(s)| != 6
    ensures HexToRgb(Some(s)) == Converted(Black)
  {
  }

  /** The short form means the same as its doubled long form, however many
      '#'s precede it and whatever its characters are. */
  lemma ShortFormIsDoubled(s: string)
    requires |StripHashes(s)| == 3
    ensures HexToRgb(Some(s)) == HexToRgb(Some(Doubled(StripHashes(s))))
  {
    var t := StripHashes(s);
    var d := Doubled(t);
    StripHashesSpec(s);
    DoubledAt(t);
    assert d[0] == t[0] != '#';
    assert StripHashes(d) == d;
  }

  /** Six hex digits convert pairwise, every component in 0..255. */
  lemma SixHexDigits(s: string)
    requires |StripHashes(s)| == 6 && AllHexDigits(StripHashes(s))
    ensures var h := StripHashes(s);
      HexToRgb(Some(s)) == Converted(Rgb(PairValue(h[0], h[1]), PairValue(h[2], h[3]), PairValue(h[4], h[5])))
    ensures var c := HexToRgb(Some(s)).rgb;
      0 <= c.r <= 255 && 0 <= c.g <= 255 && 0 <= c.b <= 255
  {
  }

  /** Three hex digits convert each digit d to 17 * d (0xdd). */
  lemma ThreeHexDigits(s: string)
    requires |StripHashes(s)| == 3 && AllHexDigits(StripHashes(s))
    ensures var t := StripHashes(s);
      HexToRgb(Some(s)) == Converted(Rgb(17 * HexDigitValue(t[0]), 17 * HexDigitValue(t[1]), 17 * HexDigitValue(t[2])))
  {
    var t := StripHashes(s);
    var d := Doubled(t);
    DoubledAt(t);
    assert d[0] == t[0] && d[1] == t[0] && d[2] == t[1] && d[3] == t[1] && d[4] == t[2] && d[5] == t[2];
  }

  /** The pair of h at i (0, 2 or 4) is the first one int() rejects: it is
      rejected and every pair to its left is accepted. */
  predicate FirstBad(h: string, i: nat)
    requires |h| == 6
  {
    (i == 0 || i == 2 || i == 4) && IntBase16(h[i], h[i + 1]).None?
    && (i >= 2 ==> IntBase16(h[0], h[1]).Some?)
    && (i >= 4 ==> IntBase16(h[2], h[3]).Some?)
  }

  /** hex_to_rgb raises exactly when the 6-character form has a pair int()
      rejects, and the error names the first such pair. */
  lemma ErrorIffBadPair(s: string)
    requires |StripHashes(s)| == 6
    ensures var h := StripHashes(s);
      HexToRgb(Some(s)).ValueError? <==>
        IntBase16(h[0], h[1]).None? || IntBase16(h[2], h[3]).None? || IntBase16(h[4], h[5]).None?
    ensures var h := StripHashes(s);
      HexToRgb(Some(s)).ValueError? ==>
        exists i: nat :: FirstBad(h, i) && HexToRgb(Some(s)).literal == h[i..i + 2]
  {
    var h := StripHashes(s);
    var c := HexToRgb(Some(s));
    if c.ValueError? {
      if IntBase16(h[0], h[1]).None? {
        assert FirstBad(h, 0) && c.literal == h[0..2];
      } else if IntBase16(h[2], h[3]).None? {
        assert FirstBad(h, 2) && c.literal == h[2..4];
      } else {
        assert FirstBad(h, 4) && c.literal == h[4..6];
      }
    }
  }

  // ----- Formatting, the inverse direction -----

  function HexDigitChar(d: nat): (c: char)
    requires d < 16
    ensures IsHexDigit(c) && HexDigitValue(c) == d
  {
    if d < 10 then ('0' as int + d) as char else ('a' as int + d - 10) as char
  }

  predicate IsByteColor(c: Rgb)
  {
    0 <= c.r < 256 && 0 <= c.g < 256 && 0 <= c.b < 256
  }

  /** The six-digit lower-case hex form of a colour, as the theme stores it. */
  function HexOf(c: Rgb): (s: string)
    requires IsByteColor(c)
    ensures |s| == 6 && AllHexDigits(s)
  {
    [HexDigitChar(c.r / 16), HexDigitChar(c.r % 16),
     HexDigitChar(c.g / 16), HexDigitChar(c.g % 16),
     HexDigitChar(c.b / 16), HexDigitChar(c.b % 16)]
  }

  function Hashes(k: nat): (s: string)
    ensures |s| == k
  {
    if k == 0 then [] else "#" + Hashes(k - 1)
  }

  lemma {:induction false} StripHashesPrefix(k: nat, s: string)
    requires s == [] || s[0] != '#'
    ensures StripHashes(Hashes(k) + s) == s
  {
    if k > 0 {
      assert (Hashes(k) + s)[1..] == Hashes(k - 1) + s;
      StripHashesPrefix(k - 1, s);
    }
  }

  /** Converting the hex form of a byte colour back, behind any number of
      '#'s, gives the colour. */
  lemma RoundTrip(c: Rgb, k: nat)
    requires IsByteColor(c)
    ensures HexToRgb(Some(Hashes(k) + HexOf(c))) == Converted(c)
  {
    var h := HexOf(c);
    StripHashesPrefix(k, h);
    SixHexDigits(Hashes(k) + h);
    assert PairValue(h[0], h[1]) == 16 * (c.r / 16) + c.r % 16 == c.r;
    assert PairValue(h[2], h[3]) == 16 * (c.g / 16) + c.g % 16 == c.g;
    assert PairValue(h[4], h[5]) == 16 * (c.b / 16) + c.b % 16 == c.b;
  }

  // ----- Concrete cases -----

  lemma ShortFormExample()
    ensures HexToRgb(Some("#abc")) == Converted(Rgb(0xaa, 0xbb, 0xcc))
  {
    assert StripHashes("#abc") == "abc";
    ThreeHexDigits("#abc");
  }

  lemma LongFormExample()
    ensures HexToRgb(Some("##00ff80")) == Converted(Rgb(0, 255, 128))
  {
    var h := "00ff80";
    assert Hashes(2) + h == "##00ff80";
    StripHashesPrefix(2, h);
    SixHexDigits("##00ff80");
  }

  lemma BlackExamples()
    ensures HexToRgb(Some("")) == Converted(Black)
    ensures HexToRgb(Some("#abcd")) == Converted(Black)
  {
    assert Hashes(1) + "abcd" == "#abcd";
    StripHashesPrefix(1, "abcd");
  }

  lemma BadDigitExample()
    ensures HexToRgb(Some("#12g456")) == ValueError("g4")
  {
    var h := "12g456";
    assert Hashes(1) + h == "#12g456";
    StripHashesPrefix(1, h);
    assert IntBase16(h[0], h[1]).Some?;
    assert !IsSpace('g') && !IsHexDigit('g');
    assert IntBase16(h[2], h[3]).None?;
  }

  lemma PrefixWithoutDigitsExample()
    ensures HexToRgb(Some("0x0000")) == ValueError("0x")
  {
    var h := "0x0000";
    StripHashesPrefix(0, h);
    assert Hashes(0) + h == h;
    assert !IsSpace('x') && !IsHexDigit('x');
    assert IntBase16(h[0], h[1]).None?;
  }

  /** int()'s leniency reaches the triple: a signed or space-padded pair is
      accepted, and a minus sign gives a negative component. */
  lemma LenientPairs()
    ensures HexToRgb(Some("-f+f f")) == Converted(Rgb(-15, 15, 15))
  {
    assert StripHashes("-f+f f") == "-f+f f";
  }

  /** int() skips a tab or a space next to a digit, but not the
      information separator U+001C, so a colour padded with it raises. */
  lemma SeparatorIsNotSpace()
    ensures IntBase16('\t', 'f') == Some(15) && IntBase16(' ', 'f') == Some(15)
    ensures IntBase16('\U{1c}', 'f').None?
    ensures HexToRgb(Some("\U{1c}f\U{1c}f\U{1c}f")) == ValueError("\U{1c}f")
  {
    assert StripHashes("\U{1c}f\U{1c}f\U{1c}f") == "\U{1c}f\U{1c}f\U{1c}f";
  }
}
