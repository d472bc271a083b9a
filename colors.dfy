/** The colour-string parser of the fill style (`parse_css_color`): a lenient
    subset of CSS Color Module Level 4, section 5.1 (`rgb()`/`rgba()`) and
    section 5.2 (`#RRGGBB`), producing the premultiplied colour the
    rasteriser draws with. Decimal-number parsing (`str::parse::<f32>`) is
    a parameter of type `NumberParser`, so every result here holds for any
    number parser. */
module Colors {
  import opened Wrappers
  import opened Ints
  import opened Str

  /** tiny_skia's `Color`: four channels, each meant to lie in [0, 1]. */
  datatype Color = Color(r: real, g: real, b: real, a: real)

  predicate InUnitRange(v: real) {
    0.0 <= v <= 1.0
  }

  predicate IsNormalized(c: Color) {
    InUnitRange(c.r) && InUnitRange(c.g) && InUnitRange(c.b) && InUnitRange(c.a)
  }

  /** `Color::BLACK`: opaque black, the parser's fallback. */
  const Black := Color(0.0, 0.0, 0.0, 1.0)

  /** `Color::from_rgba8`: each byte scaled to [0, 1]. */
  function FromRgba8(r: u8, g: u8, b: u8, a: u8): (c: Color)
    ensures IsNormalized(c)
    ensures c.r * 255.0 == r as real && c.g * 255.0 == g as real
    ensures c.b * 255.0 == b as real && c.a * 255.0 == a as real
  {
    Color(r as real / 255.0, g as real / 255.0, b as real / 255.0, a as real / 255.0)
  }

  /** `Color::from_rgba`: accepts exactly the channel values in [0, 1]. */
  function FromRgba(r: real, g: real, b: real, a: real): (c: Option<Color>)
    ensures c.Some? <==> InUnitRange(r) && InUnitRange(g) && InUnitRange(b) && InUnitRange(a)
    ensures c.Some? ==> c.value == Color(r, g, b, a)
  {
    var c := Color(r, g, b, a);
    if IsNormalized(c) then Some(c) else None
  }

  /** The two ways the parser panics: `expect("Invalid color")` on a channel
      outside [0, 1], and a `#` string sliced at a byte offset that is past
      its end or inside a character. */
  datatype ColorError = InvalidColor | SliceOutOfBounds

  /** A model of `str::parse::<f32>`: the number a field denotes, or `None`. */
  type NumberParser = string -> Option<real>

  // ---------------------------------------------------------------------
  // Normalisation

  /** `to_lowercase().replace(" ", "")`. */
  function Normalize(text: string): (s: string)
    ensures forall i :: 0 <= i < |s| ==> s[i] != ' ' && !IsAsciiUpper(s[i])
    ensures |s| <= |text|
  {
    var lower := Lowercase(text);
    var s := Remove(lower, ' ');
    forall i | 0 <= i < |s| ensures !IsAsciiUpper(s[i]) {
      assert s[i] in lower;
    }
    s
  }

  /** Normalising twice is normalising once. */
  lemma NormalizeIdempotent(text: string)
    ensures Normalize(Normalize(text)) == Normalize(text)
  {
    var s := Normalize(text);
    var lower := Lowercase(s);
    assert lower == s;
    assert ' ' !in s;
    RemoveAbsent(s, ' ');
  }

  // ---------------------------------------------------------------------
  // The parser

  /** The characters `trim_matches` strips around the argument list of
      `rgb(...)` and `rgba(...)`. */
  const RgbTrimmed: set<char> := {'r', 'g', 'b', 'a', '(', ')'}

  /** The comma-separated fields of a normalised `rgb` string. */
  function RgbFields(s: string): (fields: seq<string>)
    ensures |fields| == Count(TrimMatches(s, RgbTrimmed), ',') + 1
    ensures forall k :: 0 <= k < |fields| ==> ',' !in fields[k]
  {
    Split(TrimMatches(s, RgbTrimmed), ',')
  }

  /** `parse_css_color`. A panic of the source is an `Err`; every colour it
      returns has all four channels in [0, 1]. */
  function ParseCssColor(text: string, num: NumberParser): (r: Result<Color, ColorError>)
    ensures r.Ok? ==> IsNormalized(r.value)
  {
    var s := Normalize(text);
    if StartsWith(s, "rgb") && |RgbFields(s)| >= 3 then
      RgbColor(RgbFields(s), num)
    else if StartsWith(s, "#") then
      HexColor(s)
    else
      Ok(Black)
  }

  /** The colour the fields of an `rgb` string denote, premultiplied: R, G,
      B on the 0..255 scale (0 when unparsable), alpha from a fourth field
      only when there are exactly four (1 when unparsable or absent). */
  function FieldsColor(values: seq<string>, num: NumberParser): (c: Color)
    requires |values| >= 3
    ensures num(values[0]).None? ==> c.r == 0.0
    ensures num(values[1]).None? ==> c.g == 0.0
    ensures num(values[2]).None? ==> c.b == 0.0
    ensures |values| != 4 ==> c.a == 1.0
    ensures |values| == 4 ==> c.a == num(values[3]).GetOr(1.0)
  {
    var red := num(values[0]).GetOr(0.0) / 255.0;
    var green := num(values[1]).GetOr(0.0) / 255.0;
    var blue := num(values[2]).GetOr(0.0) / 255.0;
    var alpha := if |values| == 4 then num(values[3]).GetOr(1.0) else 1.0;
    Color(red * alpha, green * alpha, blue * alpha, alpha)
  }

  /** The `rgb` branch once at least three fields are present: the colour of
      the fields, or the `expect` panic when a channel is outside [0, 1]. */
  function RgbColor(values: seq<string>, num: NumberParser): (r: Result<Color, ColorError>)
    requires |values| >= 3
    ensures r.Ok? ==> IsNormalized(r.value)
  {
    var c := FieldsColor(values, num);
    match FromRgba(c.r, c.g, c.b, c.a)
    case Some(c) => Ok(c)
    case None => Err(InvalidColor)
  }

  /** `char::to_digit(16)`. */
  function HexDigit(c: char): (d: Option<nat>)
    ensures d.Some? ==> d.value < 16
    ensures d.Some? ==> c as int < 0x80
  {
    if '0' <= c <= '9' then Some(c as int - '0' as int)
    else if 'a' <= c <= 'f' then Some(c as int - 'a' as int + 10)
    else if 'A' <= c <= 'F' then Some(c as int - 'A' as int + 10)
    else None
  }

  /** The number the hexadecimal digits `t` spell, or `None` if one of them is
      not a hexadecimal digit. */
  function HexValue(t: string): (v: Option<nat>)
    ensures t == [] ==> v == Some(0)
    ensures v.Some? <==> forall i :: 0 <= i < |t| ==> HexDigit(t[i]).Some?
    ensures v.Some? && |t| <= 1 ==> v.value < 16
    ensures v.Some? && |t| <= 2 ==> v.value < 256
  {
    if t == [] then Some(0)
    else
      match (HexValue(t[..|t| - 1]), HexDigit(t[|t| - 1]))
      case (Some(high), Some(low)) => Some(high * 16 + low)
      case _ => None
  }

  /** `u8::from_str_radix(t, 16)`: an optional leading `+`, then at least one
      hexadecimal digit, and a value that fits in a byte. */
  function ParseHexByte(t: string): (r: Option<u8>)
    ensures r.Some? ==> t != [] && t != "+"
    ensures r.Some? ==> forall i :: 0 <= i < |t| ==> HexDigit(t[i]).Some? || (i == 0 && t[i] == '+')
    ensures 1 <= |t| <= 2 && (forall i :: 0 <= i < |t| ==> HexDigit(t[i]).Some?) ==> r.Some?
  {
    var digits := if |t| >= 2 && t[0] == '+' then t[1..] else t;
    if digits == [] then None
    else
      match HexValue(digits)
      case Some(v) => if v < 256 then Some(v as u8) else None
      case None => None
  }

  /** The `#` branch: three byte pairs at byte offsets 1, 3 and 5; a pair that
      does not parse gives black, a slice that cannot be taken panics. */
  function HexColor(s: string): (r: Result<Color, ColorError>)
    ensures r.Ok? ==> IsNormalized(r.value) && r.value.a == 1.0
    ensures r.Err? ==> r.error == SliceOutOfBounds
    ensures ByteLen(s) < 3 ==> r == Err(SliceOutOfBounds)
  {
    match ByteSlice(s, 1, 3)
    case None => Err(SliceOutOfBounds)
    case Some(rs) =>
      match ParseHexByte(rs)
      case None => Ok(Black)
      case Some(r) =>
        match ByteSlice(s, 3, 5)
        case None => Err(SliceOutOfBounds)
        case Some(gs) =>
          match ParseHexByte(gs)
          case None => Ok(Black)
          case Some(g) =>
            match ByteSlice(s, 5, 7)
            case None => Err(SliceOutOfBounds)
            case Some(bs) =>
              match ParseHexByte(bs)
              case None => Ok(Black)
              case Some(b) => Ok(FromRgba8(r, g, b, 255))
  }

  // ---------------------------------------------------------------------
  // Properties

  /** Case and spaces are ignored: the result depends only on the
      normalised text. */
  lemma ParseIgnoresCaseAndSpaces(text: string, num: NumberParser)
    ensures ParseCssColor(Normalize(text), num) == ParseCssColor(text, num)
  {
    NormalizeIdempotent(text);
  }

  /** Text that starts with neither `rgb` nor `#` gives opaque black. */
  lemma OtherTextIsBlack(text: string, num: NumberParser)
    requires !StartsWith(Normalize(text), "rgb") && !StartsWith(Normalize(text), "#")
    ensures ParseCssColor(text, num) == Ok(Black)
  {
  }

  /** A two-character string is a byte in base 16 exactly when it is two
      hexadecimal digits, or `+` and one digit. */
  lemma TwoCharHexByte(c1: char, c2: char)
    ensures ParseHexByte([c1, c2]) ==
      if HexDigit(c1).Some? && HexDigit(c2).Some? then
        Some((HexDigit(c1).value * 16 + HexDigit(c2).value) as u8)
      else if c1 == '+' && HexDigit(c2).Some? then
        Some(HexDigit(c2).value as u8)
      else
        None
  {
    var t := [c1, c2];
    assert t[..1] == [c1] && [c1][..0] == [] && [c2][..0] == [];
    assert HexValue([c1]) == HexDigit(c1);
    assert HexValue([c2]) == HexDigit(c2);
    assert HexValue(t) == if HexDigit(c1).Some? && HexDigit(c2).Some? then
      Some(HexDigit(c1).value * 16 + HexDigit(c2).value) else None;
    if c1 == '+' {
      assert t[1..] == [c2];
    }
  }

  /** When the first seven characters are ASCII, the `#` branch decodes the
      three pairs after the `#`: all three parse, the colour they spell with
      alpha 255; otherwise black. What follows the seventh character is
      ignored. */
  lemma HexBranchAscii(text: string, num: NumberParser)
    requires var s := Normalize(text); StartsWith(s, "#") && |s| >= 7 && IsAscii(s[..7])
    ensures var s := Normalize(text);
      var r, g, b := ParseHexByte(s[1..3]), ParseHexByte(s[3..5]), ParseHexByte(s[5..7]);
      ParseCssColor(text, num) ==
        if r.Some? && g.Some? && b.Some? then Ok(FromRgba8(r.value, g.value, b.value, 255))
        else Ok(Black)
  {
    var s := Normalize(text);
    AsciiSlice(s, 1, 3, 7);
    AsciiSlice(s, 3, 5, 7);
    AsciiSlice(s, 5, 7, 7);
    assert !StartsWith(s, "rgb") by {
      assert s[0] == '#';
    }
  }

  /** The byte two hexadecimal digits spell, most significant first. */
  function DigitPair(hi: char, lo: char): u8 {
    (HexDigit(hi).GetOr(0) * 16 + HexDigit(lo).GetOr(0)) as u8
  }

  /** `#rrggbb` with six hexadecimal digits decodes to those bytes with
      alpha 255, whatever follows. */
  lemma HexDigitsDecode(text: string, num: NumberParser)
    requires var s := Normalize(text);
      StartsWith(s, "#") && |s| >= 7 && forall i :: 1 <= i < 7 ==> HexDigit(s[i]).Some?
    ensures var s := Normalize(text);
      ParseCssColor(text, num) ==
        Ok(FromRgba8(DigitPair(s[1], s[2]), DigitPair(s[3], s[4]), DigitPair(s[5], s[6]), 255))
  {
    var s := Normalize(text);
    assert IsAscii(s[..7]) by {
      forall i | 0 <= i < 7 ensures s[..7][i] as int < 0x80 {
        if i == 0 { assert s[..1] == "#"; }
      }
    }
    assert ParseHexByte(s[1..3]) == Some(DigitPair(s[1], s[2])) by {
      assert s[1..3] == [s[1], s[2]];
      DigitPairParses(s[1], s[2]);
    }
    assert ParseHexByte(s[3..5]) == Some(DigitPair(s[3], s[4])) by {
      assert s[3..5] == [s[3], s[4]];
      DigitPairParses(s[3], s[4]);
    }
    assert ParseHexByte(s[5..7]) == Some(DigitPair(s[5], s[6])) by {
      assert s[5..7] == [s[5], s[6]];
      DigitPairParses(s[5], s[6]);
    }
    HexBranchAscii(text, num);
  }

  lemma DigitPairParses(hi: char, lo: char)
    requires HexDigit(hi).Some? && HexDigit(lo).Some?
    ensures ParseHexByte([hi, lo]) == Some(DigitPair(hi, lo))
  {
    TwoCharHexByte(hi, lo);
  }

  /** An ASCII `#` string shorter than seven characters never yields a
      colour: the slice past its end panics unless an earlier pair already
      failed to parse, which gives black. */
  lemma HexBranchShortAscii(text: string, num: NumberParser)
    requires var s := Normalize(text); StartsWith(s, "#") && |s| < 7 && IsAscii(s)
    ensures var s := Normalize(text);
      ParseCssColor(text, num) ==
        if |s| < 3 || (ParseHexByte(s[1..3]).Some? && (|s| < 5 || ParseHexByte(s[3..5]).Some?))
        then Err(SliceOutOfBounds)
        else Ok(Black)
  {
    var s := Normalize(text);
    assert s[..|s|] == s;
    assert !StartsWith(s, "rgb") by {
      assert s[0] == '#';
    }
    if |s| < 3 {
      AsciiSlicePastEnd(s, 1, 3);
    } else {
      AsciiSlice(s, 1, 3, |s|);
      if |s| < 5 {
        AsciiSlicePastEnd(s, 3, 5);
      } else {
        AsciiSlice(s, 3, 5, |s|);
        AsciiSlicePastEnd(s, 5, 7);
      }
    }
  }

  /** An `rgb` string with fewer than three fields gives opaque black. */
  lemma RgbTooFewFieldsIsBlack(text: string, num: NumberParser)
    requires var s := Normalize(text); StartsWith(s, "rgb") && |RgbFields(s)| < 3
    ensures ParseCssColor(text, num) == Ok(Black)
  {
    var s := Normalize(text);
    assert s[0] == "rgb"[0];
  }

  /** The `rgb` branch with at least three fields: the parser returns the
      premultiplied colour of the fields, and panics exactly when one of its
      channels falls outside [0, 1]. */
  lemma RgbBranch(text: string, num: NumberParser)
    requires var s := Normalize(text); StartsWith(s, "rgb") && |RgbFields(s)| >= 3
    ensures var c := FieldsColor(RgbFields(Normalize(text)), num);
      ParseCssColor(text, num) == if IsNormalized(c) then Ok(c) else Err(InvalidColor)
  {
    var v := RgbFields(Normalize(text));
    assert ParseCssColor(text, num) == RgbColor(v, num);
  }

  /** With channels on the 0..255 scale and alpha in [0, 1] the colour of
      the fields is in range and premultiplied: each colour channel is at
      most alpha, and is the channel's fraction of alpha. */
  lemma FieldsColorPremultiplied(values: seq<string>, num: NumberParser)
    requires |values| >= 3
    requires forall k :: 0 <= k < 3 ==> 0.0 <= num(values[k]).GetOr(0.0) <= 255.0
    requires |values| == 4 ==> InUnitRange(num(values[3]).GetOr(1.0))
    ensures var c := FieldsColor(values, num);
      IsNormalized(c) && c.r <= c.a && c.g <= c.a && c.b <= c.a
      && c.r * 255.0 == num(values[0]).GetOr(0.0) * c.a
      && c.g * 255.0 == num(values[1]).GetOr(0.0) * c.a
      && c.b * 255.0 == num(values[2]).GetOr(0.0) * c.a
  {
    var red, green, blue := num(values[0]).GetOr(0.0), num(values[1]).GetOr(0.0), num(values[2]).GetOr(0.0);
    var alpha := if |values| == 4 then num(values[3]).GetOr(1.0) else 1.0;
    assert 0.0 <= red <= 255.0 && 0.0 <= green <= 255.0 && 0.0 <= blue <= 255.0 by {
      var k0, k1, k2 := 0, 1, 2;
      assert values[k0] == values[0] && values[k1] == values[1] && values[k2] == values[2];
    }
    var c := FieldsColor(values, num);
    assert c == Color(red / 255.0 * alpha, green / 255.0 * alpha, blue / 255.0 * alpha, alpha);
    ScaledChannel(red, alpha, c.r);
    ScaledChannel(green, alpha, c.g);
    ScaledChannel(blue, alpha, c.b);
  }

  /** In that case the `rgb` branch never panics: the parser returns the
      premultiplied colour of the fields, with no channel above alpha. */
  lemma RgbPremultiplied(text: string, num: NumberParser)
    requires var s := Normalize(text); StartsWith(s, "rgb") && |RgbFields(s)| >= 3
    requires var v := RgbFields(Normalize(text));
      (forall k :: 0 <= k < 3 ==> 0.0 <= num(v[k]).GetOr(0.0) <= 255.0)
      && (|v| == 4 ==> InUnitRange(num(v[3]).GetOr(1.0)))
    ensures var c := FieldsColor(RgbFields(Normalize(text)), num);
      ParseCssColor(text, num) == Ok(c) && c.r <= c.a && c.g <= c.a && c.b <= c.a
  {
    FieldsColorPremultiplied(RgbFields(Normalize(text)), num);
    RgbBranch(text, num);
  }

  /** A channel on the 0..255 scale, premultiplied by `alpha`, lies between 0
      and `alpha` and is the channel's fraction of `alpha`. */
  lemma ScaledChannel(x: real, alpha: real, y: real)
    requires 0.0 <= x <= 255.0 && 0.0 <= alpha <= 1.0
    requires y == x / 255.0 * alpha
    ensures 0.0 <= y <= alpha
    ensures y * 255.0 == x * alpha
  {
    var f := x / 255.0;
    assert 0.0 <= f <= 1.0;
    assert y == f * alpha;
    assert 0.0 * alpha <= f * alpha <= 1.0 * alpha;
  }

  /** Without exactly four fields alpha is 1, so the premultiplied colour is
      the straight one: each channel is its field divided by 255. */
  lemma RgbOpaqueIsStraight(text: string, num: NumberParser)
    requires var s := Normalize(text); StartsWith(s, "rgb") && |RgbFields(s)| >= 3
    requires |RgbFields(Normalize(text))| != 4
    requires var v := RgbFields(Normalize(text));
      forall k :: 0 <= k < 3 ==> 0.0 <= num(v[k]).GetOr(0.0) <= 255.0
    ensures var v := RgbFields(Normalize(text));
      ParseCssColor(text, num) ==
        Ok(Color(num(v[0]).GetOr(0.0) / 255.0, num(v[1]).GetOr(0.0) / 255.0, num(v[2]).GetOr(0.0) / 255.0, 1.0))
  {
    FieldsOpaque(RgbFields(Normalize(text)), num);
    RgbBranch(text, num);
  }

  lemma FieldsOpaque(values: seq<string>, num: NumberParser)
    requires |values| >= 3 && |values| != 4
    requires forall k :: 0 <= k < 3 ==> 0.0 <= num(values[k]).GetOr(0.0) <= 255.0
    ensures var c := FieldsColor(values, num);
      IsNormalized(c)
      && c == Color(num(values[0]).GetOr(0.0) / 255.0, num(values[1]).GetOr(0.0) / 255.0, num(values[2]).GetOr(0.0) / 255.0, 1.0)
  {
    FieldsColorPremultiplied(values, num);
  }
}
