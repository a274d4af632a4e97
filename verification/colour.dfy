/**
 * The `hex` command (mothy_commands/src/utility/colour.rs): colour codes
 * are split out of the argument, each is normalised to eight hex digits
 * and read as RGBA, and the reply lists the readings. Strings are modelled
 * as sequences of characters.
 */
module Colour {
  import opened Wrappers
  import opened Ints
  import opened Text

  datatype Rgba = Rgba(r: u8, g: u8, b: u8, a: u8)

  /** `ParseIntError` from `u8::from_str_radix`. */
  datatype ParseError = InvalidDigit

  // ---------------------------------------------------------------- hex digits

  predicate IsHexDigit(c: char)
  {
    ('0' <= c <= '9') || ('a' <= c <= 'f') || ('A' <= c <= 'F')
  }

  function HexValue(c: char): (v: nat)
    requires IsHexDigit(c)
    ensures v < 16
  {
    if '0' <= c <= '9' then (c as int) - ('0' as int)
    else if 'a' <= c <= 'f' then (c as int) - ('a' as int) + 10
    else (c as int) - ('A' as int) + 10
  }

  /** The upper-case digit for `v`. */
  function HexDigit(v: nat): (c: char)
    requires v < 16
    ensures IsHexDigit(c) && HexValue(c) == v
  {
    "0123456789ABCDEF"[v]
  }

  /**
   * `u8::from_str_radix` with radix 16 on the two-character slice `[hi, lo]`:
   * two hex digits of either case, or a '+' sign and one digit. Two digits
   * never overflow a byte.
   */
  function ParseHexU8(hi: char, lo: char): (r: Result<u8, ParseError>)
    ensures r.Ok? <==> (IsHexDigit(hi) || hi == '+') && IsHexDigit(lo)
    ensures r.Ok? && IsHexDigit(hi) ==> r.value == 16 * HexValue(hi) + HexValue(lo)
    ensures r.Ok? && hi == '+' ==> r.value == HexValue(lo)
  {
    if hi == '+' && IsHexDigit(lo) then Ok(HexValue(lo))
    else if IsHexDigit(hi) && IsHexDigit(lo) then Ok(16 * HexValue(hi) + HexValue(lo))
    else Err(InvalidDigit)
  }

  /** The two upper-case digits of a byte. */
  function ByteHex(b: u8): (s: string)
    ensures |s| == 2 && IsHexDigit(s[0]) && IsHexDigit(s[1])
  {
    [HexDigit(b / 16), HexDigit(b % 16)]
  }

  /** Reading a byte's two digits gives the byte back. */
  lemma ByteHexRoundTrip(b: u8)
    ensures ParseHexU8(ByteHex(b)[0], ByteHex(b)[1]) == Ok(b)
  {
  }

  // ---------------------------------------------------------------- hex_to_rgba

  /** The first "#", then the first "0x", wherever they are, are deleted. */
  function StripPrefixes(s: string): string
  {
    RemoveFirst(RemoveFirst(s, "#"), "0x")
  }

  /** Every character written twice: "FC0" becomes "FFCC00". */
  function Doubled(s: string): string
    decreases |s|
  {
    if |s| == 0 then [] else [s[0], s[0]] + Doubled(s[1..])
  }

  /** Character `i` of the doubled string is character `i / 2` of the original. */
  lemma {:induction false} DoubledSpec(s: string)
    ensures |Doubled(s)| == 2 * |s|
    ensures forall i :: 0 <= i < |Doubled(s)| ==> Doubled(s)[i] == s[i / 2]
    decreases |s|
  {
    if |s| > 0 {
      DoubledSpec(s[1..]);
    }
  }

  /** Longer than eight: the first eight; three or four: the shorthand doubled; else unchanged. */
  function Trimmed(h: string): string
  {
    if |h| > 8 then h[..8]
    else if |h| == 3 || |h| == 4 then Doubled(h)
    else h
  }

  /** `format!("{t:0<6}FF")` when shorter than eight: right-padded with '0' to six, then an opaque alpha. */
  function Normalized(t: string): (n: string)
    ensures |n| >= 8
  {
    if |t| >= 8 then t
    else if |t| == 7 then t + "FF"
    else t + seq(6 - |t|, _ => '0') + "FF"
  }

  /**
   * Normalisation keeps eight or more digits as they are, pads up to six
   * digits with '0' and an "FF" alpha, and appends "FF" to seven.
   */
  lemma NormalizedShape(t: string)
    ensures |t| >= 8 ==> Normalized(t) == t
    ensures |t| <= 6 ==> |Normalized(t)| == 8 && Normalized(t)[..|t|] == t && Normalized(t)[6..] == "FF"
                         && forall i :: |t| <= i < 6 ==> Normalized(t)[i] == '0'
    ensures |t| == 7 ==> Normalized(t) == t + "FF"
  {
  }

  /** The four components read from the first eight normalised characters, two per component. */
  function FromNormalized(n: string): Result<Rgba, ParseError>
    requires |n| >= 8
  {
    match (ParseHexU8(n[0], n[1]), ParseHexU8(n[2], n[3]), ParseHexU8(n[4], n[5]), ParseHexU8(n[6], n[7]))
    case (Err(e), _, _, _) => Err(e)
    case (Ok(_), Err(e), _, _) => Err(e)
    case (Ok(_), Ok(_), Err(e), _) => Err(e)
    case (Ok(_), Ok(_), Ok(_), Err(e)) => Err(e)
    case (Ok(r), Ok(g), Ok(b), Ok(a)) => Ok(Rgba(r, g, b, a))
  }

  /** Four pairs that read as the components of `c` give `c`. */
  lemma FromPairs(n: string, c: Rgba)
    requires |n| >= 8
    requires ParseHexU8(n[0], n[1]) == Ok(c.r) && ParseHexU8(n[2], n[3]) == Ok(c.g)
    requires ParseHexU8(n[4], n[5]) == Ok(c.b) && ParseHexU8(n[6], n[7]) == Ok(c.a)
    ensures FromNormalized(n) == Ok(c)
  {
  }

  /**
   * `hex_to_rgba`: the prefixes are stripped, the digits trimmed or
   * expanded and padded, and the four pairs read; the first bad pair is the
   * error.
   */
  function HexToRgba(hex: string): (r: Result<Rgba, ParseError>)
    ensures var n := Normalized(Trimmed(StripPrefixes(hex)));
            r.Ok? <==> forall i :: 0 <= i < 8 ==> Accepted(n, i)
    ensures var n := Normalized(Trimmed(StripPrefixes(hex)));
            r.Ok? && (forall i :: 0 <= i < 8 ==> IsHexDigit(n[i])) ==>
              r.value == Rgba(16 * HexValue(n[0]) + HexValue(n[1]), 16 * HexValue(n[2]) + HexValue(n[3]),
                              16 * HexValue(n[4]) + HexValue(n[5]), 16 * HexValue(n[6]) + HexValue(n[7]))
  {
    var n := Normalized(Trimmed(StripPrefixes(hex)));
    AcceptedPairs(n);
    FromNormalized(n)
  }

  /**
   * What `from_str_radix` accepts at position `i` of a normalised code: a
   * hex digit, or a '+' at the head of a pair.
   */
  predicate Accepted(n: string, i: nat)
    requires i < |n|
  {
    IsHexDigit(n[i]) || (i % 2 == 0 && n[i] == '+')
  }

  /** The four pairs read exactly when every one of the first eight characters is accepted. */
  lemma AcceptedPairs(n: string)
    requires |n| >= 8
    ensures FromNormalized(n).Ok? <==> forall i :: 0 <= i < 8 ==> Accepted(n, i)
  {
    if FromNormalized(n).Ok? {
      forall i | 0 <= i < 8
        ensures Accepted(n, i)
      {
        assert ParseHexU8(n[i / 2 * 2], n[i / 2 * 2 + 1]).Ok?;
      }
    } else {
      assert !(Accepted(n, 0) && Accepted(n, 1) && Accepted(n, 2) && Accepted(n, 3)
               && Accepted(n, 4) && Accepted(n, 5) && Accepted(n, 6) && Accepted(n, 7));
    }
  }

  /** `HexToRgba` reads whatever normalisation produces. */
  lemma HexToRgbaVia(hex: string, n: string)
    requires Normalized(Trimmed(StripPrefixes(hex))) == n
    ensures HexToRgba(hex) == FromNormalized(n)
  {
  }

  /** The eight upper-case digits `RRGGBBAA` of a colour. */
  function RgbaHex(c: Rgba): (s: string)
    ensures |s| == 8 && forall i :: 0 <= i < 8 ==> IsHexDigit(s[i])
  {
    ByteHex(c.r) + ByteHex(c.g) + ByteHex(c.b) + ByteHex(c.a)
  }

  /** A string of hex digits has nothing for `StripPrefixes` to delete. */
  lemma StripHexDigits(s: string)
    requires forall i :: 0 <= i < |s| ==> IsHexDigit(s[i])
    ensures StripPrefixes(s) == s
  {
    RemoveFirstAbsent(s, "#", '#');
    RemoveFirstAbsent(s, "0x", 'x');
  }

  /** Eight digits read back as the colour that printed them. */
  lemma HexRoundTrip(c: Rgba)
    ensures HexToRgba(RgbaHex(c)) == Ok(c)
  {
    var s := RgbaHex(c);
    StripHexDigits(s);
    assert s[0..2] == ByteHex(c.r) && s[2..4] == ByteHex(c.g) && s[4..6] == ByteHex(c.b) && s[6..8] == ByteHex(c.a);
    assert s[0] == ByteHex(c.r)[0] && s[1] == ByteHex(c.r)[1] && s[2] == ByteHex(c.g)[0] && s[3] == ByteHex(c.g)[1];
    assert s[4] == ByteHex(c.b)[0] && s[5] == ByteHex(c.b)[1] && s[6] == ByteHex(c.a)[0] && s[7] == ByteHex(c.a)[1];
    ByteHexRoundTrip(c.r);
    ByteHexRoundTrip(c.g);
    ByteHexRoundTrip(c.b);
    ByteHexRoundTrip(c.a);
    FromPairs(s, c);
  }

  /** A leading '#' in front of hex digits is accepted and ignored. */
  lemma HashIgnored(s: string)
    requires forall i :: 0 <= i < |s| ==> IsHexDigit(s[i])
    ensures HexToRgba("#" + s) == HexToRgba(s)
  {
    RemoveFirstLeading("#", s);
    RemoveFirstAbsent(s, "0x", 'x');
    StripHexDigits(s);
  }

  /** A leading '#' is accepted and ignored. */
  lemma HexRoundTripWithHash(c: Rgba)
    ensures HexToRgba("#" + RgbaHex(c)) == Ok(c)
  {
    HashIgnored(RgbaHex(c));
    HexRoundTrip(c);
  }

  /** Any eight hex digits, of either case, read as their four pairs. */
  lemma HexEightDigits(s: string)
    requires |s| == 8 && forall i :: 0 <= i < 8 ==> IsHexDigit(s[i])
    ensures HexToRgba(s) == Ok(Rgba(16 * HexValue(s[0]) + HexValue(s[1]), 16 * HexValue(s[2]) + HexValue(s[3]),
                                    16 * HexValue(s[4]) + HexValue(s[5]), 16 * HexValue(s[6]) + HexValue(s[7])))
  {
    StripHexDigits(s);
    FromPairs(s, Rgba(16 * HexValue(s[0]) + HexValue(s[1]), 16 * HexValue(s[2]) + HexValue(s[3]),
                      16 * HexValue(s[4]) + HexValue(s[5]), 16 * HexValue(s[6]) + HexValue(s[7])));
  }

  /** Any six hex digits, of either case, read as their three pairs with an opaque alpha. */
  lemma HexSixDigits(s: string)
    requires |s| == 6 && forall i :: 0 <= i < 6 ==> IsHexDigit(s[i])
    ensures HexToRgba(s) == Ok(Rgba(16 * HexValue(s[0]) + HexValue(s[1]), 16 * HexValue(s[2]) + HexValue(s[3]),
                                    16 * HexValue(s[4]) + HexValue(s[5]), 255))
  {
    StripHexDigits(s);
    var n := Normalized(s);
    NormalizedShape(s);
    assert n[..6] == s && n[6..] == "FF";
    assert n[0] == s[0] && n[1] == s[1] && n[2] == s[2] && n[3] == s[3] && n[4] == s[4] && n[5] == s[5];
    assert n[6] == 'F' && n[7] == 'F';
    FromPairs(n, Rgba(16 * HexValue(s[0]) + HexValue(s[1]), 16 * HexValue(s[2]) + HexValue(s[3]),
                      16 * HexValue(s[4]) + HexValue(s[5]), 255));
  }

  /** Lower-case digits are read too: "ff8000" is opaque orange. */
  lemma HexLowerCaseOrange()
    ensures HexToRgba("ff8000") == Ok(Rgba(255, 128, 0, 255))
  {
    var lower := "ff8000";
    assert lower[0] == 'f' && lower[1] == 'f' && lower[2] == '8' && lower[3] == '0' && lower[4] == '0' && lower[5] == '0';
    assert HexValue('f') == 15 && HexValue('8') == 8 && HexValue('0') == 0;
    HexSixDigits(lower);
  }

  /** Six digits `RRGGBB` give that colour, fully opaque. */
  lemma HexSixDigitsOpaque(r: u8, g: u8, b: u8)
    ensures HexToRgba(ByteHex(r) + ByteHex(g) + ByteHex(b)) == Ok(Rgba(r, g, b, 255))
  {
    var s := ByteHex(r) + ByteHex(g) + ByteHex(b);
    StripHexDigits(s);
    var n := Normalized(s);
    assert n == s + "FF";
    assert n[0] == ByteHex(r)[0] && n[1] == ByteHex(r)[1] && n[2] == ByteHex(g)[0] && n[3] == ByteHex(g)[1];
    assert n[4] == ByteHex(b)[0] && n[5] == ByteHex(b)[1] && n[6] == 'F' && n[7] == 'F';
    ByteHexRoundTrip(r);
    ByteHexRoundTrip(g);
    ByteHexRoundTrip(b);
    FromPairs(n, Rgba(r, g, b, 255));
  }

  /** Normalisation doubles a three-digit shorthand and appends an opaque alpha. */
  lemma ShorthandNormalized(x: char, y: char, z: char)
    requires IsHexDigit(x) && IsHexDigit(y) && IsHexDigit(z)
    ensures Normalized(Trimmed(StripPrefixes([x, y, z]))) == [x, x, y, y, z, z] + "FF"
  {
    StripHexDigits([x, y, z]);
    DoubledSpec([x, y, z]);
    assert Doubled([x, y, z]) == [x, x, y, y, z, z];
  }

  /** Normalisation doubles a four-digit shorthand. */
  lemma ShorthandAlphaNormalized(x: char, y: char, z: char, w: char)
    requires IsHexDigit(x) && IsHexDigit(y) && IsHexDigit(z) && IsHexDigit(w)
    ensures Normalized(Trimmed(StripPrefixes([x, y, z, w]))) == [x, x, y, y, z, z, w, w]
  {
    StripHexDigits([x, y, z, w]);
    DoubledSpec([x, y, z, w]);
    assert Doubled([x, y, z, w]) == [x, x, y, y, z, z, w, w];
  }

  /** Doubled digits read as seventeen times the digit. */
  lemma ReadDoubled(n: string, x: char, y: char, z: char, w: char)
    requires IsHexDigit(x) && IsHexDigit(y) && IsHexDigit(z) && IsHexDigit(w)
    requires n == [x, x, y, y, z, z, w, w]
    ensures FromNormalized(n) == Ok(Rgba(17 * HexValue(x), 17 * HexValue(y), 17 * HexValue(z), 17 * HexValue(w)))
  {
    FromPairs(n, Rgba(17 * HexValue(x), 17 * HexValue(y), 17 * HexValue(z), 17 * HexValue(w)));
  }

  /** The shorthand "xyz" stands for "xxyyzz": each digit counts seventeen times, alpha is opaque. */
  lemma HexShorthand(x: char, y: char, z: char)
    requires IsHexDigit(x) && IsHexDigit(y) && IsHexDigit(z)
    ensures HexToRgba([x, y, z]) == Ok(Rgba(17 * HexValue(x), 17 * HexValue(y), 17 * HexValue(z), 255))
  {
    ShorthandNormalized(x, y, z);
    HexToRgbaVia([x, y, z], [x, x, y, y, z, z] + "FF");
    assert [x, x, y, y, z, z] + "FF" == [x, x, y, y, z, z, 'F', 'F'];
    ReadDoubled([x, x, y, y, z, z] + "FF", x, y, z, 'F');
  }

  /** The shorthand "xyzw" stands for "xxyyzzww". */
  lemma HexShorthandAlpha(x: char, y: char, z: char, w: char)
    requires IsHexDigit(x) && IsHexDigit(y) && IsHexDigit(z) && IsHexDigit(w)
    ensures HexToRgba([x, y, z, w]) == Ok(Rgba(17 * HexValue(x), 17 * HexValue(y), 17 * HexValue(z), 17 * HexValue(w)))
  {
    ShorthandAlphaNormalized(x, y, z, w);
    HexToRgbaVia([x, y, z, w], [x, x, y, y, z, z, w, w]);
    ReadDoubled([x, x, y, y, z, z, w, w], x, y, z, w);
  }

  /** Seven digits: the seventh and an 'F' from the padding make up the alpha pair. */
  lemma HexSevenDigits(s: string)
    requires |s| == 7 && forall i :: 0 <= i < 7 ==> IsHexDigit(s[i])
    ensures HexToRgba(s).Ok?
    ensures HexToRgba(s).value.a == 16 * HexValue(s[6]) + 15
  {
    StripHexDigits(s);
    var n := s + "FF";
    HexToRgbaVia(s, n);
    assert n[6] == s[6] && n[7] == 'F';
    FromPairs(n, Rgba(16 * HexValue(s[0]) + HexValue(s[1]), 16 * HexValue(s[2]) + HexValue(s[3]),
                      16 * HexValue(s[4]) + HexValue(s[5]), 16 * HexValue(s[6]) + 15));
  }

  /** Nothing left after stripping reads as opaque black: "#" and "0x" are valid colours. */
  lemma HexEmptyIsOpaqueBlack()
    ensures HexToRgba("#") == Ok(Rgba(0, 0, 0, 255))
    ensures HexToRgba("0x") == Ok(Rgba(0, 0, 0, 255))
  {
    RemoveFirstLeading("#", "");
    RemoveFirstLeading("0x", "");
    RemoveFirstAbsent("0x", "#", '#');
    var n := Normalized("");
    assert n == "000000FF";
    FromPairs(n, Rgba(0, 0, 0, 255));
  }
}

/** The `hex` command of the same file: it splits out the codes and replies with their readings. */
module HexCommand {
  import opened Wrappers
  import opened Text
  import opened Colour

  /** The colour codes of the argument: the non-empty pieces between spaces and commas. */
  function ColourCodes(s: string): (r: seq<string>)
    ensures forall i :: 0 <= i < |r| ==> |r[i]| > 0
  {
    NonEmpty(Split(s, {' ', ','}))
  }

  function NonEmpty(parts: seq<string>): (r: seq<string>)
    ensures forall i :: 0 <= i < |r| ==> |r[i]| > 0 && r[i] in parts
    ensures Concat(r) == Concat(parts)
    decreases |parts|
  {
    if |parts| == 0 then []
    else
      var rest := NonEmpty(parts[1..]);
      assert Concat(parts) == parts[0] + Concat(parts[1..]);
      if |parts[0]| == 0 then rest else [parts[0]] + rest
  }

  /** Dropping the empty pieces of two lists drops them from each. */
  lemma {:induction false} NonEmptyAppend(a: seq<string>, b: seq<string>)
    ensures NonEmpty(a + b) == NonEmpty(a) + NonEmpty(b)
    decreases |a|
  {
    if |a| == 0 {
      assert a + b == b;
    } else {
      assert (a + b)[0] == a[0] && (a + b)[1..] == a[1..] + b;
      NonEmptyAppend(a[1..], b);
    }
  }

  /** A space or a comma separates the codes before it from the codes after it. */
  lemma ColourCodesAppend(a: string, c: char, b: string)
    requires c == ' ' || c == ','
    ensures ColourCodes(a + [c] + b) == ColourCodes(a) + ColourCodes(b)
  {
    SplitAtSeparator(a, c, b, {' ', ','});
    NonEmptyAppend(Split(a, {' ', ','}), Split(b, {' ', ','}));
  }

  /** A non-empty word without spaces or commas is one code. */
  lemma ColourCodesWord(w: string)
    requires |w| > 0 && FreeOf(w, {' ', ','})
    ensures ColourCodes(w) == [w]
  {
    SplitNone(w, {' ', ','});
    assert NonEmpty([w]) == [w] + NonEmpty([]);
  }

  /** An argument of spaces and commas only holds no code. */
  lemma {:induction false} ColourCodesBlank(s: string)
    requires forall i :: 0 <= i < |s| ==> s[i] == ' ' || s[i] == ','
    ensures ColourCodes(s) == []
    decreases |s|
  {
    if |s| > 0 {
      assert s == [] + [s[0]] + s[1..];
      ColourCodesAppend([], s[0], s[1..]);
      ColourCodesBlank(s[1..]);
      SplitNone([], {' ', ','});
      assert NonEmpty([""]) == [];
    }
  }

  /** The codes, run together, are the argument with its separators removed: nothing else is lost. */
  lemma ColourCodesKeepText(s: string)
    ensures Concat(ColourCodes(s)) == RemoveChars(s, {' ', ','})
  {
    SplitConcat(s, {' ', ','});
  }

  /** No code contains a separator. */
  lemma ColourCodesHaveNoSeparators(s: string, i: nat, c: char)
    requires i < |ColourCodes(s)| && c in ColourCodes(s)[i]
    ensures c != ' ' && c != ','
  {
    var parts := Split(s, {' ', ','});
    var k :| 0 <= k < |parts| && parts[k] == ColourCodes(s)[i];
    SplitPiecesFree(s, {' ', ','}, k, c);
  }

  /** `"#{code} = rgba({r}, {g}, {b}, {a})"`: the four components in decimal, joined with ", ". */
  function RgbaLine(code: string, c: Rgba): string
  {
    "#" + code + " = rgba(" + NatToString(c.r) + ", " + NatToString(c.g) + ", " + NatToString(c.b)
      + ", " + NatToString(c.a) + ")"
  }

  /** `read` applied to each code, in order. */
  function Readings(codes: seq<string>, read: string -> Result<Rgba, ParseError>): (r: seq<Result<Rgba, ParseError>>)
    ensures |r| == |codes|
    ensures forall i :: 0 <= i < |codes| ==> r[i] == read(codes[i])
  {
    seq(|codes|, i requires 0 <= i < |codes| => read(codes[i]))
  }

  /** The index of the first failed reading at or after `from`. */
  function FirstError(rs: seq<Result<Rgba, ParseError>>, from: nat): (r: Option<nat>)
    requires from <= |rs|
    ensures r.Some? ==> from <= r.value < |rs| && rs[r.value].Err?
    ensures r.Some? ==> forall j :: from <= j < r.value ==> rs[j].Ok?
    ensures r.None? ==> forall j :: from <= j < |rs| ==> rs[j].Ok?
    decreases |rs| - from
  {
    if from == |rs| then None
    else if rs[from].Err? then Some(from)
    else FirstError(rs, from + 1)
  }

  /** The reply line of a code whose reading succeeded. */
  function LineFor(code: string, reading: Result<Rgba, ParseError>): string
  {
    match reading
    case Ok(c) => RgbaLine(code, c)
    case Err(_) => ""
  }

  /** The reply lines of the codes, in order. */
  function Lines(codes: seq<string>, rs: seq<Result<Rgba, ParseError>>): (r: seq<string>)
    requires |rs| == |codes|
    ensures |r| == |codes|
    decreases |codes|
  {
    if |codes| == 0 then []
    else Lines(codes[..|codes| - 1], rs[..|rs| - 1]) + [LineFor(codes[|codes| - 1], rs[|rs| - 1])]
  }

  /** Line `i` of the reply shows code `i` and its reading. */
  lemma {:induction false} LinesAt(codes: seq<string>, rs: seq<Result<Rgba, ParseError>>, i: nat)
    requires |rs| == |codes| && i < |codes| && rs[i].Ok?
    ensures Lines(codes, rs)[i] == RgbaLine(codes[i], rs[i].value)
    decreases |codes|
  {
    if i < |codes| - 1 {
      LinesAt(codes[..|codes| - 1], rs[..|rs| - 1], i);
    }
  }

  /** The lines of one more code extend the lines of the codes before it. */
  lemma LinesSnoc(codes: seq<string>, rs: seq<Result<Rgba, ParseError>>, i: nat)
    requires |rs| == |codes| && i < |codes|
    ensures Lines(codes[..i + 1], rs[..i + 1]) == Lines(codes[..i], rs[..i]) + [LineFor(codes[i], rs[i])]
  {
    assert codes[..i + 1][..i] == codes[..i];
    assert rs[..i + 1][..i] == rs[..i];
  }

  /**
   * The reply's text and whether it carries the combined colour image; or
   * the panic of `unwrap` when the PNG encoder refuses the image, which it
   * does for an image of width zero, that is, when there is no code.
   */
  datatype Reply = Reply(content: string, withImage: bool) | EmptyImagePanic

  /**
   * The loop of `hex`, with `hex_to_rgba` passed as `read`: the codes are
   * read in order; the first that does not parse ends the command with
   * "Could not parse colour: <code>" and no image; otherwise the reply
   * lists every reading, comma-separated, with the combined image, which
   * cannot be encoded when there are no codes at all.
   */
  method ReplyFor(codes: seq<string>, read: string -> Result<Rgba, ParseError>) returns (reply: Reply)
    ensures var rs := Readings(codes, read);
            && (FirstError(rs, 0).Some?
                ==> reply == Reply("Could not parse colour: " + codes[FirstError(rs, 0).value], false))
            && (FirstError(rs, 0).None? && |codes| > 0 ==> reply == Reply(Join(Lines(codes, rs), ", "), true))
            && (|codes| == 0 ==> reply == EmptyImagePanic)
  {
    ghost var rs := Readings(codes, read);
    var lines: seq<string> := [];
    var i := 0;
    while i < |codes|
      invariant 0 <= i <= |codes|
      invariant FirstError(rs, 0) == FirstError(rs, i)
      invariant lines == Lines(codes[..i], rs[..i])
    {
      var parsed := read(codes[i]);
      assert parsed == rs[i];
      if parsed.Err? {
        return Reply("Could not parse colour: " + codes[i], false);
      }
      LinesSnoc(codes, rs, i);
      lines := lines + [RgbaLine(codes[i], parsed.value)];
      i := i + 1;
    }
    if |codes| == 0 {
      return EmptyImagePanic;
    }
    assert codes[..|codes|] == codes && rs[..|rs|] == rs;
    reply := Reply(Join(lines, ", "), true);
  }

  /** `hex`: the reply for the colour codes of the argument, each read by `hex_to_rgba`. */
  method Hex(colours: string) returns (reply: Reply)
    ensures var codes := ColourCodes(colours);
            var rs := Readings(codes, HexToRgba);
            && (FirstError(rs, 0).Some?
                ==> reply == Reply("Could not parse colour: " + codes[FirstError(rs, 0).value], false))
            && (FirstError(rs, 0).None? && |codes| > 0 ==> reply == Reply(Join(Lines(codes, rs), ", "), true))
            && (|codes| == 0 ==> reply == EmptyImagePanic)
  {
    reply := ReplyFor(ColourCodes(colours), HexToRgba);
  }
}
