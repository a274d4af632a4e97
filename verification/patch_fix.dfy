/**
 * The `patch_fix` command (mothy_commands/src/utility/patch_fix.rs): a
 * patch file saved by Windows tools as UTF-16 little-endian is read as
 * 16-bit words, decoded, and sent back without carriage returns.
 */
module PatchFix {
  import opened Wrappers
  import opened Ints
  import opened Text

  /** Attachments larger than this many bytes are refused. */
  const EIGHT_MB: int := 8000000

  /** How `fix_patch` fails: a panic on an odd trailing byte, or a `FromUtf16Error`. */
  datatype FixError = OddLengthPanic | InvalidUtf16

  // ---------------------------------------------------------------- bytes to words

  /** The little-endian words of an even-length byte string. */
  function WordsLe(bytes: seq<u8>): (w: seq<u16>)
    requires |bytes| % 2 == 0
    ensures |w| == |bytes| / 2
    decreases |bytes|
  {
    if |bytes| == 0 then []
    else WordsLe(bytes[..|bytes| - 2]) + [bytes[|bytes| - 2] as int + 256 * bytes[|bytes| - 1] as int]
  }

  /** Word `i` is byte `2i`, the low byte, plus 256 times byte `2i + 1`. */
  lemma {:induction false} WordsLeAt(bytes: seq<u8>, i: nat)
    requires |bytes| % 2 == 0 && i < |bytes| / 2
    ensures WordsLe(bytes)[i] == bytes[2 * i] as int + 256 * bytes[2 * i + 1] as int
    decreases |bytes|
  {
    if i < |bytes| / 2 - 1 {
      WordsLeAt(bytes[..|bytes| - 2], i);
    }
  }

  /** The last two bytes make the last word. */
  lemma WordsLeSnoc(bytes: seq<u8>)
    requires |bytes| >= 2 && |bytes| % 2 == 0
    ensures WordsLe(bytes) == WordsLe(bytes[..|bytes| - 2]) + [bytes[|bytes| - 2] as int + 256 * bytes[|bytes| - 1] as int]
  {
  }

  /** The little-endian bytes of words (`u16::to_le_bytes`, concatenated). */
  function BytesLe(words: seq<u16>): (b: seq<u8>)
    ensures |b| == 2 * |words|
    decreases |words|
  {
    if |words| == 0 then []
    else BytesLe(words[..|words| - 1]) + [words[|words| - 1] % 256, words[|words| - 1] / 256]
  }

  /** Reading words back from their bytes gives the words. */
  lemma {:induction false} WordsOfBytes(words: seq<u16>)
    ensures WordsLe(BytesLe(words)) == words
    decreases |words|
  {
    if |words| > 0 {
      var b := BytesLe(words);
      WordsOfBytes(words[..|words| - 1]);
      assert b[..|b| - 2] == BytesLe(words[..|words| - 1]);
    }
  }

  /** Writing words read from even-length bytes gives the bytes. */
  lemma {:induction false} BytesOfWords(bytes: seq<u8>)
    requires |bytes| % 2 == 0
    ensures BytesLe(WordsLe(bytes)) == bytes
    decreases |bytes|
  {
    if |bytes| > 0 {
      var w := WordsLe(bytes);
      BytesOfWords(bytes[..|bytes| - 2]);
      assert w[..|w| - 1] == WordsLe(bytes[..|bytes| - 2]);
      assert bytes == bytes[..|bytes| - 2] + [bytes[|bytes| - 2], bytes[|bytes| - 1]];
    }
  }

  /**
   * `vec_u8_to_u16_le`: the bytes are cut into chunks of two and each pair
   * becomes a word, low byte first. An odd trailing byte makes `x[1]`
   * index out of bounds, which panics.
   */
  method VecU8ToU16Le(bytes: seq<u8>) returns (r: Result<seq<u16>, FixError>)
    ensures r.Err? <==> |bytes| % 2 == 1
    ensures r.Err? ==> r.error == OddLengthPanic
    ensures r.Ok? ==> r.value == WordsLe(bytes)
  {
    var words: seq<u16> := [];
    var i := 0;
    while i + 1 < |bytes|
      invariant 0 <= i <= |bytes| && i % 2 == 0
      invariant words == WordsLe(bytes[..i])
    {
      assert bytes[..i + 2][..i] == bytes[..i];
      WordsLeSnoc(bytes[..i + 2]);
      words := words + [bytes[i] as int + 256 * bytes[i + 1] as int];
      i := i + 2;
    }
    if i < |bytes| {
      return Err(OddLengthPanic);
    }
    assert bytes[..i] == bytes;
    return Ok(words);
  }

  // ---------------------------------------------------------------- UTF-16

  predicate IsHighSurrogate(w: int)
  {
    0xD800 <= w <= 0xDBFF
  }

  predicate IsLowSurrogate(w: int)
  {
    0xDC00 <= w <= 0xDFFF
  }

  /** The code point of a surrogate pair. */
  function Supplementary(hi: u16, lo: u16): (c: char)
    requires IsHighSurrogate(hi) && IsLowSurrogate(lo)
    ensures 0x10000 <= c as int < 0x110000
  {
    (0x10000 + (hi - 0xD800) * 0x400 + (lo - 0xDC00)) as char
  }

  /**
   * `String::from_utf16`, as section 2.2 of RFC 2781 describes decoding: a
   * word outside the surrogate range is a character; a high surrogate
   * followed by a low one is a supplementary character; any other
   * surrogate makes the input invalid.
   */
  function DecodeUtf16(words: seq<u16>): Option<string>
    decreases |words|
  {
    if |words| == 0 then Some("")
    else if !IsHighSurrogate(words[0]) && !IsLowSurrogate(words[0]) then
      match DecodeUtf16(words[1..])
      case None => None
      case Some(rest) => Some([words[0] as char] + rest)
    else if IsHighSurrogate(words[0]) && |words| >= 2 && IsLowSurrogate(words[1]) then
      match DecodeUtf16(words[2..])
      case None => None
      case Some(rest) => Some([Supplementary(words[0], words[1])] + rest)
    else None
  }

  /** The UTF-16 words of one character (section 2.1 of RFC 2781). */
  function EncodeChar(c: char): (w: seq<u16>)
    ensures 1 <= |w| <= 2
  {
    if (c as int) < 0x10000 then [c as int]
    else
      var v := (c as int) - 0x10000;
      [0xD800 + v / 0x400, 0xDC00 + v % 0x400]
  }

  /** The UTF-16 words of a string. */
  function EncodeUtf16(s: string): seq<u16>
    decreases |s|
  {
    if |s| == 0 then [] else EncodeChar(s[0]) + EncodeUtf16(s[1..])
  }

  /** Decoding undoes encoding: every string survives a UTF-16 round trip. */
  lemma {:induction false} DecodeEncode(s: string)
    ensures DecodeUtf16(EncodeUtf16(s)) == Some(s)
    decreases |s|
  {
    if |s| > 0 {
      DecodeEncode(s[1..]);
      var w := EncodeUtf16(s);
      var e := EncodeChar(s[0]);
      assert w == e + EncodeUtf16(s[1..]);
      if |e| == 1 {
        assert w[1..] == EncodeUtf16(s[1..]);
      } else {
        assert w[2..] == EncodeUtf16(s[1..]);
        assert Supplementary(w[0], w[1]) == s[0];
      }
      assert [s[0]] + s[1..] == s;
    }
  }

  /** Encoding undoes decoding: valid UTF-16 is exactly the encoding of what it decodes to. */
  lemma {:induction false} EncodeDecode(words: seq<u16>)
    requires DecodeUtf16(words).Some?
    ensures EncodeUtf16(DecodeUtf16(words).value) == words
    decreases |words|
  {
    if |words| > 0 {
      var s := DecodeUtf16(words).value;
      if !IsHighSurrogate(words[0]) && !IsLowSurrogate(words[0]) {
        EncodeDecode(words[1..]);
        assert s[1..] == DecodeUtf16(words[1..]).value;
        assert EncodeChar(s[0]) == [words[0]];
        assert words == [words[0]] + words[1..];
      } else {
        EncodeDecode(words[2..]);
        assert s[1..] == DecodeUtf16(words[2..]).value;
        var hi, lo := words[0], words[1];
        var v := (hi as int - 0xD800) * 0x400 + (lo as int - 0xDC00);
        assert v / 0x400 == hi - 0xD800 && v % 0x400 == lo - 0xDC00;
        assert EncodeChar(s[0]) == [hi, lo];
        assert words == [hi, lo] + words[2..];
      }
    }
  }

  // ---------------------------------------------------------------- fix_patch

  /** What `fix_patch` computes from the downloaded bytes. */
  function FixedPatch(bytes: seq<u8>): (r: Result<string, FixError>)
    ensures r.Ok? ==> '\r' !in r.value
  {
    if |bytes| % 2 == 1 then Err(OddLengthPanic)
    else match DecodeUtf16(WordsLe(bytes))
      case None => Err(InvalidUtf16)
      case Some(text) => Ok(ReplaceChar(text, '\r', ""))
  }

  /** `fix_patch`: the words are decoded as UTF-16 and every "\r" is removed. */
  method FixPatch(bytes: seq<u8>) returns (r: Result<string, FixError>)
    ensures r == FixedPatch(bytes)
  {
    var words := VecU8ToU16Le(bytes);
    if words.Err? {
      return Err(words.error);
    }
    var text := DecodeUtf16(words.value);
    if text.None? {
      return Err(InvalidUtf16);
    }
    return Ok(ReplaceChar(text.value, '\r', ""));
  }

  /**
   * A patch saved as UTF-16LE comes back as its text with the carriage
   * returns removed; one without carriage returns comes back unchanged.
   */
  lemma FixUtf16Patch(text: string)
    ensures FixedPatch(BytesLe(EncodeUtf16(text))) == Ok(ReplaceChar(text, '\r', ""))
    ensures '\r' !in text ==> FixedPatch(BytesLe(EncodeUtf16(text))) == Ok(text)
  {
    WordsOfBytes(EncodeUtf16(text));
    DecodeEncode(text);
    if '\r' !in text {
      ReplaceCharAbsent(text, '\r', "");
    }
  }

  /** Only a byte string of even length that is valid UTF-16LE is fixed. */
  lemma FixedPatchOkIff(bytes: seq<u8>)
    ensures FixedPatch(bytes).Ok? <==> |bytes| % 2 == 0 && DecodeUtf16(WordsLe(bytes)).Some?
    ensures FixedPatch(bytes).Ok? ==> bytes == BytesLe(EncodeUtf16(DecodeUtf16(WordsLe(bytes)).value))
  {
    if FixedPatch(bytes).Ok? {
      EncodeDecode(WordsLe(bytes));
      BytesOfWords(bytes);
    }
  }

  // ---------------------------------------------------------------- the command

  /** What the command does: reply with a message, send the fixed file, or fail. */
  datatype Outcome =
    | Replied(content: string)
    | SentFile(filename: string, content: string)
    | DownloadFailed
    | Panicked

  /**
   * `patch_fix`: attachments over eight megabytes are refused before any
   * download; a failed download is returned as the error; an odd-length
   * file panics; a file that is not UTF-16 gets "Could not fix patch";
   * otherwise the fixed text is sent back as "fixed_<name>".
   */
  method PatchFixCommand(size: u32, filename: string, download: Option<seq<u8>>) returns (o: Outcome)
    ensures size > EIGHT_MB ==> o == Replied("Attachment too large")
    ensures size <= EIGHT_MB && download.None? ==> o == DownloadFailed
    ensures size <= EIGHT_MB && download.Some? ==>
              match FixedPatch(download.value)
              case Ok(text) => o == SentFile("fixed_" + filename, text)
              case Err(OddLengthPanic) => o == Panicked
              case Err(InvalidUtf16) => o == Replied("Could not fix patch")
  {
    if size > EIGHT_MB {
      return Replied("Attachment too large");
    }
    if download.None? {
      return DownloadFailed;
    }
    var fixed := FixPatch(download.value);
    match fixed
    case Ok(text) => o := SentFile("fixed_" + filename, text);
    case Err(OddLengthPanic) => o := Panicked;
    case Err(InvalidUtf16) => o := Replied("Could not fix patch");
  }
}
