/**
 * The formatting helpers of the `jamesscore` command
 * (mothy_commands/src/fun/james_score.rs): game version, mod list, date,
 * rank and map length of a stored osu! score.
 */
module JamesScore {
  import opened Wrappers
  import opened Text

  /** One mod of a score, by its acronym ("HD", "DT", "CL", ...). */
  datatype Mod = Mod(acronym: string)

  /** The acronym of the Classic mod, which only scores set on the stable client carry. */
  const CLASSIC: string := "CL"

  predicate HasClassic(mods: seq<Mod>)
  {
    exists i :: 0 <= i < |mods| && mods[i].acronym == CLASSIC
  }

  /** `game_version`: "Stable" when some mod is Classic, otherwise "Lazer". */
  method GameVersion(mods: seq<Mod>) returns (version: string)
    ensures version == "Stable" <==> HasClassic(mods)
    ensures version == "Stable" || version == "Lazer"
  {
    for i := 0 to |mods|
      invariant forall j :: 0 <= j < i ==> mods[j].acronym != CLASSIC
    {
      if mods[i].acronym == CLASSIC {
        return "Stable";
      }
    }
    return "Lazer";
  }

  /** The acronyms of the mods other than Classic, in order. */
  function ShownAcronyms(mods: seq<Mod>): (r: seq<string>)
    ensures |r| <= |mods|
    ensures forall k :: 0 <= k < |r| ==> r[k] != CLASSIC
    decreases |mods|
  {
    if |mods| == 0 then []
    else ShownAcronyms(mods[..|mods| - 1])
           + (if mods[|mods| - 1].acronym == CLASSIC then [] else [mods[|mods| - 1].acronym])
  }

  /** Every acronym other than Classic is shown. */
  lemma {:induction false} ShownAcronymsComplete(mods: seq<Mod>, i: nat)
    requires i < |mods| && mods[i].acronym != CLASSIC
    ensures mods[i].acronym in ShownAcronyms(mods)
    decreases |mods|
  {
    if i < |mods| - 1 {
      ShownAcronymsComplete(mods[..|mods| - 1], i);
    }
  }

  /**
   * `format_mods_string`: "NM" for no mods, or for a stable score whose
   * only mod is Classic; otherwise "+" and the acronyms without Classic.
   */
  method FormatModsString(mods: seq<Mod>, version: string) returns (s: string)
    ensures (|mods| == 0 || (version == "Stable" && |mods| == 1)) ==> s == "NM"
    ensures !(|mods| == 0 || (version == "Stable" && |mods| == 1)) ==> s == "+" + Concat(ShownAcronyms(mods))
  {
    if |mods| == 0 || (version == "Stable" && |mods| == 1) {
      return "NM";
    }
    s := "+";
    for i := 0 to |mods|
      invariant s == "+" + Concat(ShownAcronyms(mods[..i]))
    {
      assert mods[..i + 1][..i] == mods[..i];
      if mods[i].acronym == CLASSIC {
        assert ShownAcronyms(mods[..i + 1]) == ShownAcronyms(mods[..i]);
        continue;
      }
      assert ShownAcronyms(mods[..i + 1]) == ShownAcronyms(mods[..i]) + [mods[i].acronym];
      ConcatAppend(ShownAcronyms(mods[..i]), [mods[i].acronym]);
      assert Concat([mods[i].acronym]) == mods[i].acronym;
      s := s + mods[i].acronym;
    }
    assert mods[..|mods|] == mods;
  }

  function CountClassic(mods: seq<Mod>): nat
    decreases |mods|
  {
    if |mods| == 0 then 0
    else CountClassic(mods[..|mods| - 1]) + (if mods[|mods| - 1].acronym == CLASSIC then 1 else 0)
  }

  /** Without Classic every mod is shown; with exactly one Classic, one fewer. */
  lemma {:induction false} ShownCount(mods: seq<Mod>)
    ensures |ShownAcronyms(mods)| == |mods| - CountClassic(mods)
    ensures CountClassic(mods) == 0 <==> !HasClassic(mods)
    decreases |mods|
  {
    if |mods| > 0 {
      ShownCount(mods[..|mods| - 1]);
      assert forall j :: 0 <= j < |mods| - 1 ==> mods[..|mods| - 1][j] == mods[j];
    }
  }

  /**
   * With the version `game_version` gives, and at most one Classic mod,
   * the mod string is "NM" exactly when there is no mod to show.
   */
  lemma NoModExactlyWhenNothingShown(mods: seq<Mod>, version: string, s: string)
    requires version == (if HasClassic(mods) then "Stable" else "Lazer")
    requires CountClassic(mods) <= 1
    requires (|mods| == 0 || (version == "Stable" && |mods| == 1)) ==> s == "NM"
    requires !(|mods| == 0 || (version == "Stable" && |mods| == 1)) ==> s == "+" + Concat(ShownAcronyms(mods))
    ensures s == "NM" <==> ShownAcronyms(mods) == []
  {
    ShownCount(mods);
    if |mods| == 0 {
    } else if version == "Stable" && |mods| == 1 {
      assert |ShownAcronyms(mods)| == 0;
    } else {
      assert |ShownAcronyms(mods)| > 0;
      assert s[0] == '+';
    }
  }

  // ---------------------------------------------------------------- date and rank

  /** `format_score_date`: "T" becomes a space and "Z" is dropped. */
  function FormatScoreDate(date: string): (r: string)
    ensures 'T' !in r && 'Z' !in r
    ensures |r| <= |date|
  {
    ReplaceCharLength(date, 'T', " ");
    ReplaceCharLength(ReplaceChar(date, 'T', " "), 'Z', "");
    ReplaceChar(ReplaceChar(date, 'T', " "), 'Z', "")
  }

  /** A replacement of one character by at most one character does not lengthen the string. */
  lemma {:induction false} ReplaceCharLength(s: string, c: char, repl: string)
    requires |repl| <= 1
    ensures |ReplaceChar(s, c, repl)| <= |s|
    decreases |s|
  {
    if |s| > 0 {
      ReplaceCharLength(s[1..], c, repl);
      assert s == [s[0]] + s[1..];
      ReplaceCharAppend([s[0]], s[1..], c, repl);
    }
  }

  /** Replacing `c` in `a + [x] + b` touches only `x` when `a` and `b` lack `c`. */
  lemma ReplaceCharAround(a: string, x: char, b: string, c: char, repl: string)
    requires c !in a && c !in b
    ensures ReplaceChar(a + [x] + b, c, repl) == a + ReplaceChar([x], c, repl) + b
  {
    ReplaceCharAppend(a + [x], b, c, repl);
    ReplaceCharAppend(a, [x], c, repl);
    ReplaceCharAbsent(a, c, repl);
    ReplaceCharAbsent(b, c, repl);
  }

  /** An ISO 8601 UTC timestamp "<date>T<time>Z" is shown as "<date> <time>". */
  lemma FormatIsoDate(day: string, time: string)
    requires 'T' !in day && 'Z' !in day && 'T' !in time && 'Z' !in time
    ensures FormatScoreDate(day + "T" + time + "Z") == day + " " + time
  {
    var iso := day + "T" + time + "Z";
    assert iso == day + ['T'] + (time + "Z");
    ReplaceCharAround(day, 'T', time + "Z", 'T', " ");
    assert ReplaceChar(['T'], 'T', " ") == " ";
    var spaced := day + " " + (time + "Z");
    assert ReplaceChar(iso, 'T', " ") == spaced;
    assert spaced == (day + " " + time) + ['Z'] + "";
    ReplaceCharAround(day + " " + time, 'Z', "", 'Z', "");
    assert ReplaceChar(['Z'], 'Z', "") == "";
  }

  /** `format_score_rank`: the "H" (hidden/flashlight silver) marker is dropped and "X" is shown as "SS". */
  function FormatScoreRank(rank: string): (r: string)
    ensures 'H' !in r && 'X' !in r
  {
    ReplaceChar(ReplaceChar(rank, 'H', ""), 'X', "SS")
  }

  /** The silver and gold grades read as the plain letters: "XH" and "X" become "SS", "SH" becomes "S". */
  lemma FormatRanks()
    ensures FormatScoreRank("XH") == "SS" && FormatScoreRank("X") == "SS"
    ensures FormatScoreRank("SH") == "S" && FormatScoreRank("S") == "S"
  {
    assert ReplaceChar("XH", 'H', "") == "X" by {
      ReplaceCharAppend("X", "H", 'H', "");
    }
    assert ReplaceChar("SH", 'H', "") == "S" by {
      ReplaceCharAppend("S", "H", 'H', "");
    }
  }

  /** Any other grade ("A" to "F") is shown unchanged. */
  lemma FormatPlainRank(rank: string)
    requires 'H' !in rank && 'X' !in rank
    ensures FormatScoreRank(rank) == rank
  {
    ReplaceCharAbsent(rank, 'H', "");
    ReplaceCharAbsent(rank, 'X', "SS");
  }

  // ---------------------------------------------------------------- durations

  /** The hours, minutes and seconds of a length in seconds. */
  function DurationParts(d: nat): (r: (nat, nat, nat))
    ensures r.0 * 3600 + r.1 * 60 + r.2 == d
    ensures r.1 < 60 && r.2 < 60
  {
    (d / 3600, (d % 3600) / 60, d % 60)
  }

  /** "m:s" */
  function MinSec(m: nat, s: nat): string
  {
    NatToString(m) + ":" + NatToString(s)
  }

  /** "h:m:s" */
  function HourMinSec(h: nat, m: nat, s: nat): string
  {
    NatToString(h) + ":" + NatToString(m) + ":" + NatToString(s)
  }

  /**
   * `format_duration_secs` as written: hours are shown only for lengths
   * over an hour (`>`). Every length except exactly one hour reads back as
   * itself.
   */
  function FormatDurationSecs(d: nat): (r: string)
    ensures d != 3600 ==> ParseDuration(r) == Some(d)
  {
    var (h, m, s) := DurationParts(d);
    if d > 3600 then ParseHourMinSec(h, m, s); HourMinSec(h, m, s)
    else ParseMinSec(m, s); MinSec(m, s)
  }

  /**
   * The evidently intended `format_duration_secs`: hours are shown from
   * one hour on (`>=`). Every length reads back as itself.
   */
  function FormatDurationSecsFixed(d: nat): (r: string)
    ensures ParseDuration(r) == Some(d)
  {
    var (h, m, s) := DurationParts(d);
    if d >= 3600 then ParseHourMinSec(h, m, s); HourMinSec(h, m, s)
    else ParseMinSec(m, s); MinSec(m, s)
  }

  /** Reads "m:s" or "h:m:s" of decimal numbers back into seconds. */
  function ParseDuration(text: string): Option<nat>
  {
    var parts := Split(text, {':'});
    if |parts| == 2 then
      match (ParseNat(parts[0]), ParseNat(parts[1]))
      case (Some(m), Some(s)) => Some(m * 60 + s)
      case _ => None
    else if |parts| == 3 then
      match (ParseNat(parts[0]), ParseNat(parts[1]), ParseNat(parts[2]))
      case (Some(h), Some(m), Some(s)) => Some(h * 3600 + m * 60 + s)
      case _ => None
    else None
  }

  /** "m:s" reads back as its length in seconds. */
  lemma {:induction false} ParseMinSec(m: nat, s: nat)
    ensures ParseDuration(MinSec(m, s)) == Some(m * 60 + s)
  {
    var x, y := NatToString(m), NatToString(s);
    NatToStringHasNo(m, ':');
    NatToStringHasNo(s, ':');
    SplitTwo(x, y, ':');
    ParseNatToString(m);
    ParseNatToString(s);
  }

  /** "h:m:s" reads back as its length in seconds. */
  lemma {:induction false} ParseHourMinSec(h: nat, m: nat, s: nat)
    ensures ParseDuration(HourMinSec(h, m, s)) == Some(h * 3600 + m * 60 + s)
  {
    var x, y, z := NatToString(h), NatToString(m), NatToString(s);
    NatToStringHasNo(h, ':');
    NatToStringHasNo(m, ':');
    NatToStringHasNo(s, ':');
    SplitThree(x, y, z, ':');
    ParseNatToString(h);
    ParseNatToString(m);
    ParseNatToString(s);
  }

  /** As written, a map exactly one hour long is shown as "0:0", which reads back as no time at all. */
  lemma FormatDurationOneHourShowsZero()
    ensures FormatDurationSecs(3600) == "0:0"
    ensures ParseDuration(FormatDurationSecs(3600)) == Some(0)
    ensures FormatDurationSecsFixed(3600) == "1:0:0"
  {
    ParseMinSec(0, 0);
  }
}
