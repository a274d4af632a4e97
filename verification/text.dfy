/**
 * String operations of Rust's standard library that the source uses,
 * stated over `seq<char>`: `join`, `split`, `replace` of a one-character
 * pattern, `replacen(.., 1)`, `contains`, and decimal formatting of integers.
 */
module Text {
  import opened Wrappers

  /** `parts.join(sep)`. */
  function Join(parts: seq<string>, sep: string): string
  {
    if |parts| == 0 then ""
    else if |parts| == 1 then parts[0]
    else parts[0] + sep + Join(parts[1..], sep)
  }

  /** Joining one more part appends the separator and that part. */
  lemma {:induction false} JoinSnoc(parts: seq<string>, x: string, sep: string)
    requires |parts| > 0
    ensures Join(parts + [x], sep) == Join(parts, sep) + sep + x
  {
    if |parts| == 1 {
      assert parts + [x] == [parts[0], x];
      assert [parts[0], x][1..] == [x];
    } else {
      assert (parts + [x])[1..] == parts[1..] + [x];
      JoinSnoc(parts[1..], x, sep);
    }
  }

  /** Where part `i` begins in `Join(parts, sep)`: after each part before it and a separator. */
  function JoinOffset(parts: seq<string>, sep: string, i: nat): nat
    requires i <= |parts|
    decreases i
  {
    if i == 0 then 0 else JoinOffset(parts, sep, i - 1) + |parts[i - 1]| + |sep|
  }

  /** Offsets past the first part are offsets in the join of the rest, shifted by the first part and a separator. */
  lemma {:induction false} JoinOffsetTail(parts: seq<string>, sep: string, i: nat)
    requires 1 <= i <= |parts|
    ensures JoinOffset(parts, sep, i) == |parts[0]| + |sep| + JoinOffset(parts[1..], sep, i - 1)
    decreases i
  {
    if i > 1 {
      JoinOffsetTail(parts, sep, i - 1);
    }
  }

  /** A join starts with its first part, then a separator and the join of the rest. */
  lemma JoinCons(parts: seq<string>, sep: string)
    requires |parts| > 1
    ensures Join(parts, sep) == parts[0] + sep + Join(parts[1..], sep)
  {
  }

  /** Part `i` of a join sits at its offset. */
  lemma {:induction false} JoinPartAt(parts: seq<string>, sep: string, i: nat)
    requires i < |parts|
    ensures var t, o := Join(parts, sep), JoinOffset(parts, sep, i);
            o + |parts[i]| <= |t| && t[o..o + |parts[i]|] == parts[i]
    decreases |parts|
  {
    if |parts| > 1 {
      var t, rest := Join(parts, sep), Join(parts[1..], sep);
      JoinCons(parts, sep);
      if i > 0 {
        JoinPartAt(parts[1..], sep, i - 1);
        JoinOffsetTail(parts, sep, i);
        var k, o := |parts[0]| + |sep|, JoinOffset(parts[1..], sep, i - 1);
        assert parts[1..][i - 1] == parts[i];
        assert t[k + o..k + o + |parts[i]|] == rest[o..o + |parts[i]|];
      }
    }
  }

  /** A separator follows every part of a join but the last. */
  lemma {:induction false} JoinSeparatorAfter(parts: seq<string>, sep: string, i: nat)
    requires i + 1 < |parts|
    ensures var t, o := Join(parts, sep), JoinOffset(parts, sep, i) + |parts[i]|;
            o + |sep| <= |t| && t[o..o + |sep|] == sep
    decreases |parts|
  {
    var t, rest := Join(parts, sep), Join(parts[1..], sep);
    JoinCons(parts, sep);
    if i > 0 {
      JoinSeparatorAfter(parts[1..], sep, i - 1);
      JoinOffsetTail(parts, sep, i);
      var k, o := |parts[0]| + |sep|, JoinOffset(parts[1..], sep, i - 1) + |parts[i]|;
      assert parts[1..][i - 1] == parts[i];
      assert t[k + o..k + o + |sep|] == rest[o..o + |sep|];
    }
  }

  /** A join ends with its last part. */
  lemma {:induction false} JoinLength(parts: seq<string>, sep: string)
    requires |parts| > 0
    ensures |Join(parts, sep)| == JoinOffset(parts, sep, |parts| - 1) + |parts[|parts| - 1]|
    decreases |parts|
  {
    if |parts| > 1 {
      JoinCons(parts, sep);
      JoinLength(parts[1..], sep);
      JoinOffsetTail(parts, sep, |parts| - 1);
    }
  }

  /**
   * A join between `pre` and `post`: part `i` sits at its offset past
   * `pre`, followed by a separator, or by `post` when it is the last.
   */
  lemma {:induction false} JoinWrapped(pre: string, parts: seq<string>, sep: string, post: string, i: nat)
    requires i < |parts|
    ensures var t, o := pre + Join(parts, sep) + post, |pre| + JoinOffset(parts, sep, i);
            && o + |parts[i]| <= |t| && t[o..o + |parts[i]|] == parts[i]
            && (i + 1 < |parts| ==> o + |parts[i]| + |sep| <= |t| && t[o + |parts[i]|..o + |parts[i]| + |sep|] == sep)
            && (i + 1 == |parts| ==> t[o + |parts[i]|..] == post)
  {
    var j, o := Join(parts, sep), JoinOffset(parts, sep, i);
    var t := pre + j + post;
    JoinPartAt(parts, sep, i);
    assert t[|pre| + o..|pre| + o + |parts[i]|] == j[o..o + |parts[i]|];
    if i + 1 < |parts| {
      JoinSeparatorAfter(parts, sep, i);
      assert t[|pre| + o + |parts[i]|..|pre| + o + |parts[i]| + |sep|] == j[o + |parts[i]|..o + |parts[i]| + |sep|];
    } else {
      JoinLength(parts, sep);
      assert t[|pre| + |j|..] == post;
    }
  }

  /** Concatenation of all parts, as `parts.concat()` on strings. */
  function Concat(parts: seq<string>): string
  {
    if |parts| == 0 then "" else parts[0] + Concat(parts[1..])
  }

  lemma {:induction false} ConcatAppend(a: seq<string>, b: seq<string>)
    ensures Concat(a + b) == Concat(a) + Concat(b)
  {
    if |a| == 0 {
      assert a + b == b;
    } else {
      assert (a + b)[1..] == a[1..] + b;
      ConcatAppend(a[1..], b);
    }
  }

  /** `s` with every character in `cs` deleted. */
  function RemoveChars(s: string, cs: set<char>): string
  {
    if |s| == 0 then "" else (if s[0] in cs then "" else [s[0]]) + RemoveChars(s[1..], cs)
  }

  /**
   * `s.split(p)` where the pattern `p` matches any one character of `seps`
   * (Rust's `split(['a', 'b'])`): the pieces between separators, including
   * the empty ones, so that "" splits to [""] and "a," to ["a", ""].
   */
  function Split(s: string, seps: set<char>): (r: seq<string>)
    ensures |r| > 0
    decreases |s|
  {
    if |s| == 0 then [""]
    else
      var rest := Split(s[1..], seps);
      if s[0] in seps then [""] + rest
      else [[s[0]] + rest[0]] + rest[1..]
  }

  /** No piece of a split holds a separator. */
  lemma {:induction false} SplitPiecesFree(s: string, seps: set<char>, i: nat, c: char)
    requires i < |Split(s, seps)| && c in Split(s, seps)[i]
    ensures c !in seps
    decreases |s|
  {
    var rest := Split(s[1..], seps);
    if s[0] in seps {
      if i > 0 { SplitPiecesFree(s[1..], seps, i - 1, c); }
    } else if i == 0 {
      if c != s[0] { SplitPiecesFree(s[1..], seps, 0, c); }
    } else {
      SplitPiecesFree(s[1..], seps, i, c);
    }
  }

  /** The pieces of a split, put back together, are the input without its separators. */
  lemma {:induction false} SplitConcat(s: string, seps: set<char>)
    ensures Concat(Split(s, seps)) == RemoveChars(s, seps)
    decreases |s|
  {
    if |s| > 0 {
      var rest := Split(s[1..], seps);
      SplitConcat(s[1..], seps);
      if s[0] in seps {
        assert ([""] + rest)[1..] == rest;
      } else {
        var r := [[s[0]] + rest[0]] + rest[1..];
        assert r[1..] == rest[1..];
        assert Concat(rest) == rest[0] + Concat(rest[1..]);
      }
    }
  }

  /** Splitting on one character and joining with it gives the input back. */
  lemma {:induction false} SplitJoin(s: string, c: char)
    ensures Join(Split(s, {c}), [c]) == s
    decreases |s|
  {
    if |s| > 0 {
      var rest := Split(s[1..], {c});
      SplitJoin(s[1..], c);
      if s[0] == c {
        var r := [""] + rest;
        assert r[1..] == rest;
        assert s == [c] + s[1..];
      } else {
        var r := [[s[0]] + rest[0]] + rest[1..];
        assert r[1..] == rest[1..];
        if |rest| == 1 {
          assert s == [s[0]] + s[1..];
        } else {
          assert Join(rest, [c]) == rest[0] + [c] + Join(rest[1..], [c]);
          assert s == [s[0]] + s[1..];
        }
      }
    }
  }

  /** No character of `s` is one of `cs`. */
  predicate FreeOf(s: string, cs: set<char>)
  {
    forall i :: 0 <= i < |s| ==> s[i] !in cs
  }

  /** The split of a string with one more character in front. */
  lemma SplitCons(x: char, t: string, seps: set<char>)
    ensures Split([x] + t, seps) == if x in seps then [""] + Split(t, seps)
                                    else [[x] + Split(t, seps)[0]] + Split(t, seps)[1..]
  {
    assert ([x] + t)[0] == x && ([x] + t)[1..] == t;
  }

  /** Extending the first piece of a list of pieces commutes with appending more pieces. */
  lemma ExtendFirstPiece(x: char, left: seq<string>, right: seq<string>)
    requires |left| > 0
    ensures [[x] + (left + right)[0]] + (left + right)[1..] == [[x] + left[0]] + left[1..] + right
  {
    assert (left + right)[0] == left[0];
    assert (left + right)[1..] == left[1..] + right;
  }

  /** A separator splits the string into the pieces before it and the pieces after it. */
  lemma {:induction false} SplitAtSeparator(a: string, c: char, b: string, seps: set<char>)
    requires c in seps
    ensures Split(a + [c] + b, seps) == Split(a, seps) + Split(b, seps)
    decreases |a|
  {
    if |a| == 0 {
      assert a + [c] + b == [c] + b;
      SplitCons(c, b, seps);
    } else {
      var x, rest := a[0], a[1..];
      var t := rest + [c] + b;
      assert a + [c] + b == [x] + t;
      assert a == [x] + rest;
      SplitAtSeparator(rest, c, b, seps);
      SplitCons(x, t, seps);
      SplitCons(x, rest, seps);
      if x in seps {
        assert [""] + (Split(rest, seps) + Split(b, seps)) == [""] + Split(rest, seps) + Split(b, seps);
      } else {
        ExtendFirstPiece(x, Split(rest, seps), Split(b, seps));
      }
    }
  }

  /** A string free of the separators splits to itself alone. */
  lemma {:induction false} SplitNone(a: string, seps: set<char>)
    requires FreeOf(a, seps)
    ensures Split(a, seps) == [a]
    decreases |a|
  {
    if |a| > 0 {
      SplitNone(a[1..], seps);
      assert [a[0]] + a[1..] == a;
    }
  }

  /** Two pieces free of a separator, written with it between them, split back into the two. */
  lemma SplitTwo(a: string, b: string, sep: char)
    requires sep !in a && sep !in b
    ensures Split(a + [sep] + b, {sep}) == [a, b]
  {
    SplitAtSeparator(a, sep, b, {sep});
    SplitNone(a, {sep});
    SplitNone(b, {sep});
  }

  /** Three pieces free of a separator, written with it between them, split back into the three. */
  lemma SplitThree(a: string, b: string, c: string, sep: char)
    requires sep !in a && sep !in b && sep !in c
    ensures Split(a + [sep] + b + [sep] + c, {sep}) == [a, b, c]
  {
    assert a + [sep] + b + [sep] + c == a + [sep] + (b + [sep] + c);
    SplitAtSeparator(a, sep, b + [sep] + c, {sep});
    SplitAtSeparator(b, sep, c, {sep});
    SplitNone(a, {sep});
    SplitNone(b, {sep});
    SplitNone(c, {sep});
  }

  /** A separator after a piece free of separators ends that piece. */
  lemma SplitFreeThen(a: string, c: char, b: string, seps: set<char>)
    requires c in seps && FreeOf(a, seps)
    ensures Split(a + [c] + b, seps) == [a] + Split(b, seps)
  {
    SplitAtSeparator(a, c, b, seps);
    SplitNone(a, seps);
  }

  /** `s.replace(c, by)` for a one-character pattern `c`. */
  function ReplaceChar(s: string, c: char, repl: string): (r: string)
    ensures c !in repl ==> c !in r
    ensures forall d :: d != c && d !in repl ==> (d in r <==> d in s)
    decreases |s|
  {
    if |s| == 0 then ""
    else (if s[0] == c then repl else [s[0]]) + ReplaceChar(s[1..], c, repl)
  }

  /** Replacing in a concatenation replaces in each half. */
  lemma {:induction false} ReplaceCharAppend(a: string, b: string, c: char, repl: string)
    ensures ReplaceChar(a + b, c, repl) == ReplaceChar(a, c, repl) + ReplaceChar(b, c, repl)
    decreases |a|
  {
    if |a| == 0 {
      assert a + b == b;
    } else {
      assert (a + b)[1..] == a[1..] + b;
      ReplaceCharAppend(a[1..], b, c, repl);
    }
  }

  /** A string without the pattern character is left as it is. */
  lemma {:induction false} ReplaceCharAbsent(s: string, c: char, repl: string)
    requires c !in s
    ensures ReplaceChar(s, c, repl) == s
    decreases |s|
  {
    if |s| > 0 {
      ReplaceCharAbsent(s[1..], c, repl);
      assert [s[0]] + s[1..] == s;
    }
  }

  /** `pat` occurs in `s` starting at index `j`. */
  predicate OccursAt(s: string, pat: string, j: nat)
  {
    j + |pat| <= |s| && s[j..j + |pat|] == pat
  }

  /** The first index at or after `from` where `pat` occurs in `s`. */
  function IndexOfFrom(s: string, pat: string, from: nat): (r: Option<nat>)
    requires from <= |s|
    ensures r.Some? ==> from <= r.value && OccursAt(s, pat, r.value)
    ensures r.Some? ==> forall j :: from <= j < r.value ==> !OccursAt(s, pat, j)
    ensures r.None? ==> forall j :: from <= j ==> !OccursAt(s, pat, j)
    decreases |s| - from
  {
    if from + |pat| > |s| then None
    else if s[from..from + |pat|] == pat then Some(from)
    else IndexOfFrom(s, pat, from + 1)
  }

  /** The first index where `pat` occurs in `s`, as `s.find(pat)`. */
  function IndexOf(s: string, pat: string): (r: Option<nat>)
    ensures r.Some? ==> OccursAt(s, pat, r.value)
    ensures r.Some? ==> forall j :: 0 <= j < r.value ==> !OccursAt(s, pat, j)
    ensures r.None? ==> forall j: nat :: !OccursAt(s, pat, j)
  {
    IndexOfFrom(s, pat, 0)
  }

  /** `s.contains(pat)`. */
  predicate Contains(s: string, pat: string)
  {
    IndexOf(s, pat).Some?
  }

  /** `s.replacen(pat, "", 1)`: the first occurrence of `pat`, wherever it is, is deleted. */
  function RemoveFirst(s: string, pat: string): (r: string)
    ensures |r| <= |s|
    decreases |s|
  {
    if |s| < |pat| then s
    else if s[..|pat|] == pat then s[|pat|..]
    else [s[0]] + RemoveFirst(s[1..], pat)
  }

  /** When `pat` first occurs at `i`, exactly that occurrence is deleted. */
  lemma {:induction false} RemoveFirstDeletesFirst(s: string, pat: string, i: nat)
    requires OccursAt(s, pat, i)
    requires forall j :: 0 <= j < i ==> !OccursAt(s, pat, j)
    ensures RemoveFirst(s, pat) == s[..i] + s[i + |pat|..]
    decreases i
  {
    if i > 0 {
      assert !OccursAt(s, pat, 0);
      forall j | 0 <= j < i - 1
        ensures !OccursAt(s[1..], pat, j)
      {
        assert !OccursAt(s, pat, j + 1);
        assert s[1..][j..j + |pat|] == s[j + 1..j + 1 + |pat|];
      }
      assert s[1..][i - 1..i - 1 + |pat|] == s[i..i + |pat|];
      RemoveFirstDeletesFirst(s[1..], pat, i - 1);
      assert [s[0]] + s[1..][..i - 1] == s[..i];
    }
  }

  /** Without an occurrence of `pat` nothing is deleted. */
  lemma {:induction false} RemoveFirstNoOccurrence(s: string, pat: string)
    requires forall j :: 0 <= j ==> !OccursAt(s, pat, j)
    ensures RemoveFirst(s, pat) == s
    decreases |s|
  {
    if |s| >= |pat| {
      assert !OccursAt(s, pat, 0);
      forall j | 0 <= j
        ensures !OccursAt(s[1..], pat, j)
      {
        assert !OccursAt(s, pat, j + 1);
        if j + |pat| <= |s| - 1 {
          assert s[1..][j..j + |pat|] == s[j + 1..j + 1 + |pat|];
        }
      }
      RemoveFirstNoOccurrence(s[1..], pat);
      assert [s[0]] + s[1..] == s;
    }
  }

  /** A pattern containing a character that `s` lacks is never deleted from `s`. */
  lemma {:induction false} RemoveFirstAbsent(s: string, pat: string, c: char)
    requires c in pat && c !in s
    ensures RemoveFirst(s, pat) == s
    decreases |s|
  {
    if |s| >= |pat| {
      assert s[..|pat|] != pat by {
        var k :| 0 <= k < |pat| && pat[k] == c;
        assert s[..|pat|][k] == s[k];
      }
      RemoveFirstAbsent(s[1..], pat, c);
      assert [s[0]] + s[1..] == s;
    }
  }

  /** On a string that starts with `pat`, `replacen(pat, "", 1)` drops that prefix. */
  lemma RemoveFirstLeading(pat: string, s: string)
    ensures RemoveFirst(pat + s, pat) == s
  {
    assert (pat + s)[..|pat|] == pat;
  }

  predicate IsDigit(c: char)
  {
    '0' <= c <= '9'
  }

  function DigitChar(d: nat): (c: char)
    requires d < 10
    ensures IsDigit(c) && DigitValue(c) == d
  {
    "0123456789"[d]
  }

  function DigitValue(c: char): (d: nat)
    requires IsDigit(c)
    ensures d < 10
  {
    (c as int) - ('0' as int)
  }

  /** `format!("{}", n)` for an unsigned integer: decimal, no sign, no leading zero. */
  function NatToString(n: nat): (r: string)
    ensures |r| > 0
    ensures forall i :: 0 <= i < |r| ==> IsDigit(r[i])
    ensures 0 < n ==> r[0] != '0'
    decreases n
  {
    if n < 10 then [DigitChar(n)] else NatToString(n / 10) + [DigitChar(n % 10)]
  }

  /** The value of a string of decimal digits (the reference reading of `NatToString`). */
  function DigitsValue(s: string): nat
    requires forall i :: 0 <= i < |s| ==> IsDigit(s[i])
    decreases |s|
  {
    if |s| == 0 then 0 else DigitsValue(s[..|s| - 1]) * 10 + DigitValue(s[|s| - 1])
  }

  /** Reads a non-empty run of decimal digits; anything else is `None`. */
  function ParseNat(s: string): Option<nat>
  {
    if |s| > 0 && forall i :: 0 <= i < |s| ==> IsDigit(s[i]) then Some(DigitsValue(s)) else None
  }

  /** Decimal formatting is undone by reading the digits back. */
  lemma {:induction false} ParseNatToString(n: nat)
    ensures ParseNat(NatToString(n)) == Some(n)
    decreases n
  {
    if n >= 10 {
      ParseNatToString(n / 10);
      var r := NatToString(n);
      assert r[..|r| - 1] == NatToString(n / 10);
      assert r[|r| - 1] == DigitChar(n % 10);
      assert DigitsValue(r) == DigitsValue(NatToString(n / 10)) * 10 + n % 10;
    }
  }

  /** Decimal formatting never produces the separator characters used around numbers. */
  lemma NatToStringHasNo(n: nat, c: char)
    requires !IsDigit(c)
    ensures c !in NatToString(n)
  {
  }
}
