/**
 * `get_moth_rank_vec` (mothy_commands/src/moths/helpers.rs, repeated
 * verbatim in mothy_commands/src/moths/moth.rs): the present entries of a
 * list of optional taxonomic ranks, in order.
 */
module MothHelpers {
  import opened Wrappers

  /** The payloads of the `Some` entries, in input order. */
  function Somes(xs: seq<Option<string>>): (r: seq<string>)
    ensures |r| <= |xs|
    decreases |xs|
  {
    if |xs| == 0 then []
    else Somes(xs[..|xs| - 1]) + (if xs[|xs| - 1].Some? then [xs[|xs| - 1].value] else [])
  }

  /** How many entries are present. */
  function CountSome(xs: seq<Option<string>>): nat
    decreases |xs|
  {
    if |xs| == 0 then 0 else CountSome(xs[..|xs| - 1]) + (if xs[|xs| - 1].Some? then 1 else 0)
  }

  /** `get_moth_rank_vec`: every present entry is pushed, in order. */
  method GetMothRankVec(inputStrings: seq<Option<string>>) returns (ranks: seq<string>)
    ensures ranks == Somes(inputStrings)
    ensures |ranks| == CountSome(inputStrings)
  {
    ranks := [];
    for i := 0 to |inputStrings|
      invariant ranks == Somes(inputStrings[..i])
    {
      assert inputStrings[..i + 1][..i] == inputStrings[..i];
      if inputStrings[i].Some? {
        ranks := ranks + [inputStrings[i].value];
      }
    }
    assert inputStrings[..|inputStrings|] == inputStrings;
    SomesCount(inputStrings);
  }

  /** One entry per present input. */
  lemma {:induction false} SomesCount(xs: seq<Option<string>>)
    ensures |Somes(xs)| == CountSome(xs)
    decreases |xs|
  {
    if |xs| > 0 {
      SomesCount(xs[..|xs| - 1]);
    }
  }

  /** A string is in the output exactly when some entry holds it. */
  lemma {:induction false} SomesMembers(xs: seq<Option<string>>, s: string)
    ensures s in Somes(xs) <==> Some(s) in xs
    decreases |xs|
  {
    if |xs| > 0 {
      SomesMembers(xs[..|xs| - 1], s);
      assert xs == xs[..|xs| - 1] + [xs[|xs| - 1]];
    }
  }

  /** Order is kept: the present entries of two lists in a row are those of the first, then of the second. */
  lemma {:induction false} SomesAppend(a: seq<Option<string>>, b: seq<Option<string>>)
    ensures Somes(a + b) == Somes(a) + Somes(b)
    decreases |b|
  {
    if |b| > 0 {
      var ab := a + b;
      assert ab[..|ab| - 1] == a + b[..|b| - 1];
      SomesAppend(a, b[..|b| - 1]);
    } else {
      assert a + b == a;
    }
  }

  /** No present entry gives an empty list. */
  lemma {:induction false} SomesAllNone(xs: seq<Option<string>>)
    requires forall i :: 0 <= i < |xs| ==> xs[i].None?
    ensures Somes(xs) == []
    decreases |xs|
  {
    if |xs| > 0 {
      SomesAllNone(xs[..|xs| - 1]);
    }
  }

  /** Every entry present gives the unwrapped input unchanged. */
  lemma {:induction false} SomesAllSome(xs: seq<Option<string>>)
    requires forall i :: 0 <= i < |xs| ==> xs[i].Some?
    ensures |Somes(xs)| == |xs|
    ensures forall i :: 0 <= i < |xs| ==> Somes(xs)[i] == xs[i].value
    decreases |xs|
  {
    if |xs| > 0 {
      SomesAllSome(xs[..|xs| - 1]);
    }
  }
}
