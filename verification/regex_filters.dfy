/**
 * The link denylist loader (mothy_core/src/regex_filters.rs): the bundled
 * pattern file is split into lines, blank lines are dropped, and every
 * remaining line is compiled, case-insensitively, as a linear-time regex.
 */
module RegexFilters {
  import opened Wrappers
  import opened Text
  import opened DatabaseModels

  /** Unicode `White_Space`, the characters `str::trim` removes from both ends. */
  predicate IsWhitespace(c: char)
  {
    || c == ' ' || c == '\t' || c == '\n' || c == '\U{000B}' || c == '\U{000C}' || c == '\r'
    || c == '\U{0085}' || c == '\U{00A0}' || c == '\U{1680}'
    || ('\U{2000}' <= c <= '\U{200A}')
    || c == '\U{2028}' || c == '\U{2029}' || c == '\U{202F}' || c == '\U{205F}' || c == '\U{3000}'
  }

  /** `line.trim().len() == 0`: the line holds nothing but white space. */
  predicate IsBlank(line: string)
  {
    forall i :: 0 <= i < |line| ==> IsWhitespace(line[i])
  }

  /** `.filter(|x| x.trim().len() > 0)`: the non-blank lines, untrimmed, in file order. */
  function NonBlank(lines: seq<string>): (r: seq<string>)
    ensures |r| <= |lines|
    ensures forall i :: 0 <= i < |r| ==> !IsBlank(r[i]) && r[i] in lines
    ensures forall line :: line in lines && !IsBlank(line) ==> line in r
    decreases |lines|
  {
    if |lines| == 0 then []
    else (if IsBlank(lines[0]) then [] else [lines[0]]) + NonBlank(lines[1..])
  }

  /** The filter keeps file order: it distributes over concatenation. */
  lemma {:induction false} NonBlankAppend(a: seq<string>, b: seq<string>)
    ensures NonBlank(a + b) == NonBlank(a) + NonBlank(b)
    decreases |a|
  {
    if |a| == 0 {
      assert a + b == b;
    } else {
      assert (a + b)[1..] == a[1..] + b;
      NonBlankAppend(a[1..], b);
    }
  }

  /** A file without blank lines keeps every line. */
  lemma {:induction false} NonBlankKeepsAll(lines: seq<string>)
    requires forall i :: 0 <= i < |lines| ==> !IsBlank(lines[i])
    ensures NonBlank(lines) == lines
    decreases |lines|
  {
    if |lines| > 0 {
      NonBlankKeepsAll(lines[1..]);
      assert [lines[0]] + lines[1..] == lines;
    }
  }

  /**
   * `.map(|x| RegexBuilder::new(x).case_insensitive(true).build().unwrap())`
   * collected in order; the first line that does not compile panics.
   */
  function CompileAll(lines: seq<string>, compiles: Pattern -> bool): (r: Result<seq<Pattern>, Panic>)
    ensures r.Ok? <==> forall i :: 0 <= i < |lines| ==> compiles(Simple(lines[i], true))
    ensures r.Ok? ==> |r.value| == |lines|
    ensures r.Ok? ==> forall i :: 0 <= i < |lines| ==> r.value[i] == Simple(lines[i], true)
    ensures r.Err? ==> exists i :: 0 <= i < |lines| && r.error == InvalidRegex(Simple(lines[i], true))
                                     && !compiles(Simple(lines[i], true))
    decreases |lines|
  {
    if |lines| == 0 then Ok([])
    else
      var p := Simple(lines[0], true);
      if !compiles(p) then Err(InvalidRegex(p))
      else match CompileAll(lines[1..], compiles)
        case Err(e) => Err(e)
        case Ok(rest) => Ok([p] + rest)
  }

  /**
   * `init`: the file is split on "\n", blank lines are dropped, and each
   * remaining line is compiled untrimmed, case-insensitively, in file order.
   */
  function Init(file: string, compiles: Pattern -> bool): (r: Result<seq<Pattern>, Panic>)
    ensures r.Ok? <==> forall line :: line in Split(file, {'\n'}) && !IsBlank(line) ==> compiles(Simple(line, true))
    ensures r.Ok? ==> |r.value| == |NonBlank(Split(file, {'\n'}))|
    ensures r.Ok? ==> forall i :: 0 <= i < |r.value| ==> r.value[i] == Simple(NonBlank(Split(file, {'\n'}))[i], true)
    ensures r.Ok? ==> forall i :: 0 <= i < |r.value| ==> r.value[i].Simple? && r.value[i].caseInsensitive
    ensures r.Ok? ==> forall i :: 0 <= i < |r.value| ==> !IsBlank(r.value[i].source)
  {
    CompileAll(NonBlank(Split(file, {'\n'})), compiles)
  }

  /** Each compiled pattern is one whole line of the file: it holds no line break. */
  lemma {:induction false} InitPatternsAreLines(file: string, compiles: Pattern -> bool, i: nat)
    requires Init(file, compiles).Ok? && i < |Init(file, compiles).value|
    ensures '\n' !in Init(file, compiles).value[i].source
  {
    var lines := Split(file, {'\n'});
    var kept := NonBlank(lines);
    if '\n' in kept[i] {
      var j :| 0 <= j < |lines| && lines[j] == kept[i];
      SplitPiecesFree(file, {'\n'}, j, '\n');
    }
  }
}
