/** Selector globs (internal/resolve/match.go). */
module Globs {
  // Patterns are matched segment by segment, `**` standing for any run of segments. `path.Match` on a
  // single segment is a parameter.

  const ANY_SEGMENTS := "**"

  /** The two facts the matcher takes from `path.Match`: whether a segment matches, and pattern syntax. */
  datatype SegmentMatcher = SegmentMatcher(matches: (string, string) -> bool, valid: string -> bool)

  datatype GlobResult = Matched(value: bool) | InvalidGlob

  /** `strings.Split(s, "/")`. */
  function SplitFrom(s: string, start: nat, i: nat): (parts: seq<string>)
    requires start <= i <= |s|
    ensures |parts| >= 1
    decreases |s| - i
  {
    if i == |s| then [s[start..]]
    else if s[i] == '/' then [s[start..i]] + SplitFrom(s, i + 1, i + 1)
    else SplitFrom(s, start, i + 1)
  }

  function Split(s: string): (parts: seq<string>)
    ensures |parts| >= 1
  {
    SplitFrom(s, 0, 0)
  }

  predicate ValidPart(matcher: SegmentMatcher, part: string)
  {
    part == ANY_SEGMENTS || matcher.valid(part)
  }

  // --------------------------------------------------------------------------- what globs mean

  /** A part may consume segments `from..to`: any run for `**`, one matching segment otherwise. */
  ghost predicate Consumes(matcher: SegmentMatcher, part: string, values: seq<string>, from: nat, to: nat)
  {
    && from <= to <= |values|
    && (part == ANY_SEGMENTS || (to == from + 1 && matcher.matches(part, values[from])))
  }

  /** Parts `i` on consume consecutive runs of segments, from segment `j` to the end. */
  ghost predicate Covers(matcher: SegmentMatcher, parts: seq<string>, values: seq<string>, i: nat, j: nat,
                         cuts: seq<nat>)
  {
    && i <= |parts| && |cuts| == |parts| + 1
    && cuts[i] == j && cuts[|parts|] == |values|
    && forall k :: i <= k < |parts| ==> Consumes(matcher, parts[k], values, cuts[k], cuts[k + 1])
  }

  ghost predicate Meaning(matcher: SegmentMatcher, parts: seq<string>, values: seq<string>)
  {
    exists cuts :: Covers(matcher, parts, values, 0, 0, cuts)
  }

  /** The recursion of the matcher without its memory. */
  predicate MatchFrom(matcher: SegmentMatcher, parts: seq<string>, values: seq<string>, i: nat, j: nat)
    requires i <= |parts| && j <= |values|
    decreases |parts| - i + |values| - j
  {
    if i == |parts| then
      j == |values|
    else if parts[i] == ANY_SEGMENTS then
      MatchFrom(matcher, parts, values, i + 1, j) ||
      (j < |values| && MatchFrom(matcher, parts, values, i, j + 1))
    else
      j < |values| && matcher.matches(parts[i], values[j]) && MatchFrom(matcher, parts, values, i + 1, j + 1)
  }

  lemma {:induction false} MatchFromHasCuts(matcher: SegmentMatcher, parts: seq<string>, values: seq<string>,
                                            i: nat, j: nat) returns (cuts: seq<nat>)
    requires i <= |parts| && j <= |values| && MatchFrom(matcher, parts, values, i, j)
    ensures Covers(matcher, parts, values, i, j, cuts)
    decreases |parts| - i + |values| - j
  {
    if i == |parts| {
      cuts := seq(|parts| + 1, _ => j);
    } else {
      if parts[i] != ANY_SEGMENTS {
        cuts := MatchFromHasCuts(matcher, parts, values, i + 1, j + 1);
      } else if MatchFrom(matcher, parts, values, i + 1, j) {
        cuts := MatchFromHasCuts(matcher, parts, values, i + 1, j);
      } else {
        cuts := MatchFromHasCuts(matcher, parts, values, i, j + 1);
        assert Consumes(matcher, parts[i], values, cuts[i], cuts[i + 1]);
      }
      cuts := cuts[i := j];
    }
  }

  lemma {:induction false} CutsMatchFrom(matcher: SegmentMatcher, parts: seq<string>, values: seq<string>,
                                         i: nat, j: nat, cuts: seq<nat>)
    requires i <= |parts| && j <= |values| && Covers(matcher, parts, values, i, j, cuts)
    ensures MatchFrom(matcher, parts, values, i, j)
    decreases |parts| - i + |values| - j
  {
    if i < |parts| {
      assert Consumes(matcher, parts[i], values, cuts[i], cuts[i + 1]);
      if parts[i] == ANY_SEGMENTS && j < cuts[i + 1] {
        CutsMatchFrom(matcher, parts, values, i, j + 1, cuts[i := j + 1]);
      } else {
        CutsMatchFrom(matcher, parts, values, i + 1, cuts[i + 1], cuts);
      }
    }
  }

  lemma MatchFromMeaning(matcher: SegmentMatcher, parts: seq<string>, values: seq<string>)
    ensures MatchFrom(matcher, parts, values, 0, 0) <==> Meaning(matcher, parts, values)
  {
    if MatchFrom(matcher, parts, values, 0, 0) {
      var cuts := MatchFromHasCuts(matcher, parts, values, 0, 0);
    }
    if cuts :| Covers(matcher, parts, values, 0, 0, cuts) {
      CutsMatchFrom(matcher, parts, values, 0, 0, cuts);
    }
  }

  // --------------------------------------------------------------------- the memoised matcher

  datatype Position = Position(pattern: nat, value: nat)

  lemma {:induction false} RowSize(row: set<Position>, pattern: nat, width: nat)
    requires forall p :: p in row ==> p.pattern == pattern && p.value < width
    ensures |row| <= width
  {
    if width == 0 {
      assert row == {};
    } else {
      var last := Position(pattern, width - 1);
      RowSize(row - {last}, pattern, width - 1);
    }
  }

  lemma {:induction false} GridSize(grid: set<Position>, height: nat, width: nat)
    requires forall p :: p in grid ==> p.pattern < height && p.value < width
    ensures |grid| <= height * width
  {
    if height == 0 {
      assert grid == {};
    } else {
      var row := set p | p in grid && p.pattern == height - 1;
      RowSize(row, height - 1, width);
      GridSize(grid - row, height - 1, width);
      assert grid == (grid - row) + row;
      assert (height - 1) * width + width == height * width;
    }
  }

  /** The closure `match` with the maps it captures. */
  class GlobSearch {
    const matcher: SegmentMatcher
    const parts: seq<string>
    const values: seq<string>
    var memo: map<Position, bool>
    var visited: set<Position>
    ghost var evaluations: nat

    constructor (matcher: SegmentMatcher, parts: seq<string>, values: seq<string>)
      ensures this.matcher == matcher && this.parts == parts && this.values == values
      ensures Valid({}) && evaluations == 0
    {
      this.matcher, this.parts, this.values := matcher, parts, values;
      memo, visited, evaluations := map[], {}, 0;
    }

    /** All visited positions have their answer recorded, except the `open` ones still being computed. */
    ghost predicate Valid(open: set<Position>)
      reads this
    {
      && (forall p :: p in visited <==> p in memo || p in open)
      && (forall p :: p in open ==> p !in memo)
      && evaluations == |visited|
      && (forall p :: p in visited ==> p.pattern <= |parts| && p.value <= |values|)
      && (forall p :: p in memo ==> memo[p] == MatchFrom(matcher, parts, values, p.pattern, p.value))
    }

    /**
     Every position being computed lies strictly before the requested one, so a visited position that
     is requested again always has its final answer: a missing memo entry is never read as `false`.
     */
    method Match(patternIndex: nat, valueIndex: nat, ghost open: set<Position>) returns (result: bool)
      requires patternIndex <= |parts| && valueIndex <= |values| && Valid(open)
      requires forall p :: p in open ==> p.pattern + p.value < patternIndex + valueIndex
      modifies this
      ensures Valid(open)
      ensures result == MatchFrom(matcher, parts, values, patternIndex, valueIndex)
      decreases |parts| - patternIndex + |values| - valueIndex, 1
    {
      var key := Position(patternIndex, valueIndex);
      if key in visited {
        return memo[key];
      }
      visited := visited + {key};
      evaluations := evaluations + 1;
      result := Compute(patternIndex, valueIndex, open + {key});
      memo := memo[key := result];
    }

    /** The `switch` in `match`. */
    method Compute(patternIndex: nat, valueIndex: nat, ghost open: set<Position>) returns (result: bool)
      requires patternIndex <= |parts| && valueIndex <= |values| && Valid(open)
      requires forall p :: p in open ==> p.pattern + p.value <= patternIndex + valueIndex
      modifies this
      ensures Valid(open)
      ensures result == MatchFrom(matcher, parts, values, patternIndex, valueIndex)
      decreases |parts| - patternIndex + |values| - valueIndex, 0
    {
      result := false;
      if patternIndex == |parts| {
        result := valueIndex == |values|;
      } else if parts[patternIndex] == ANY_SEGMENTS {
        result := Match(patternIndex + 1, valueIndex, open);
        if !result && valueIndex < |values| {
          result := Match(patternIndex, valueIndex + 1, open);
        }
      } else if valueIndex < |values| {
        result := matcher.matches(parts[patternIndex], values[valueIndex]);
        if result {
          result := Match(patternIndex + 1, valueIndex + 1, open);
        }
      }
    }
  }

  method ValidatedGlobParts(matcher: SegmentMatcher, pattern: string) returns (parts: seq<string>, ok: bool)
    ensures ok <==> forall part :: part in Split(pattern) ==> ValidPart(matcher, part)
    ensures ok ==> parts == Split(pattern)
  {
    parts := Split(pattern);
    for k := 0 to |parts|
      invariant forall i :: 0 <= i < k ==> ValidPart(matcher, parts[i])
    {
      if parts[k] == ANY_SEGMENTS {
        continue;
      }
      if !matcher.valid(parts[k]) {
        assert parts[k] in parts;
        return [], false;
      }
    }
    ok := true;
  }

  /** What a glob answers: an error iff some part is malformed, otherwise whether it can cover the value. */
  ghost function GlobSpec(matcher: SegmentMatcher, pattern: string, value: string): GlobResult
  {
    if forall part :: part in Split(pattern) ==> ValidPart(matcher, part)
    then Matched(Meaning(matcher, Split(pattern), Split(value)))
    else InvalidGlob
  }

  method Glob(matcher: SegmentMatcher, pattern: string, value: string)
    returns (result: GlobResult, ghost evaluations: nat)
    ensures result == GlobSpec(matcher, pattern, value)
    ensures evaluations <= (|Split(pattern)| + 1) * (|Split(value)| + 1)
  {
    hide MatchFrom, Meaning;
    var parts, ok := ValidatedGlobParts(matcher, pattern);
    if !ok {
      return InvalidGlob, 0;
    }
    var values := Split(value);
    var search := new GlobSearch(matcher, parts, values);
    var matched := search.Match(0, 0, {});
    GridSize(search.visited, |parts| + 1, |values| + 1);
    MatchFromMeaning(matcher, parts, values);
    return Matched(matched), search.evaluations;
  }
}
