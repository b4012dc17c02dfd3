/** The few functions of Go's `strings` package that the modelled code relies on. */
module Strings {

  ghost predicate OccursAt(s: string, sub: string, i: nat)
  {
    i + |sub| <= |s| && s[i..i + |sub|] == sub
  }

  function IndexFrom(s: string, sub: string, i: nat): (r: int)
    requires i <= |s|
    ensures r == -1 || (i <= r && OccursAt(s, sub, r))
    ensures forall k :: i <= k && (r == -1 || k < r) ==> !OccursAt(s, sub, k)
    decreases |s| - i
  {
    if i + |sub| > |s| then -1
    else if s[i..i + |sub|] == sub then i
    else if i == |s| then -1
    else IndexFrom(s, sub, i + 1)
  }

  /** `strings.Index`: the first occurrence, or -1. */
  function Index(s: string, sub: string): (r: int)
    ensures r == -1 || (0 <= r && OccursAt(s, sub, r))
    ensures forall k :: 0 <= k && (r == -1 || k < r) ==> !OccursAt(s, sub, k)
  {
    IndexFrom(s, sub, 0)
  }

  function LastIndexFrom(s: string, sub: string, i: nat): (r: int)
    requires i <= |s|
    ensures r == -1 || (0 <= r <= i && OccursAt(s, sub, r))
    ensures forall k :: r < k <= i && 0 <= k ==> !OccursAt(s, sub, k)
  {
    if i + |sub| <= |s| && s[i..i + |sub|] == sub then i
    else if i == 0 then -1
    else LastIndexFrom(s, sub, i - 1)
  }

  /** `strings.LastIndex`: the last occurrence, or -1. */
  function LastIndex(s: string, sub: string): (r: int)
    ensures r == -1 || (0 <= r && OccursAt(s, sub, r))
    ensures forall k :: r < k && 0 <= k ==> !OccursAt(s, sub, k)
  {
    LastIndexFrom(s, sub, |s|)
  }

  predicate HasPrefix(s: string, prefix: string)
  {
    |prefix| <= |s| && s[..|prefix|] == prefix
  }

  predicate HasSuffix(s: string, suffix: string)
  {
    |suffix| <= |s| && s[|s| - |suffix|..] == suffix
  }

  function TrimPrefix(s: string, prefix: string): string
  {
    if HasPrefix(s, prefix) then s[|prefix|..] else s
  }

  /** `unicode.IsSpace`. */
  predicate IsSpace(c: char)
  {
    || c == ' ' || ('\t' <= c <= '\r') || c == '\U{85}' || c == '\U{A0}' || c == '\U{1680}'
    || ('\U{2000}' <= c <= '\U{200A}') || c == '\U{2028}' || c == '\U{2029}' || c == '\U{202F}'
    || c == '\U{205F}' || c == '\U{3000}'
  }

  function TrimLeft(s: string): string
  {
    if |s| > 0 && IsSpace(s[0]) then TrimLeft(s[1..]) else s
  }

  function TrimRight(s: string): string
  {
    if |s| > 0 && IsSpace(s[|s| - 1]) then TrimRight(s[..|s| - 1]) else s
  }

  function TrimSpace(s: string): string
  {
    TrimRight(TrimLeft(s))
  }

  /** The result of `strings.Cut`. */
  datatype CutResult = CutResult(before: string, after: string, found: bool)

  function Cut(s: string, separator: string): CutResult
  {
    var i := Index(s, separator);
    if i < 0 then CutResult(s, "", false) else CutResult(s[..i], s[i + |separator|..], true)
  }

  /** A first occurrence stays the first one whatever is appended behind it. */
  lemma IndexOfFirst(before: string, sub: string, after: string)
    requires forall k :: 0 <= k < |before| ==> !OccursAt(before + sub, sub, k)
    ensures Index(before + sub + after, sub) == |before|
  {
    var s := before + sub + after;
    assert s[|before|..|before| + |sub|] == sub;
    assert OccursAt(s, sub, |before|);
    forall k | 0 <= k < |before|
      ensures !OccursAt(s, sub, k)
    {
      assert !OccursAt(before + sub, sub, k);
      assert s == (before + sub) + after;
      assert s[k..k + |sub|] == (before + sub)[k..k + |sub|];
    }
  }

  /** Conversely, what `Index` finds is a first occurrence in the text up to its end. */
  lemma FirstOfIndex(s: string, sub: string)
    requires Index(s, sub) >= 0
    ensures var i := Index(s, sub);
            && s == s[..i] + sub + s[i + |sub|..]
            && forall k :: 0 <= k < i ==> !OccursAt(s[..i] + sub, sub, k)
  {
    var i := Index(s, sub);
    assert s[..i] + sub == s[..i + |sub|];
    forall k | 0 <= k < i
      ensures !OccursAt(s[..i] + sub, sub, k)
    {
      assert !OccursAt(s, sub, k);
      if k + |sub| <= i + |sub| {
        assert s[..i + |sub|][k..k + |sub|] == s[k..k + |sub|];
      }
    }
  }

  // ------------------------------------------------------------------ single characters

  lemma OccursAsCharacter(s: string, c: char, k: nat)
    ensures OccursAt(s, [c], k) <==> k < |s| && s[k] == c
  {
  }

  lemma LastCharacter(s: string, c: char)
    ensures var r := LastIndex(s, [c]);
            if r == -1 then c !in s else r < |s| && s[r] == c && forall k :: r < k < |s| ==> s[k] != c
  {
    hide LastIndex, OccursAt;
    forall k: nat
      ensures OccursAt(s, [c], k) <==> k < |s| && s[k] == c
    {
      OccursAsCharacter(s, c, k);
    }
  }

  lemma LastCharacterAt(before: string, c: char, after: string)
    ensures LastIndex(before + [c] + after, [c]) == |before| <==> c !in after
  {
    hide LastIndex;
    var s := before + [c] + after;
    LastCharacter(s, c);
    assert s[|before|] == c;
    assert forall k :: |before| < k < |s| ==> s[k] == after[k - |before| - 1];
    assert forall k :: 0 <= k < |after| ==> after[k] == s[k + |before| + 1];
  }

  lemma FirstCharacter(s: string, c: char)
    ensures var r := Index(s, [c]);
            if r == -1 then c !in s else r < |s| && s[r] == c && forall k :: 0 <= k < r ==> s[k] != c
  {
    hide Index, OccursAt;
    forall k: nat
      ensures OccursAt(s, [c], k) <==> k < |s| && s[k] == c
    {
      OccursAsCharacter(s, c, k);
    }
  }

  // ------------------------------------------------------------------------------- trimming

  lemma {:induction false} TrimLeftMeaning(s: string)
    ensures var r := TrimLeft(s);
            && |r| <= |s| && r == s[|s| - |r|..] && (|r| > 0 ==> !IsSpace(r[0]))
            && forall i :: 0 <= i < |s| - |r| ==> IsSpace(s[i])
  {
    hide IsSpace;
    if |s| > 0 && IsSpace(s[0]) {
      TrimLeftMeaning(s[1..]);
      assert forall i :: 0 < i < |s| ==> s[i] == s[1..][i - 1];
    }
  }

  lemma {:induction false} TrimRightMeaning(s: string)
    ensures var r := TrimRight(s);
            && |r| <= |s| && r == s[..|r|] && (|r| > 0 ==> !IsSpace(r[|r| - 1]))
            && forall i :: |r| <= i < |s| ==> IsSpace(s[i])
  {
    hide IsSpace;
    if |s| > 0 && IsSpace(s[|s| - 1]) {
      TrimRightMeaning(s[..|s| - 1]);
      assert forall i :: 0 <= i < |s| - 1 ==> s[i] == s[..|s| - 1][i];
    }
  }

  /** What is trimmed at both ends is space, and what is left begins and ends with none. */
  lemma TrimSpaceMeaning(s: string) returns (before: string, after: string)
    ensures s == before + TrimSpace(s) + after
    ensures forall c :: c in before || c in after ==> IsSpace(c)
    ensures TrimSpace(s) != "" ==> !IsSpace(TrimSpace(s)[0]) && !IsSpace(TrimSpace(s)[|TrimSpace(s)| - 1])
  {
    hide IsSpace, TrimLeft, TrimRight;
    TrimLeftMeaning(s);
    TrimRightMeaning(TrimLeft(s));
    before := s[..|s| - |TrimLeft(s)|];
    after := TrimLeft(s)[|TrimSpace(s)|..];
    assert s == before + TrimLeft(s) && TrimLeft(s) == TrimSpace(s) + after;
  }
}
