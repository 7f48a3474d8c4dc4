/** The whitespace stripping that `addTask` applies to the input field's value
    (JavaScript's `String.prototype.trim`). */
module TaskText {

  /** The number of ranges in `WhitespaceRange`. */
  const RangeCount := 10

  /** The `k`-th range of the code points JavaScript's `trim` removes, from low to high,
      inclusive: together the ranges cover the WhiteSpace class (tab, vertical tab, form
      feed, space, no-break space, zero-width no-break space and the Unicode "Zs" space
      separators) and the LineTerminator class (line feed, carriage return, line
      separator, paragraph separator). */
  function WhitespaceRange(k: nat): (int, int)
    requires k < RangeCount
  {
    if k == 0 then (0x09, 0x0D)
    else if k == 1 then (0x20, 0x20)
    else if k == 2 then (0xA0, 0xA0)
    else if k == 3 then (0x1680, 0x1680)
    else if k == 4 then (0x2000, 0x200A)
    else if k == 5 then (0x2028, 0x2029)
    else if k == 6 then (0x202F, 0x202F)
    else if k == 7 then (0x205F, 0x205F)
    else if k == 8 then (0x3000, 0x3000)
    else (0xFEFF, 0xFEFF)
  }

  /** `n` lies in one of the ranges numbered `k` and up. */
  predicate InRangesFrom(n: int, k: nat)
    decreases RangeCount - k
  {
    k < RangeCount && (WhitespaceRange(k).0 <= n <= WhitespaceRange(k).1 || InRangesFrom(n, k + 1))
  }

  predicate IsWhitespace(c: char)
  {
    InRangesFrom(c as int, 0)
  }

  /** The ranges hold exactly the listed code points. */
  lemma WhitespaceCodePoints(c: char)
    ensures IsWhitespace(c) <==>
      var n := c as int;
      || n == 0x09 || n == 0x0A || n == 0x0B || n == 0x0C || n == 0x0D
      || n == 0x20 || n == 0xA0 || n == 0x1680
      || (0x2000 <= n <= 0x200A)
      || n == 0x2028 || n == 0x2029 || n == 0x202F || n == 0x205F
      || n == 0x3000 || n == 0xFEFF
  {
    var n := c as int;
    assert InRangesFrom(n, 0) <==> 0x09 <= n <= 0x0D || InRangesFrom(n, 1);
    assert InRangesFrom(n, 1) <==> n == 0x20 || InRangesFrom(n, 2);
    assert InRangesFrom(n, 2) <==> n == 0xA0 || InRangesFrom(n, 3);
    assert InRangesFrom(n, 3) <==> n == 0x1680 || InRangesFrom(n, 4);
    assert InRangesFrom(n, 4) <==> 0x2000 <= n <= 0x200A || InRangesFrom(n, 5);
    assert InRangesFrom(n, 5) <==> 0x2028 <= n <= 0x2029 || InRangesFrom(n, 6);
    assert InRangesFrom(n, 6) <==> n == 0x202F || InRangesFrom(n, 7);
    assert InRangesFrom(n, 7) <==> n == 0x205F || InRangesFrom(n, 8);
    assert InRangesFrom(n, 8) <==> n == 0x3000 || InRangesFrom(n, 9);
    assert InRangesFrom(n, 9) <==> n == 0xFEFF || InRangesFrom(n, 10);
    assert !InRangesFrom(n, 10);
  }

  predicate AllWhitespace(s: string)
  {
    forall i :: 0 <= i < |s| ==> IsWhitespace(s[i])
  }

  /** The position of the first character of `s` that is not whitespace, or `|s|`
      when there is none. */
  function ContentStart(s: string): (n: nat)
    ensures n <= |s|
    ensures forall i :: 0 <= i < n ==> IsWhitespace(s[i])
    ensures n < |s| ==> !IsWhitespace(s[n])
  {
    if s != [] && IsWhitespace(s[0]) then
      var n := 1 + ContentStart(s[1..]);
      assert forall i :: 1 <= i < n ==> s[i] == s[1..][i - 1];
      n
    else 0
  }

  /** The position just after the last character of `s` that is not whitespace, or 0
      when there is none. */
  function ContentEnd(s: string): (n: nat)
    ensures n <= |s|
    ensures forall i :: n <= i < |s| ==> IsWhitespace(s[i])
    ensures 0 < n ==> !IsWhitespace(s[n - 1])
  {
    if s != [] && IsWhitespace(s[|s| - 1]) then
      var n := ContentEnd(s[..|s| - 1]);
      assert forall i :: n <= i < |s| - 1 ==> s[i] == s[..|s| - 1][i];
      n
    else |s|
  }

  /** Either `s` is all whitespace, and then the content starts at the end and ends at
      the beginning, or the content is a non-empty stretch of `s`. */
  lemma ContentBounds(s: string)
    ensures ContentStart(s) == |s| <==> ContentEnd(s) == 0
    ensures ContentStart(s) < |s| ==> ContentStart(s) < ContentEnd(s)
    ensures ContentStart(s) == |s| <==> AllWhitespace(s)
  {
    var a, b := ContentStart(s), ContentEnd(s);
    if a < |s| {
      assert !IsWhitespace(s[a]);
    }
  }

  /** `s` with whitespace stripped from both ends: it neither starts nor ends with
      whitespace, and it is empty exactly when `s` holds nothing but whitespace. */
  function Trim(s: string): (r: string)
    ensures r == [] || (!IsWhitespace(r[0]) && !IsWhitespace(r[|r| - 1]))
    ensures r == [] <==> AllWhitespace(s)
  {
    ContentBounds(s);
    var a, b := ContentStart(s), ContentEnd(s);
    if a < |s| then
      var r := s[a..b];
      assert r[0] == s[a] && r[|r| - 1] == s[b - 1];
      r
    else []
  }

  /** What `Trim` removes is whitespace: `Trim(s)` is the infix of `s` at offset `k`,
      with only whitespace before and after it. */
  lemma TrimIsInfix(s: string) returns (k: nat)
    ensures k + |Trim(s)| <= |s| && Trim(s) == s[k..k + |Trim(s)|]
    ensures forall i :: 0 <= i < k ==> IsWhitespace(s[i])
    ensures forall i :: k + |Trim(s)| <= i < |s| ==> IsWhitespace(s[i])
  {
    ContentBounds(s);
    k := ContentStart(s);
  }

  /** `ContentStart` is the only position with whitespace before it and, unless it is
      the end, no whitespace at it. */
  lemma ContentStartUnique(s: string, n: nat)
    requires n <= |s| && forall i :: 0 <= i < n ==> IsWhitespace(s[i])
    requires n < |s| ==> !IsWhitespace(s[n])
    ensures ContentStart(s) == n
  {
  }

  /** `ContentEnd` is the only position with whitespace from it on and, unless it is
      the beginning, no whitespace just before it. */
  lemma ContentEndUnique(s: string, n: nat)
    requires n <= |s| && forall i :: n <= i < |s| ==> IsWhitespace(s[i])
    requires 0 < n ==> !IsWhitespace(s[n - 1])
    ensures ContentEnd(s) == n
  {
  }

  /** `Trim` is determined by its contract: whenever `s` splits into whitespace, a middle
      part that is empty or neither starts nor ends with whitespace, and whitespace, that
      middle part is `Trim(s)`. */
  lemma TrimUnique(s: string, p: string, m: string, q: string)
    requires s == p + m + q
    requires AllWhitespace(p) && AllWhitespace(q)
    requires m == [] || (!IsWhitespace(m[0]) && !IsWhitespace(m[|m| - 1]))
    ensures Trim(s) == m
  {
    assert forall i :: 0 <= i < |p| ==> s[i] == p[i];
    assert forall i :: |p| + |m| <= i < |s| ==> s[i] == q[i - |p| - |m|];
    if m == [] {
      assert AllWhitespace(s);
    } else {
      assert s[|p|] == m[0] && s[|p| + |m| - 1] == m[|m| - 1];
      ContentStartUnique(s, |p|);
      ContentEndUnique(s, |p| + |m|);
      assert s[|p|..|p| + |m|] == m;
    }
  }

  /** Trimming twice is trimming once. */
  lemma TrimIdempotent(s: string)
    ensures Trim(Trim(s)) == Trim(s)
  {
    var r := Trim(s);
    if r != [] {
      assert ContentStart(r) == 0 && ContentEnd(r) == |r|;
      assert r[0..|r|] == r;
    }
  }
}
