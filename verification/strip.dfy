/**
 Python's `str.strip()` called with no argument, as the controller applies it to
 the text of the entry field before deciding whether a task may be added.
 */
module PyStrings {

  /** `str.isspace` for one character: the code points Python treats as white space
      (bidirectional class WS, B or S, or general category Zs). */
  predicate IsWhitespace(c: char)
  {
    var n := c as int;
    || (0x09 <= n <= 0x0D)
    || (0x1C <= n <= 0x20)
    || n == 0x85 || n == 0xA0 || n == 0x1680
    || (0x2000 <= n <= 0x200A)
    || n == 0x2028 || n == 0x2029 || n == 0x202F || n == 0x205F || n == 0x3000
  }

  predicate AllWhitespace(s: string)
  {
    forall k :: 0 <= k < |s| ==> IsWhitespace(s[k])
  }

  /** Where the text starts: every character before this position is white space,
      and the character at it (if any) is not. */
  function TextStart(s: string): (i: nat)
    ensures i <= |s|
    ensures forall k :: 0 <= k < i ==> IsWhitespace(s[k])
    ensures i < |s| ==> !IsWhitespace(s[i])
  {
    if s != [] && IsWhitespace(s[0]) then 1 + TextStart(s[1..]) else 0
  }

  /** Where the text ends: every character from this position on is white space,
      and the character just before it (if any) is not. */
  function TextEnd(s: string): (j: nat)
    ensures j <= |s|
    ensures forall k :: j <= k < |s| ==> IsWhitespace(s[k])
    ensures 0 < j ==> !IsWhitespace(s[j - 1])
  {
    if s != [] && IsWhitespace(s[|s| - 1]) then TextEnd(s[..|s| - 1]) else |s|
  }

  /** `s.strip()`: the part between the leading and the trailing white space, so that
      neither end of the result is white space. */
  function Strip(s: string): (r: string)
    ensures |r| <= |s|
    ensures r == [] || (!IsWhitespace(r[0]) && !IsWhitespace(r[|r| - 1]))
  {
    var i, j := TextStart(s), TextEnd(s);
    if i < j then s[i..j] else []
  }

  /** Independent characterisation of `strip`: whenever `s` is white space up to `i`,
      then a part `s[i..j]` that neither starts nor ends with white space, then white
      space, the result is exactly that middle part. */
  lemma StripSlice(s: string, i: nat, j: nat)
    requires i <= j <= |s|
    requires forall k :: 0 <= k < i ==> IsWhitespace(s[k])
    requires forall k :: j <= k < |s| ==> IsWhitespace(s[k])
    requires i == j || (!IsWhitespace(s[i]) && !IsWhitespace(s[j - 1]))
    ensures Strip(s) == s[i..j]
  {
  }

  /** The blank check of the controller: the stripped text is empty exactly when
      every character of the input is white space. */
  lemma StripEmptyIff(s: string)
    ensures Strip(s) == [] <==> AllWhitespace(s)
  {
  }

  /** Stripping twice is stripping once. */
  lemma StripIdempotent(s: string)
    ensures Strip(Strip(s)) == Strip(s)
  {
    var r := Strip(s);
    StripSlice(r, 0, |r|);
    assert r[0..|r|] == r;
  }
}
