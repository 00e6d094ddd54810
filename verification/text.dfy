/** The few JavaScript string operations the backend's rules rest on:
    `<` on strings, `indexOf`/`split(sep)[0]`, `includes` and `trim() !== ""`. */
module Text {

  /** JavaScript's `a < b` on strings: code unit by code unit, a proper
      prefix before its extensions. */
  predicate LexLess(a: string, b: string) {
    if |a| == 0 then |b| > 0
    else if |b| == 0 then false
    else if a[0] != b[0] then a[0] < b[0]
    else LexLess(a[1..], b[1..])
  }

  /** Whether `sep` occurs in `s` starting at index `i`. */
  predicate OccursAt(s: string, sep: string, i: int) {
    0 <= i && i + |sep| <= |s| && s[i..i + |sep|] == sep
  }

  /** The first index at or after `from` where `sep` occurs in `s`, or `|s|`
      when there is none. */
  function FirstOccurrence(s: string, sep: string, from: nat): (i: nat)
    requires |sep| > 0 && from <= |s|
    ensures from <= i <= |s|
    ensures i < |s| ==> OccursAt(s, sep, i)
    ensures forall j :: from <= j < i ==> !OccursAt(s, sep, j)
    decreases |s| - from
  {
    if from + |sep| > |s| then |s|
    else if s[from..from + |sep|] == sep then from
    else FirstOccurrence(s, sep, from + 1)
  }

  /** `s.split(sep)[0]`: the text before the first `sep`, or all of `s`. */
  function BeforeFirst(s: string, sep: string): (r: string)
    requires |sep| > 0
    ensures r <= s
    ensures |r| < |s| ==> OccursAt(s, sep, |r|)
    ensures forall j :: 0 <= j < |r| ==> !OccursAt(s, sep, j)
  {
    s[..FirstOccurrence(s, sep, 0)]
  }

  /** `s.includes(t)` for a non-empty `t`. */
  predicate Contains(s: string, t: string)
    requires |t| > 0
    ensures Contains(s, t) <==> exists j :: OccursAt(s, t, j)
  {
    FirstOccurrence(s, t, 0) < |s|
  }

  predicate IsSpace(c: char) {
    c == ' ' || c == '\t' || c == '\n' || c == '\r'
  }

  /** `s.trim() === ""`. */
  predicate Blank(s: string) {
    forall i :: 0 <= i < |s| ==> IsSpace(s[i])
  }

  /** Drops the leading white space. */
  function TrimStart(s: string): (r: string)
    ensures |r| <= |s| && r == s[|s| - |r|..]
    ensures r == [] || !IsSpace(r[0])
    ensures forall i :: 0 <= i < |s| - |r| ==> IsSpace(s[i])
  {
    if |s| > 0 && IsSpace(s[0]) then TrimStart(s[1..]) else s
  }

  /** Drops the trailing white space. */
  function TrimEnd(s: string): (r: string)
    ensures |r| <= |s| && r == s[..|r|]
    ensures r == [] || !IsSpace(r[|r| - 1])
    ensures forall i :: |r| <= i < |s| ==> IsSpace(s[i])
  {
    if |s| > 0 && IsSpace(s[|s| - 1]) then TrimEnd(s[..|s| - 1]) else s
  }

  /** `s.trim()`: the text between the leading and the trailing white
      space. */
  function Trim(s: string): (r: string)
    ensures r == [] || (!IsSpace(r[0]) && !IsSpace(r[|r| - 1]))
  {
    TrimEnd(TrimStart(s))
  }

  /** Trimming leaves nothing exactly when the text is all white space. */
  lemma TrimEmpty(s: string)
    ensures Trim(s) == "" <==> Blank(s)
  {
    var t := TrimStart(s);
    if Trim(s) == "" {
      // a kept first character is not white space, so nothing was kept
      assert |t| == 0;
    }
  }

  /** The kept text is a piece of the original, with only white space cut
      away on either side. */
  lemma TrimInfix(s: string) returns (i: nat)
    ensures i + |Trim(s)| <= |s| && Trim(s) == s[i..i + |Trim(s)|]
    ensures forall k :: 0 <= k < i ==> IsSpace(s[k])
    ensures forall k :: i + |Trim(s)| <= k < |s| ==> IsSpace(s[k])
  {
    var t := TrimStart(s);
    i := |s| - |t|;
    var r := TrimEnd(t);
    assert r == t[..|r|];
    assert s[i..i + |r|] == t[..|r|];
    forall k | i + |r| <= k < |s|
      ensures IsSpace(s[k])
    {
      assert s[k] == t[k - i];
    }
  }
}
