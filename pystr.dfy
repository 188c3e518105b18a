/** Models of the Python `str` methods that the handler calls. */
module PyStr {

  /**
   * The characters for which Python's `str.isspace` holds, the ones that
   * `str.strip()` with no argument removes: Unicode whitespace and the
   * ASCII separators 0x1C to 0x1F.
   */
  const Whitespace: set<char> := {
    '\t', '\n', '\U{0B}', '\U{0C}', '\r', '\U{1C}', '\U{1D}', '\U{1E}', '\U{1F}', ' ',
    '\U{85}', '\U{A0}', '\U{1680}',
    '\U{2000}', '\U{2001}', '\U{2002}', '\U{2003}', '\U{2004}', '\U{2005}',
    '\U{2006}', '\U{2007}', '\U{2008}', '\U{2009}', '\U{200A}',
    '\U{2028}', '\U{2029}', '\U{202F}', '\U{205F}', '\U{3000}'
  }

  /** `c.isspace()`. */
  predicate IsSpace(c: char) {
    c in Whitespace
  }

  /** Every character of `s` is whitespace (true of the empty string). */
  predicate AllSpace(s: string) {
    forall k :: 0 <= k < |s| ==> IsSpace(s[k])
  }

  /** The length of the longest all-whitespace prefix of `s`. */
  function LeadingSpace(s: string): (n: nat)
    ensures n <= |s|
    ensures AllSpace(s[..n])
    ensures n < |s| ==> !IsSpace(s[n])
    decreases |s|
  {
    if s != [] && IsSpace(s[0]) then
      var tail := s[1..];
      var m := LeadingSpace(tail);
      assert s[..m + 1] == [s[0]] + tail[..m];
      AllSpaceConcat([s[0]], tail[..m]);
      m + 1
    else 0
  }

  /** Where the longest all-whitespace suffix of `s` starts. */
  function TrailingStart(s: string): (e: nat)
    ensures e <= |s|
    ensures AllSpace(s[e..])
    ensures 0 < e ==> !IsSpace(s[e - 1])
    decreases |s|
  {
    if s != [] && IsSpace(s[|s| - 1]) then
      var init := s[..|s| - 1];
      var e := TrailingStart(init);
      assert s[e..] == init[e..] + [s[|s| - 1]];
      AllSpaceConcat(init[e..], [s[|s| - 1]]);
      assert 0 < e ==> s[e - 1] == init[e - 1];
      e
    else |s|
  }

  /** `s.strip()`: `s` without its leading and trailing whitespace. */
  function Strip(s: string): (r: string)
    ensures r == [] <==> AllSpace(s)
    ensures r != [] ==> !IsSpace(r[0]) && !IsSpace(r[|r| - 1])
  {
    var lead := LeadingSpace(s);
    var rest := s[lead..];
    var r := rest[..TrailingStart(rest)];
    assert s == s[..lead] + rest;
    if r == [] then
      assert rest[TrailingStart(rest)..] == rest;
      AllSpaceConcat(s[..lead], rest);
      r
    else
      r
  }

  lemma AllSpaceConcat(a: string, b: string)
    requires AllSpace(a) && AllSpace(b)
    ensures AllSpace(a + b)
  {
    forall k | 0 <= k < |a + b| ensures IsSpace((a + b)[k]) {
      if k < |a| { assert (a + b)[k] == a[k]; } else { assert (a + b)[k] == b[k - |a|]; }
    }
  }

  /** The number of occurrences of `c` in `s`. */
  function Count(s: string, c: char): (n: nat)
    ensures n <= |s|
    ensures n == 0 <==> c !in s
    decreases |s|
  {
    if s == [] then 0
    else (if s[0] == c then 1 else 0) + Count(s[1..], c)
  }

  /**
   * `s.replace(pattern, replacement)`: scanning from the left, every
   * occurrence of `pattern` that does not overlap an earlier replaced one
   * becomes `replacement`.
   */
  function Replace(s: string, pattern: string, replacement: string): string
    requires pattern != []
    decreases |s|
  {
    if |s| < |pattern| then s
    else if s[..|pattern|] == pattern then replacement + Replace(s[|pattern|..], pattern, replacement)
    else [s[0]] + Replace(s[1..], pattern, replacement)
  }
}
