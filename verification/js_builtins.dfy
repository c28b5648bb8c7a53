/** The JavaScript built-ins the uploader's logic depends on, with the
    semantics ECMAScript gives them: `String.prototype.startsWith`,
    `String.prototype.trim` and `Array.prototype.slice`. */
module JsBuiltins {

  /** `s.startsWith(prefix)`: a case-sensitive prefix test. JavaScript compares
      UTF-16 code units and a Dafny `char` is a Unicode scalar value; for
      well-formed strings and the ASCII prefixes used here the two agree. */
  predicate StartsWith(s: string, prefix: string) {
    |prefix| <= |s| && s[..|prefix|] == prefix
  }

  /** The characters `trim` removes: ECMAScript WhiteSpace (TAB, VT, FF,
      ZWNBSP and every space separator) and LineTerminator (LF, CR, LS, PS). */
  predicate IsTrimmable(c: char) {
    var n := c as int;
    || n == 0x09 || n == 0x0A || n == 0x0B || n == 0x0C || n == 0x0D
    || n == 0x20 || n == 0xA0 || n == 0x1680
    || (0x2000 <= n <= 0x200A)
    || n == 0x2028 || n == 0x2029 || n == 0x202F || n == 0x205F
    || n == 0x3000 || n == 0xFEFF
  }

  /** How many trimmable characters open `s`. */
  function LeadingCount(s: string): (n: nat)
    ensures n <= |s|
    ensures forall i :: 0 <= i < n ==> IsTrimmable(s[i])
    ensures n < |s| ==> !IsTrimmable(s[n])
  {
    if |s| > 0 && IsTrimmable(s[0]) then 1 + LeadingCount(s[1..]) else 0
  }

  /** Where the run of trimmable characters that closes `s` begins. */
  function TrailingStart(s: string): (n: nat)
    ensures n <= |s|
    ensures forall i :: n <= i < |s| ==> IsTrimmable(s[i])
    ensures n > 0 ==> !IsTrimmable(s[n - 1])
  {
    if |s| > 0 && IsTrimmable(s[|s| - 1]) then TrailingStart(s[..|s| - 1]) else |s|
  }

  /** `s.trim()`: the longest infix of `s` that neither starts nor ends with a
      trimmable character, everything cut away being trimmable. */
  function Trim(s: string): (r: string)
    ensures |r| <= |s|
    ensures var lo := LeadingCount(s);
      && lo + |r| <= |s|
      && r == s[lo..lo + |r|]
      && (forall i :: 0 <= i < lo ==> IsTrimmable(s[i]))
      && (forall i :: lo + |r| <= i < |s| ==> IsTrimmable(s[i]))
    ensures |r| > 0 ==> !IsTrimmable(r[0]) && !IsTrimmable(r[|r| - 1])
    ensures |r| == 0 <==> forall i :: 0 <= i < |s| ==> IsTrimmable(s[i])
  {
    var lo := LeadingCount(s);
    if lo == |s| then [] else s[lo..TrailingStart(s)]
  }

  /** Trimming twice is trimming once. */
  lemma TrimIdempotent(s: string)
    ensures Trim(Trim(s)) == Trim(s)
  {
    var r := Trim(s);
    if |r| > 0 {
      assert LeadingCount(r) == 0;
      assert TrailingStart(r) == |r|;
    }
  }

  /** Resolves a relative array index as `slice` does: a negative index counts
      back from the end, and the result is clamped to `[0, len]`. */
  function RelativeIndex(i: int, len: nat): (r: nat)
    ensures r <= len
  {
    if i < 0 then (if len + i < 0 then 0 else len + i) else if i > len then len else i
  }

  /** `s.slice(start, end)`. */
  function Slice<T>(s: seq<T>, start: int, end: int): seq<T> {
    var lo, hi := RelativeIndex(start, |s|), RelativeIndex(end, |s|);
    if lo < hi then s[lo..hi] else []
  }

  /** `s.slice(start)`. */
  function SliceFrom<T>(s: seq<T>, start: int): seq<T> {
    Slice(s, start, |s|)
  }
}
