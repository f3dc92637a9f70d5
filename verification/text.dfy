/** The Python string operations the source relies on: `str.isspace`,
    `str.strip()`, `str.lower()`, `str.lstrip(c)`, `str.startswith`,
    `find`/`rfind` of one character, and POSIX `os.path.splitext`. */
module Text {
  import opened Results

  /** `c.isspace()` in Python: the characters `str.strip()` removes. */
  predicate IsSpace(c: char) {
    || ('\t' <= c <= '\r')
    || ('\U{1C}' <= c <= ' ')
    || c == '\U{85}' || c == '\U{A0}' || c == '\U{1680}'
    || ('\U{2000}' <= c <= '\U{200A}')
    || c == '\U{2028}' || c == '\U{2029}' || c == '\U{202F}' || c == '\U{205F}'
    || c == '\U{3000}'
  }

  predicate AllSpace(s: string) {
    forall k :: 0 <= k < |s| ==> IsSpace(s[k])
  }

  /** Number of whitespace characters at the front of `s`. */
  function LeadingSpace(s: string): (n: nat)
    ensures n <= |s|
    ensures forall k :: 0 <= k < n ==> IsSpace(s[k])
    ensures n < |s| ==> !IsSpace(s[n])
  {
    if |s| == 0 || !IsSpace(s[0]) then 0
    else
      var n := 1 + LeadingSpace(s[1..]);
      assert forall k :: 1 <= k < |s| ==> s[k] == s[1..][k - 1];
      n
  }

  /** Number of whitespace characters at the back of `s`. */
  function TrailingSpace(s: string): (n: nat)
    ensures n <= |s|
    ensures forall k :: |s| - n <= k < |s| ==> IsSpace(s[k])
    ensures n < |s| ==> !IsSpace(s[|s| - n - 1])
  {
    if |s| == 0 || !IsSpace(s[|s| - 1]) then 0
    else
      var p := s[..|s| - 1];
      var m := TrailingSpace(p);
      assert forall k :: 0 <= k < |p| ==> p[k] == s[k];
      m + 1
  }

  /** `s.strip()`: `s` without its leading and trailing whitespace. The
      result is the slice of `s` that starts after the leading whitespace;
      everything cut on either side is whitespace; nothing is left exactly
      when `s` is all whitespace, and otherwise the result neither starts
      nor ends with whitespace. */
  function Strip(s: string): (r: string)
    ensures LeadingSpace(s) + |r| <= |s|
    ensures r == s[LeadingSpace(s)..LeadingSpace(s) + |r|]
    ensures forall k :: LeadingSpace(s) + |r| <= k < |s| ==> IsSpace(s[k])
    ensures r == "" <==> AllSpace(s)
    ensures r != "" ==> !IsSpace(r[0]) && !IsSpace(r[|r| - 1])
  {
    var a, b := LeadingSpace(s), |s| - TrailingSpace(s);
    assert AllSpace(s) ==> a == |s|;
    if a < b then s[a..b] else ""
  }

  /** A text that neither starts nor ends with whitespace is its own
      `strip()`. */
  lemma StripKeepsUnspaced(s: string)
    requires s != "" && !IsSpace(s[0]) && !IsSpace(s[|s| - 1])
    ensures Strip(s) == s
  {
    assert LeadingSpace(s) == 0;
    assert s[0..] == s;
    assert TrailingSpace(s) == 0;
  }

  /** `c.lower()` restricted to ASCII letters. */
  function LowerChar(c: char): char {
    if 'A' <= c <= 'Z' then (c as int + 32) as char else c
  }

  /** `s.lower()`, character by character (ASCII letters only). */
  function Lower(s: string): (r: string)
    ensures |r| == |s|
    ensures forall i :: 0 <= i < |s| ==> r[i] == LowerChar(s[i])
  {
    seq(|s|, i requires 0 <= i < |s| => LowerChar(s[i]))
  }

  /** `s.lstrip(c)`: drops every leading `c`. */
  function LStripChar(s: string, c: char): (r: string)
    ensures |r| <= |s| && r == s[|s| - |r|..]
    ensures forall k :: 0 <= k < |s| - |r| ==> s[k] == c
    ensures r == "" || r[0] != c
  {
    if |s| > 0 && s[0] == c then LStripChar(s[1..], c) else s
  }

  /** `s.find(c)`: the first position of `c`, if any. */
  function IndexOf(s: string, c: char): (r: Option<nat>)
    ensures r.Some? ==> r.value < |s| && s[r.value] == c
    ensures r.Some? ==> forall k :: 0 <= k < r.value ==> s[k] != c
    ensures r.None? <==> forall k :: 0 <= k < |s| ==> s[k] != c
  {
    if |s| == 0 then None
    else if s[0] == c then Some(0)
    else
      match IndexOf(s[1..], c)
      case None => None
      case Some(i) => Some(i + 1)
  }

  /** `s.rfind(c)`: the last position of `c`, if any. */
  function LastIndexOf(s: string, c: char): (r: Option<nat>)
    ensures r.Some? ==> r.value < |s| && s[r.value] == c
    ensures r.Some? ==> forall k :: r.value < k < |s| ==> s[k] != c
    ensures r.None? <==> forall k :: 0 <= k < |s| ==> s[k] != c
  {
    if |s| == 0 then None
    else if s[|s| - 1] == c then Some(|s| - 1)
    else
      var r := LastIndexOf(s[..|s| - 1], c);
      assert forall k :: 0 <= k < |s| - 1 ==> s[k] == s[..|s| - 1][k];
      r
  }

  /** A root and an extension whose concatenation is the whole path. */
  datatype PathParts = PathParts(root: string, ext: string)

  predicate AllDots(s: string) {
    forall k :: 0 <= k < |s| ==> s[k] == '.'
  }

  /** Position `d` of `p` starts the extension `os.path.splitext` reports:
      it is a '.', no '.' or '/' follows it, and the last path component
      has some character other than '.' before it. */
  ghost predicate IsExtDot(p: string, d: int) {
    && 0 <= d < |p|
    && p[d] == '.'
    && (forall k :: d < k < |p| ==> p[k] != '.' && p[k] != '/')
    && (exists k :: 0 <= k < d && p[k] != '.' && p[k] != '/'
                     && forall m :: k < m < d ==> p[m] != '/')
  }

  /** Where the last path component of `p` begins: just after the last '/'. */
  function FileStart(p: string): (n: nat)
    ensures n <= |p|
    ensures forall k :: n <= k < |p| ==> p[k] != '/'
    ensures n > 0 ==> p[n - 1] == '/'
  {
    match LastIndexOf(p, '/') case None => 0 case Some(i) => i + 1
  }

  /** The test `os.path.splitext` performs (the last '.' lies after the last
      '/' and is preceded in its component by a character other than '.')
      picks out exactly the position `IsExtDot` describes. */
  lemma {:induction false} ExtDotIsLastDot(p: string, d: int)
    ensures IsExtDot(p, d) <==>
              && LastIndexOf(p, '.') == Some(d)
              && FileStart(p) <= d
              && !AllDots(p[FileStart(p)..d])
  {
    var fs := FileStart(p);
    if IsExtDot(p, d) {
      var k :| 0 <= k < d && p[k] != '.' && p[k] != '/'
               && forall m :: k < m < d ==> p[m] != '/';
      var last := LastIndexOf(p, '.');
      assert last.Some?;
      assert last.value == d;
      assert k >= fs;
      assert p[fs..d][k - fs] != '.';
    }
    if && LastIndexOf(p, '.') == Some(d) && fs <= d && !AllDots(p[fs..d]) {
      var k0 :| 0 <= k0 < d - fs && p[fs..d][k0] != '.';
      assert p[fs + k0] != '.' && p[fs + k0] != '/';
      assert forall m :: fs + k0 < m < d ==> p[m] != '/';
    }
  }

  /** `os.path.splitext(p)` on POSIX: the extension starts at the last '.'
      when that dot lies in the last path component and is not one of the
      component's leading dots; otherwise the extension is empty. */
  function SplitExt(p: string): (r: PathParts)
    ensures r.root + r.ext == p
    ensures r.ext != "" ==> IsExtDot(p, |r.root|)
    ensures r.ext == "" ==> forall d :: 0 <= d < |p| ==> !IsExtDot(p, d)
  {
    var fileStart := FileStart(p);
    match LastIndexOf(p, '.')
    case None => PathParts(p, "")
    case Some(d) =>
      ExtDotIsLastDot(p, d);
      if d >= fileStart && !AllDots(p[fileStart..d]) then
        PathParts(p[..d], p[d..])
      else
        assert forall d' :: 0 <= d' < |p| ==> !IsExtDot(p, d') by {
          forall d' | 0 <= d' < |p| ensures !IsExtDot(p, d') {
            ExtDotIsLastDot(p, d');
          }
        }
        PathParts(p, "")
  }
}
