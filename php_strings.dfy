/**
 * The PHP string built-ins the handlers rely on, on byte strings (one `char`
 * stands for one byte): `empty`, `trim`, `strtolower`, `end(explode(...))`,
 * `basename`, `pathinfo(..., PATHINFO_EXTENSION)` and `preg_match` with the
 * pattern `/^[A-Za-z0-9]+$/`.
 */
module PhpStrings {

  /** PHP `empty($s)` on a string: true for "" and for "0", false otherwise. */
  predicate Empty(s: string) {
    s == "" || s == "0"
  }

  /** The characters `trim()` strips by default: space, \t, \n, \r, \0 and \x0B. */
  predicate IsTrimChar(c: char) {
    c == ' ' || c == '\t' || c == '\n' || c == '\r' || c == '\0' || c == '\U{000B}'
  }

  predicate AllTrimChars(s: string) {
    forall k :: 0 <= k < |s| ==> IsTrimChar(s[k])
  }

  /** `ltrim($s)`: drops trim characters from the front while there are any. */
  function TrimLeft(s: string): string {
    if s != [] && IsTrimChar(s[0]) then TrimLeft(s[1..]) else s
  }

  /** `rtrim($s)`: drops trim characters from the back while there are any. */
  function TrimRight(s: string): string {
    if s != [] && IsTrimChar(s[|s| - 1]) then TrimRight(s[..|s| - 1]) else s
  }

  /** `ltrim` keeps the longest suffix that does not start with a trim character. */
  lemma {:induction false} TrimLeftSpec(s: string)
    ensures |TrimLeft(s)| <= |s| && TrimLeft(s) == s[|s| - |TrimLeft(s)|..]
    ensures AllTrimChars(s[..|s| - |TrimLeft(s)|])
    ensures TrimLeft(s) == [] || !IsTrimChar(TrimLeft(s)[0])
  {
    var t := TrimLeft(s);
    if s != [] && IsTrimChar(s[0]) {
      var rest := s[1..];
      TrimLeftSpec(rest);
      assert t == TrimLeft(rest);
      var n := |s| - |t|;
      assert rest[|rest| - |t|..] == s[n..];
      forall k | 0 <= k < n ensures IsTrimChar(s[..n][k]) {
        if k > 0 {
          assert s[..n][k] == rest[..n - 1][k - 1];
        }
      }
    } else {
      assert s[|s| - |t|..] == s;
    }
  }

  /** `rtrim` keeps the longest prefix that does not end with a trim character. */
  lemma {:induction false} TrimRightSpec(s: string)
    ensures |TrimRight(s)| <= |s| && TrimRight(s) == s[..|TrimRight(s)|]
    ensures AllTrimChars(s[|TrimRight(s)|..])
    ensures TrimRight(s) == [] || !IsTrimChar(TrimRight(s)[|TrimRight(s)| - 1])
  {
    var t := TrimRight(s);
    if s != [] && IsTrimChar(s[|s| - 1]) {
      var rest := s[..|s| - 1];
      TrimRightSpec(rest);
      assert t == TrimRight(rest);
      var n := |t|;
      assert rest[..n] == s[..n];
      forall k | 0 <= k < |s| - n ensures IsTrimChar(s[n..][k]) {
        if k < |s| - n - 1 {
          assert s[n..][k] == rest[n..][k];
        }
      }
    } else {
      assert s[..|t|] == s;
    }
  }

  /** `trim($s)`: `rtrim(ltrim($s))`. */
  function Trim(s: string): string {
    TrimRight(TrimLeft(s))
  }

  /**
   * `trim($s)` is the infix of `s` left once every leading and trailing trim
   * character is gone: nothing but trim characters lies around it, and it
   * neither starts nor ends with one.
   */
  lemma TrimSpec(s: string)
    ensures |Trim(s)| <= |s|
    ensures exists i ::
      0 <= i <= |s| - |Trim(s)| && s[i..i + |Trim(s)|] == Trim(s) && AllTrimChars(s[..i]) && AllTrimChars(s[i + |Trim(s)|..])
    ensures Trim(s) == [] || (!IsTrimChar(Trim(s)[0]) && !IsTrimChar(Trim(s)[|Trim(s)| - 1]))
  {
    var left := TrimLeft(s);
    TrimLeftSpec(s);
    TrimRightSpec(left);
    var r := TrimRight(left);
    var i := |s| - |left|;
    assert s[i..i + |r|] == r;
    assert s[i + |r|..] == left[|r|..];
  }

  /** A string with no trim character at either end is its own `trim`. */
  lemma TrimUnchanged(s: string)
    requires s == [] || (!IsTrimChar(s[0]) && !IsTrimChar(s[|s| - 1]))
    ensures Trim(s) == s
  {
    assert TrimLeft(s) == s;
  }

  predicate IsAsciiUpper(c: char) {
    'A' <= c <= 'Z'
  }

  /** `strtolower` on one byte: only the ASCII letters A-Z change. */
  function LowerChar(c: char): char {
    if IsAsciiUpper(c) then (c as int - 'A' as int + 'a' as int) as char else c
  }

  /**
   * `strtolower($s)`: every ASCII capital becomes its small letter, every other
   * byte is kept, so no capital is left.
   */
  function ToLower(s: string): (r: string)
    ensures |r| == |s|
    ensures forall k :: 0 <= k < |r| ==> !IsAsciiUpper(r[k])
    ensures forall k :: 0 <= k < |s| && !IsAsciiUpper(s[k]) ==> r[k] == s[k]
    ensures forall k :: 0 <= k < |s| && IsAsciiUpper(s[k]) ==> r[k] as int == s[k] as int + 32
  {
    seq(|s|, k requires 0 <= k < |s| => LowerChar(s[k]))
  }

  /** The position of the last `c` in `s`, or -1 when `s` holds no `c` (`strrpos`). */
  function LastIndexOf(s: string, c: char): (r: int)
    ensures -1 <= r < |s|
    ensures r >= 0 ==> s[r] == c
    ensures forall k :: r < k < |s| ==> s[k] != c
  {
    if s == [] then -1
    else if s[|s| - 1] == c then |s| - 1
    else LastIndexOf(s[..|s| - 1], c)
  }

  /** `end(explode($sep, $s))`: what follows the last `sep` in `s`. */
  function LastSegment(s: string, sep: char): string {
    s[LastIndexOf(s, sep) + 1..]
  }

  /**
   * The last segment holds no `sep` and ends `s`; it is preceded by a `sep`
   * when `s` holds one, and it is the whole of `s` when `s` holds none.
   */
  lemma LastSegmentSpec(s: string, sep: char)
    ensures sep !in LastSegment(s, sep)
    ensures |LastSegment(s, sep)| <= |s| && s[|s| - |LastSegment(s, sep)|..] == LastSegment(s, sep)
    ensures sep in s ==> |LastSegment(s, sep)| < |s| && s[|s| - |LastSegment(s, sep)| - 1] == sep
    ensures sep !in s ==> LastSegment(s, sep) == s
  {
    var i := LastIndexOf(s, sep);
    var seg := s[i + 1..];
    forall j | 0 <= j < |seg| ensures seg[j] != sep {
      assert seg[j] == s[i + 1 + j];
    }
    if i == -1 {
      assert seg == s;
    } else {
      assert s[i] == sep;
    }
  }

  /** `rtrim($p, '/')`, the first step of PHP's `basename`. */
  function StripTrailingSlashes(p: string): string {
    if p != [] && p[|p| - 1] == '/' then StripTrailingSlashes(p[..|p| - 1]) else p
  }

  /** PHP `basename($p)` for '/'-separated paths: the last non-empty path component. */
  function Basename(p: string): string {
    LastSegment(StripTrailingSlashes(p), '/')
  }

  /**
   * `pathinfo($p, PATHINFO_EXTENSION)`: what follows the last '.' of the
   * basename, or "" when the basename holds no '.'.
   */
  function PathinfoExtension(p: string): string {
    var b := Basename(p);
    if '.' in b then LastSegment(b, '.') else ""
  }

  /** A character absent from `s` is absent from every suffix of `s`. */
  lemma SuffixKeepsAbsent(s: string, t: string, c: char)
    requires c !in s
    requires |t| <= |s| && s[|s| - |t|..] == t
    ensures c !in t
  {
    forall k | 0 <= k < |t| ensures t[k] != c {
      assert t[k] == s[|s| - |t| + k];
    }
  }

  /** An extension never holds a '.' or a '/'. */
  lemma PathinfoExtensionSpec(p: string)
    ensures '.' !in PathinfoExtension(p) && '/' !in PathinfoExtension(p)
  {
    var b := Basename(p);
    LastSegmentSpec(StripTrailingSlashes(p), '/');
    assert '/' !in b;
    if '.' in b {
      var e := LastSegment(b, '.');
      LastSegmentSpec(b, '.');
      SuffixKeepsAbsent(b, e, '/');
    }
  }

  /** `s` ends with `[sep] + tail`, and `tail` holds no `sep`: then `tail` is the last segment. */
  lemma LastSegmentOfSuffix(pre: string, sep: char, tail: string)
    requires sep !in tail
    ensures LastSegment(pre + [sep] + tail, sep) == tail
  {
    var s := pre + [sep] + tail;
    assert s[|pre|] == sep;
    assert s[|s| - |tail|..] == tail;
  }

  /**
   * A path that ends in `"." + ext`, with `ext` non-empty and free of '.' and
   * '/', has `ext` as its `pathinfo` extension, whatever comes before it.
   */
  lemma {:induction false} PathinfoExtensionOfSuffix(pre: string, ext: string)
    requires ext != [] && '.' !in ext && '/' !in ext
    ensures PathinfoExtension(pre + "." + ext) == ext
  {
    var p := pre + "." + ext;
    assert p[|p| - 1] == ext[|ext| - 1];
    var q := StripTrailingSlashes(p);
    assert q == p;
    var b := Basename(p);
    LastSegmentSpec(q, '/');
    assert |b| <= |p| && p[|p| - |b|..] == b;
    var bpre := b[..|b| - |ext| - 1];
    assert b == bpre + "." + ext by {
      assert b[|b| - |ext| - 1] == p[|pre|];
      assert b[|b| - |ext|..] == ext;
    }
    assert '.' in b by {
      assert b[|b| - |ext| - 1] == '.';
    }
    LastSegmentOfSuffix(bpre, '.', ext);
  }

  predicate IsAsciiAlnum(c: char) {
    'A' <= c <= 'Z' || 'a' <= c <= 'z' || '0' <= c <= '9'
  }

  predicate AllAlnum(s: string) {
    forall k :: 0 <= k < |s| ==> IsAsciiAlnum(s[k])
  }

  /**
   * The meaning of `/^[A-Za-z0-9]+$/` under PCRE: a non-empty run of ASCII
   * letters and digits from the start, followed by the end of the subject or
   * by one final newline (PCRE's `$` also matches before a trailing "\n").
   */
  ghost predicate AlnumPatternSpec(s: string) {
    exists n :: 1 <= n <= |s| && AllAlnum(s[..n]) && (s[n..] == "" || s[n..] == "\n")
  }

  /** `preg_match("/^[A-Za-z0-9]+$/", $s) === 1`. */
  predicate MatchesAlnumPattern(s: string) {
    var body := if s != [] && s[|s| - 1] == '\n' then s[..|s| - 1] else s;
    body != [] && AllAlnum(body)
  }

  /** The matcher accepts exactly the subjects the PCRE pattern matches. */
  lemma MatchesAlnumPatternIff(s: string)
    ensures MatchesAlnumPattern(s) <==> AlnumPatternSpec(s)
  {
    if MatchesAlnumPattern(s) {
      var n := if s[|s| - 1] == '\n' then |s| - 1 else |s|;
      assert s[..n] == (if s[|s| - 1] == '\n' then s[..|s| - 1] else s);
      assert 1 <= n <= |s| && AllAlnum(s[..n]) && (s[n..] == "" || s[n..] == "\n");
    }
    if AlnumPatternSpec(s) {
      var n :| 1 <= n <= |s| && AllAlnum(s[..n]) && (s[n..] == "" || s[n..] == "\n");
      if s[n..] == "" {
        assert s[..n] == s;
        assert s[|s| - 1] == s[..n][n - 1];
      } else {
        assert s[|s| - 1] == s[n..][0] == '\n';
        assert s[..|s| - 1] == s[..n];
      }
    }
  }

  /**
   * Any byte outside [A-Za-z0-9] makes the pattern fail, except a single
   * newline in the last position.
   */
  lemma SpecialCharRejected(s: string, k: nat)
    requires k < |s| && !IsAsciiAlnum(s[k])
    requires k < |s| - 1 || s[k] != '\n'
    ensures !MatchesAlnumPattern(s)
  {
  }
}
