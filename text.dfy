/** The string operations of the Python standard library that the dashboard relies on. */
module Text {

  /** `s.endswith(suffix)`: `s` is some string followed by `suffix`. */
  function EndsWith(s: string, suffix: string): (r: bool)
    ensures r <==> |suffix| <= |s| && s == s[..|s| - |suffix|] + suffix
  {
    |suffix| <= |s| && s[|s| - |suffix|..] == suffix
  }

  /** Any string followed by `suffix` ends with it, and nothing shorter than `suffix` does. */
  lemma EndsWithConcat(t: string, suffix: string)
    ensures EndsWith(t + suffix, suffix)
    ensures forall s :: |s| < |suffix| ==> !EndsWith(s, suffix)
  {
    assert (t + suffix)[|t|..] == suffix;
  }

  /** The characters for which Python's `str.isspace()` holds; `str.strip()` removes these. */
  predicate IsSpace(c: char) {
    || c == ' ' || ('\t' <= c <= '\r')                 // space, \t \n \v \f \r
    || ('\U{1C}' <= c <= '\U{1F}')                     // file, group, record, unit separators
    || c == '\U{85}' || c == '\U{A0}' || c == '\U{1680}'
    || ('\U{2000}' <= c <= '\U{200A}')
    || c == '\U{2028}' || c == '\U{2029}' || c == '\U{202F}' || c == '\U{205F}' || c == '\U{3000}'
  }

  ghost predicate AllSpace(s: string) {
    forall k :: 0 <= k < |s| ==> IsSpace(s[k])
  }

  /** `s.lstrip()`: the longest suffix of `s` that does not start with whitespace. */
  function TrimStart(s: string): (r: string)
    ensures |r| <= |s| && r == s[|s| - |r|..]
    ensures forall k :: 0 <= k < |s| - |r| ==> IsSpace(s[k])
    ensures r == [] || !IsSpace(r[0])
  {
    if |s| > 0 && IsSpace(s[0]) then
      var r := TrimStart(s[1..]);
      assert forall k :: 0 <= k < |s| - 1 ==> s[1..][k] == s[k + 1];
      r
    else s
  }

  /** `s.rstrip()`: the longest prefix of `s` that does not end with whitespace. */
  function TrimEnd(s: string): (r: string)
    ensures |r| <= |s| && r == s[..|r|]
    ensures forall k :: |r| <= k < |s| ==> IsSpace(s[k])
    ensures r == [] || !IsSpace(r[|r| - 1])
  {
    if |s| > 0 && IsSpace(s[|s| - 1]) then TrimEnd(s[..|s| - 1]) else s
  }

  /** `s.strip()`. */
  function Strip(s: string): (r: string)
    ensures r == [] || (!IsSpace(r[0]) && !IsSpace(r[|r| - 1]))
  {
    TrimEnd(TrimStart(s))
  }

  /** TrimStart skips exactly a whitespace prefix that is followed by a non-whitespace character. */
  lemma {:induction false} TrimStartStopsAt(s: string, i: nat)
    requires i < |s| && AllSpace(s[..i]) && !IsSpace(s[i])
    ensures TrimStart(s) == s[i..]
  {
    if i > 0 {
      assert IsSpace(s[..i][0]);
      assert s[1..][..i - 1] == s[..i][1..];
      TrimStartStopsAt(s[1..], i - 1);
      assert s[1..][i - 1..] == s[i..];
    }
  }

  /** TrimEnd drops exactly a whitespace suffix that is preceded by a non-whitespace character. */
  lemma {:induction false} TrimEndStopsAt(s: string, j: nat)
    requires 0 < j <= |s| && AllSpace(s[j..]) && !IsSpace(s[j - 1])
    ensures TrimEnd(s) == s[..j]
  {
    if j < |s| {
      var n := |s| - 1;
      assert IsSpace(s[j..][n - j]);
      assert s[..n][j..] == s[j..][..n - j];
      TrimEndStopsAt(s[..n], j);
      assert s[..n][..j] == s[..j];
    }
  }

  /** A string made of whitespace only strips to nothing. */
  lemma {:induction false} TrimStartAllSpace(s: string)
    requires AllSpace(s)
    ensures TrimStart(s) == []
  {
    if |s| > 0 {
      assert IsSpace(s[0]);
      assert AllSpace(s[1..]) by {
        forall n | 0 <= n < |s| - 1 ensures IsSpace(s[1..][n]) { assert s[1..][n] == s[n + 1]; }
      }
      TrimStartAllSpace(s[1..]);
    }
  }

  /**
   * Strip removes exactly the whitespace border: whenever `s` is `s[..i]` (all whitespace),
   * `s[i..j]` (empty or neither starting nor ending with whitespace), and `s[j..]` (all
   * whitespace), Strip(s) is the middle part.
   */
  lemma StripIsMiddle(s: string, i: nat, j: nat)
    requires i <= j <= |s|
    requires AllSpace(s[..i]) && AllSpace(s[j..])
    requires i == j || (!IsSpace(s[i]) && !IsSpace(s[j - 1]))
    ensures Strip(s) == s[i..j]
  {
    if i == j {
      AllSpaceJoin(s, i);
      StripAllSpace(s);
    } else {
      StripBordered(s, i, j);
    }
  }

  /** A string made of whitespace only strips to nothing. */
  lemma StripAllSpace(s: string)
    requires AllSpace(s)
    ensures Strip(s) == []
  {
    TrimStartAllSpace(s);
  }

  /** With a non-whitespace character at both ends of `s[i..j]`, Strip keeps exactly that part. */
  lemma StripBordered(s: string, i: nat, j: nat)
    requires i < j <= |s|
    requires AllSpace(s[..i]) && AllSpace(s[j..])
    requires !IsSpace(s[i]) && !IsSpace(s[j - 1])
    ensures Strip(s) == s[i..j]
  {
    var t := s[i..];
    assert t[j - i..] == s[j..];
    assert t[j - i - 1] == s[j - 1];
    assert t[..j - i] == s[i..j];
    calc {
      Strip(s);
      TrimEnd(TrimStart(s));
      { TrimStartStopsAt(s, i); }
      TrimEnd(t);
      { TrimEndStopsAt(t, j - i); }
      t[..j - i];
    }
  }

  lemma AllSpaceJoin(s: string, i: nat)
    requires i <= |s| && AllSpace(s[..i]) && AllSpace(s[i..])
    ensures AllSpace(s)
  {
    forall n | 0 <= n < |s| ensures IsSpace(s[n]) {
      if n < i { assert s[n] == s[..i][n]; } else { assert s[n] == s[i..][n - i]; }
    }
  }

  /** Stripping twice strips nothing more. */
  lemma StripIdempotent(s: string)
    ensures Strip(Strip(s)) == Strip(s)
  {
    var r := Strip(s);
    assert r[..0] == [] && r[|r|..] == [];
    StripIsMiddle(r, 0, |r|);
  }

  /** The final component of a slash-separated path as written: the longest suffix without '/'. */
  function AfterLastSlash(p: string): (r: string)
    ensures '/' !in r
  {
    if |p| == 0 || p[|p| - 1] == '/' then "" else AfterLastSlash(p[..|p| - 1]) + [p[|p| - 1]]
  }

  /** `p` without its trailing slashes. */
  function DropTrailingSlashes(p: string): (r: string)
    ensures |r| <= |p| && r == p[..|r|]
    ensures r == [] || r[|r| - 1] != '/'
    ensures forall k :: |r| <= k < |p| ==> p[k] == '/'
  {
    if |p| > 0 && p[|p| - 1] == '/' then DropTrailingSlashes(p[..|p| - 1]) else p
  }

  /**
   * `pathlib.PurePosixPath(p).name`: pathlib drops empty and "." components, so the name is
   * the last component that is neither, or "" when there is none.
   */
  function PathName(p: string): (r: string)
    ensures '/' !in r && r != "."
    decreases |p|
  {
    var q := DropTrailingSlashes(p);
    var b := AfterLastSlash(q);
    if b == "." then PathName(q[..|q| - 1]) else b
  }

  /** When `p[i..]` holds no '/' and `p[i - 1]` is '/' (or `i` is 0), the last component is `p[i..]`. */
  lemma {:induction false} AfterLastSlashAt(p: string, i: nat)
    requires i <= |p| && (i == 0 || p[i - 1] == '/')
    requires forall k :: i <= k < |p| ==> p[k] != '/'
    ensures AfterLastSlash(p) == p[i..]
  {
    if i < |p| {
      var q := p[..|p| - 1];
      assert forall k :: i <= k < |q| ==> q[k] == p[k];
      AfterLastSlashAt(q, i);
      assert q[i..] + [p[|p| - 1]] == p[i..];
    }
  }

  /** For an ordinary file path, the name is the text after the last slash. */
  lemma PathNameOfFilePath(dir: string, file: string)
    requires file != "" && file != "." && '/' !in file
    requires dir == [] || dir[|dir| - 1] == '/'
    ensures PathName(dir + file) == file
  {
    var p := dir + file;
    assert p[|p| - 1] == file[|file| - 1];
    assert DropTrailingSlashes(p) == p;
    assert forall k :: |dir| <= k < |p| ==> p[k] == file[k - |dir|];
    AfterLastSlashAt(p, |dir|);
    assert p[|dir|..] == file;
  }

  /** Trailing slashes do not change the name: `PurePosixPath("a/b/").name == "b"`. */
  lemma PathNameTrailingSlash(p: string)
    ensures PathName(p + "/") == PathName(p)
  {
    var q := p + "/";
    assert q[..|q| - 1] == p;
    assert DropTrailingSlashes(q) == DropTrailingSlashes(p);
  }

  /** A trailing "." component does not change the name: `PurePosixPath("a/b/.").name == "b"`. */
  lemma PathNameTrailingDot(p: string)
    ensures PathName(p + "/.") == PathName(p)
  {
    var q := p + "/.";
    assert q[|q| - 1] == '.';
    assert DropTrailingSlashes(q) == q;
    assert q[..|q| - 1] == p + "/";
    assert AfterLastSlash(p + "/") == "";
    assert AfterLastSlash(q) == ".";
    PathNameTrailingSlash(p);
  }
}
