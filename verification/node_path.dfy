/**
 * The two functions of Node's `path` module the server uses, `extname` and
 * `isAbsolute`. Node picks the win32 rules when `process.platform` is
 * `win32` and the POSIX rules otherwise, so both take the platform as a
 * parameter.
 */
module NodePath {
  import opened Wrappers
  import opened Text

  /** The values `process.platform` can take. */
  datatype Platform = Aix | Android | Darwin | FreeBsd | Linux | OpenBsd | SunOs | Win32

  /** POSIX paths separate on `/`; win32 paths on `/` and `\`. */
  predicate IsSeparator(p: Platform, c: char) {
    c == '/' || (p == Win32 && c == '\\')
  }

  predicate IsDriveLetter(c: char) {
    'A' <= c <= 'Z' || 'a' <= c <= 'z'
  }

  /** The length of a win32 drive prefix such as `C:`, which `extname` skips; zero elsewhere. */
  function DriveLength(p: Platform, s: string): (n: nat)
    ensures n <= |s|
  {
    if p == Win32 && |s| >= 2 && s[1] == ':' && IsDriveLetter(s[0]) then 2 else 0
  }

  /** `s` without its trailing separators, which `extname` disregards. */
  function StripTrailingSeparators(p: Platform, s: string): string {
    if s != [] && IsSeparator(p, s[|s| - 1]) then StripTrailingSeparators(p, s[..|s| - 1]) else s
  }

  /** The part of `s` after its last separator. */
  function LastSegment(p: Platform, s: string): string {
    if s == [] || IsSeparator(p, s[|s| - 1]) then []
    else LastSegment(p, s[..|s| - 1]) + [s[|s| - 1]]
  }

  /** The index of the last `.` of `seg`, if any. */
  function LastDot(seg: string): Option<nat> {
    if seg == [] then None
    else if seg[|seg| - 1] == '.' then Some(|seg| - 1)
    else LastDot(seg[..|seg| - 1])
  }

  /**
   * The extension of one path segment: from its last `.` on, but nothing when
   * that `.` opens the segment (`.bashrc`) or the segment is `..`.
   */
  function SegmentExtension(seg: string): string {
    match LastDot(seg)
    case None => ""
    case Some(d) => if d < |seg| && d != 0 && seg != ".." then seg[d..] else ""
  }

  /**
   * `path.extname(s)`: the extension of the last segment, trailing separators
   * (and on win32 a drive prefix) disregarded. A non-empty result is a single
   * `.` followed by characters that are neither dots nor separators.
   */
  function Extname(p: Platform, s: string): (r: string)
    ensures r == [] || (r[0] == '.' && '.' !in r[1..])
    ensures forall i :: 0 <= i < |r| ==> !IsSeparator(p, r[i])
  {
    var seg := LastSegment(p, StripTrailingSeparators(p, s[DriveLength(p, s)..]));
    LastSegmentShape(p, StripTrailingSeparators(p, s[DriveLength(p, s)..]));
    LastDotShape(seg);
    SegmentExtension(seg)
  }

  predicate IsSuffix(a: string, s: string) {
    |a| <= |s| && s[|s| - |a|..] == a
  }

  lemma SuffixTransitive(a: string, b: string, c: string)
    requires IsSuffix(a, b) && IsSuffix(b, c)
    ensures IsSuffix(a, c)
  {
    assert c[|c| - |a|..] == c[|c| - |b|..][|b| - |a|..];
  }

  /** Stripping removes separators from the end only, and leaves a string that does not end in one. */
  lemma {:induction false} StripTrailingShape(p: Platform, s: string)
    ensures var r := StripTrailingSeparators(p, s);
      |r| <= |s| && r == s[..|r|] && (r == [] || !IsSeparator(p, r[|r| - 1]))
    ensures s == [] || !IsSeparator(p, s[|s| - 1]) ==> StripTrailingSeparators(p, s) == s
    decreases |s|
  {
    if s != [] && IsSeparator(p, s[|s| - 1]) {
      StripTrailingShape(p, s[..|s| - 1]);
      var r := StripTrailingSeparators(p, s[..|s| - 1]);
      assert s[..|s| - 1][..|r|] == s[..|r|];
    }
  }

  /** The last segment is a suffix free of separators. */
  lemma {:induction false} LastSegmentShape(p: Platform, s: string)
    ensures IsSuffix(LastSegment(p, s), s)
    ensures forall i :: 0 <= i < |LastSegment(p, s)| ==> !IsSeparator(p, LastSegment(p, s)[i])
    decreases |s|
  {
    if s != [] && !IsSeparator(p, s[|s| - 1]) {
      var t, c := s[..|s| - 1], s[|s| - 1];
      LastSegmentShape(p, t);
      var r' := LastSegment(p, t);
      assert LastSegment(p, s) == r' + [c];
      assert s[|s| - |r'| - 1..] == t[|t| - |r'|..] + [c];
    }
  }

  /** `LastDot` finds a dot with no dot after it, or reports that there is none. */
  lemma {:induction false} LastDotShape(seg: string)
    ensures LastDot(seg).None? <==> '.' !in seg
    ensures LastDot(seg).Some? ==>
      var d := LastDot(seg).value;
      d < |seg| && seg[d] == '.' && '.' !in seg[d + 1..]
    decreases |seg|
  {
    if seg != [] && seg[|seg| - 1] != '.' {
      var init := seg[..|seg| - 1];
      LastDotShape(init);
      assert seg == init + [seg[|seg| - 1]];
      var r := LastDot(init);
      if r.Some? {
        assert seg[r.value + 1..] == init[r.value + 1..] + [seg[|seg| - 1]];
      }
    }
  }

  /** The extension of a segment is a suffix of it. */
  lemma SegmentExtensionIsSuffix(seg: string)
    ensures IsSuffix(SegmentExtension(seg), seg)
  {
  }

  /**
   * `path.isAbsolute(s)`: on POSIX, `s` starts with `/`; on win32, `s` starts
   * with a separator or with a drive letter, a colon and a separator.
   */
  predicate IsAbsolute(p: Platform, s: string) {
    if p == Win32 then
      |s| > 0 && (IsSeparator(p, s[0]) || (|s| > 2 && IsDriveLetter(s[0]) && s[1] == ':' && IsSeparator(p, s[2])))
    else
      |s| > 0 && s[0] == '/'
  }

  // ---------------------------------------------------------------------
  // Properties
  // ---------------------------------------------------------------------

  /** When `s` does not end in a separator, its extension is a suffix of `s`. */
  lemma ExtnameIsSuffix(p: Platform, s: string)
    requires s == [] || !IsSeparator(p, s[|s| - 1])
    ensures EndsWith(s, Extname(p, s))
  {
    var body := s[DriveLength(p, s)..];
    assert body == [] || body[|body| - 1] == s[|s| - 1];
    StripTrailingShape(p, body);
    var seg := LastSegment(p, body);
    LastSegmentShape(p, body);
    assert IsSuffix(body, s);
    SuffixTransitive(seg, body, s);
    SegmentExtensionIsSuffix(seg);
    SuffixTransitive(SegmentExtension(seg), seg, s);
  }

  /** Folding letters changes no separator. */
  lemma LowerKeepsSeparators(p: Platform, c: char)
    ensures IsSeparator(p, LowerChar(c)) == IsSeparator(p, c)
    ensures (LowerChar(c) == '.') == (c == '.')
    ensures (LowerChar(c) == ':') == (c == ':')
    ensures IsDriveLetter(LowerChar(c)) == IsDriveLetter(c)
  {
  }

  lemma {:induction false} StripTrailingLower(p: Platform, s: string)
    ensures StripTrailingSeparators(p, Lower(s)) == Lower(StripTrailingSeparators(p, s))
    decreases |s|
  {
    if s != [] {
      LowerKeepsSeparators(p, s[|s| - 1]);
      if IsSeparator(p, s[|s| - 1]) {
        var t := s[..|s| - 1];
        StripTrailingLower(p, t);
        LowerButLast(s);
        var ls := Lower(t) + [LowerChar(s[|s| - 1])];
        assert ls[..|ls| - 1] == Lower(t);
      }
    }
  }

  lemma {:induction false} LastSegmentLower(p: Platform, s: string)
    ensures LastSegment(p, Lower(s)) == Lower(LastSegment(p, s))
    decreases |s|
  {
    if s != [] {
      var t, c := s[..|s| - 1], s[|s| - 1];
      LowerKeepsSeparators(p, c);
      if !IsSeparator(p, c) {
        LastSegmentLower(p, t);
        LowerButLast(s);
        var ls := Lower(t) + [LowerChar(c)];
        assert ls[..|ls| - 1] == Lower(t);
        assert LastSegment(p, ls) == LastSegment(p, Lower(t)) + [LowerChar(c)];
        LowerSnoc(LastSegment(p, t), c);
      }
    }
  }

  lemma {:induction false} LastDotLower(seg: string)
    ensures LastDot(Lower(seg)) == LastDot(seg)
    decreases |seg|
  {
    if seg != [] {
      LowerKeepsSeparators(Linux, seg[|seg| - 1]);
      if seg[|seg| - 1] != '.' {
        LastDotLower(seg[..|seg| - 1]);
        assert Lower(seg)[..|seg| - 1] == Lower(seg[..|seg| - 1]);
      }
    }
  }

  lemma SegmentExtensionLower(seg: string)
    ensures SegmentExtension(Lower(seg)) == Lower(SegmentExtension(seg))
  {
    LastDotLower(seg);
    if |seg| == 2 {
      LowerKeepsSeparators(Linux, seg[0]);
      LowerKeepsSeparators(Linux, seg[1]);
      assert (Lower(seg) == "..") == (seg == "..");
    }
    match LastDot(seg)
    case None =>
    case Some(d) =>
      if d < |seg| && d != 0 && seg != ".." {
        LowerSlice(seg, d, |seg|);
      }
  }

  lemma DriveLengthLower(p: Platform, s: string)
    ensures DriveLength(p, Lower(s)) == DriveLength(p, s)
  {
    if |s| >= 2 {
      LowerKeepsSeparators(p, s[0]);
      LowerKeepsSeparators(p, s[1]);
    }
  }

  /** The extension of a lower-cased path is the lower-cased extension. */
  lemma ExtnameLower(p: Platform, s: string)
    ensures Extname(p, Lower(s)) == Lower(Extname(p, s))
  {
    var k := DriveLength(p, s);
    var body := s[k..];
    var stripped := StripTrailingSeparators(p, body);
    var seg := LastSegment(p, stripped);
    assert Lower(s)[DriveLength(p, Lower(s))..] == Lower(body) by {
      DriveLengthLower(p, s);
      LowerSlice(s, k, |s|);
    }
    assert StripTrailingSeparators(p, Lower(body)) == Lower(stripped) by {
      StripTrailingLower(p, body);
    }
    assert LastSegment(p, Lower(stripped)) == Lower(seg) by {
      LastSegmentLower(p, stripped);
    }
    assert SegmentExtension(Lower(seg)) == Lower(SegmentExtension(seg)) by {
      SegmentExtensionLower(seg);
    }
  }

  /** Whether a path is absolute does not depend on the case of its letters. */
  lemma IsAbsoluteLower(p: Platform, s: string)
    ensures IsAbsolute(p, Lower(s)) == IsAbsolute(p, s)
  {
    if |s| > 0 { LowerKeepsSeparators(p, s[0]); }
    if |s| > 2 {
      LowerKeepsSeparators(p, s[1]);
      LowerKeepsSeparators(p, s[2]);
    }
  }

  /** The last segment starts right after the separator at `k` (or at the start when `k` is -1). */
  lemma {:induction false} LastSegmentFrom(p: Platform, s: string, k: int)
    requires -1 <= k < |s|
    requires k == -1 || IsSeparator(p, s[k])
    requires forall j :: k < j < |s| ==> !IsSeparator(p, s[j])
    ensures LastSegment(p, s) == s[k + 1..]
    decreases |s|
  {
    if |s| - 1 > k {
      var t := s[..|s| - 1];
      LastSegmentFrom(p, t, k);
      assert t[k + 1..] + [s[|s| - 1]] == s[k + 1..];
    }
  }

  /** The last dot of `seg` is at `d` when no dot follows it. */
  lemma {:induction false} LastDotFrom(seg: string, d: nat)
    requires d < |seg| && seg[d] == '.'
    requires forall j :: d < j < |seg| ==> seg[j] != '.'
    ensures LastDot(seg) == Some(d)
    decreases |seg|
  {
    if |seg| - 1 > d {
      LastDotFrom(seg[..|seg| - 1], d);
    }
  }

  /**
   * The extension of a path that has no drive prefix and no trailing
   * separator is that of the segment after its last separator, at `k`.
   */
  lemma ExtnameAt(p: Platform, s: string, k: int)
    requires DriveLength(p, s) == 0
    requires s != [] && !IsSeparator(p, s[|s| - 1])
    requires -1 <= k < |s| && (k == -1 || IsSeparator(p, s[k]))
    requires forall j :: k < j < |s| ==> !IsSeparator(p, s[j])
    ensures Extname(p, s) == SegmentExtension(s[k + 1..])
  {
    assert s[0..] == s;
    StripTrailingShape(p, s);
    LastSegmentFrom(p, s, k);
  }

  /** A segment whose last dot is at `d` > 0 has the extension starting there, unless it is `..`. */
  lemma SegmentExtensionAt(seg: string, d: nat)
    requires 0 < d < |seg| && seg[d] == '.'
    requires forall j :: d < j < |seg| ==> seg[j] != '.'
    ensures SegmentExtension(seg) == if seg == ".." then "" else seg[d..]
  {
    LastDotFrom(seg, d);
  }

  /** `..` has no extension, although its last dot does not open it. */
  lemma ExtnameDotDot(p: Platform)
    ensures Extname(p, "..") == ""
  {
    ExtnameAt(p, "..", -1);
    assert ".."[0..] == "..";
    SegmentExtensionAt("..", 1);
  }

  /** A dot-file has no extension. */
  lemma ExtnameDotFile(p: Platform)
    ensures Extname(p, ".bashrc") == ""
  {
    var s := ".bashrc";
    ExtnameAt(p, s, -1);
    assert s[0..] == s;
    LastDotFrom(s, 0);
  }

  /** Only the last dot counts. */
  lemma ExtnameLastDot(p: Platform)
    ensures Extname(p, "a.tar.gz") == ".gz"
  {
    var s := "a.tar.gz";
    ExtnameAt(p, s, -1);
    assert s[0..] == s;
    SegmentExtensionAt(s, 5);
    assert s[5..] == ".gz";
  }
}
