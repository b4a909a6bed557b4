/**
 * Upload-filename validation of the serving endpoint: a file is accepted
 * only when its name has a dot and the text after the last dot,
 * lower-cased, is one of the allowed image extensions.
 */
module Upload {
  import opened Wrappers

  /** The extensions an upload may carry: lower-case, without the dot. */
  const AllowedExtensions: set<string> := {"png", "jpg", "jpeg", "gif", "bmp", "webp"}

  /** Lower-cases one ASCII letter and leaves every other character alone. */
  function LowerChar(c: char): (d: char)
    ensures d == '.' <==> c == '.'
  {
    if 'A' <= c <= 'Z' then (c as int - 'A' as int + 'a' as int) as char else c
  }

  /** Lower-cases a string character by character. */
  function Lower(s: string): (r: string)
    ensures |r| == |s|
    ensures forall i :: 0 <= i < |s| ==> r[i] == LowerChar(s[i])
  {
    seq(|s|, i requires 0 <= i < |s| => LowerChar(s[i]))
  }

  /** The position of the last occurrence of `c` in `s`, if any. */
  function LastIndexOf(s: string, c: char): (r: Option<nat>)
    ensures r.None? <==> c !in s
    ensures r.Some? ==> r.value < |s| && s[r.value] == c && c !in s[r.value + 1..]
  {
    if |s| == 0 then None
    else if s[|s| - 1] == c then Some(|s| - 1)
    else
      var r := LastIndexOf(s[..|s| - 1], c);
      assert r.Some? ==> s[r.value + 1..] == s[..|s| - 1][r.value + 1..] + [s[|s| - 1]];
      r
  }

  /**
   * Splits `s` once, at the last `sep`, as Python's `s.rsplit(sep, 1)`:
   * one part (the whole string) when `sep` does not occur, otherwise the
   * text before and the text after the last `sep`.
   */
  function RSplitOnce(s: string, sep: char): (parts: seq<string>)
    ensures |parts| == 1 || |parts| == 2
    ensures |parts| == 2 <==> sep in s
    ensures |parts| == 1 ==> parts[0] == s
    ensures |parts| == 2 ==> parts[0] + [sep] + parts[1] == s && sep !in parts[1]
  {
    match LastIndexOf(s, sep)
    case None => [s]
    case Some(i) =>
      assert s[..i] + [sep] + s[i + 1..] == s;
      [s[..i], s[i + 1..]]
  }

  /** Whether an uploaded file name carries an allowed image extension. */
  function AllowedFile(filename: string): (ok: bool)
    ensures ok ==> '.' in filename
  {
    '.' in filename && Lower(RSplitOnce(filename, '.')[1]) in AllowedExtensions
  }

  /** `i` is the position of the last dot of `filename`. */
  predicate IsLastDot(filename: string, i: int)
  {
    0 <= i < |filename| && filename[i] == '.' && '.' !in filename[i + 1..]
  }

  /** The last dot of a name is unique. */
  lemma LastDotUnique(filename: string, i: int, j: int)
    requires IsLastDot(filename, i) && IsLastDot(filename, j)
    ensures i == j
  {
  }

  /**
   * A name is accepted exactly when it has a last dot and the lower-cased
   * text after that dot is an allowed extension.
   */
  lemma AllowedFileMeaning(filename: string)
    ensures AllowedFile(filename) <==>
      exists i :: IsLastDot(filename, i) && Lower(filename[i + 1..]) in AllowedExtensions
  {
    if '.' in filename {
      var parts := RSplitOnce(filename, '.');
      var i := |parts[0]|;
      assert filename[i] == '.' && filename[i + 1..] == parts[1] by {
        assert filename == parts[0] + [ '.' ] + parts[1];
        assert (parts[0] + ['.'] + parts[1])[i] == '.';
        assert (parts[0] + ['.'] + parts[1])[i + 1..] == parts[1];
      }
      assert IsLastDot(filename, i);
      forall j | IsLastDot(filename, j)
        ensures Lower(filename[j + 1..]) == Lower(parts[1])
      {
        LastDotUnique(filename, i, j);
      }
    }
  }

  /** A name without a dot is always rejected. */
  lemma NoDotRejected(filename: string)
    requires '.' !in filename
    ensures !AllowedFile(filename)
  {
  }

  /** Lower-casing a suffix is taking the suffix of the lower-cased name. */
  lemma LowerSuffix(s: string, k: nat)
    requires k <= |s|
    ensures Lower(s[k..]) == Lower(s)[k..]
  {
  }

  /**
   * The check ignores ASCII case: two names that agree once lower-cased are
   * both accepted or both rejected.
   */
  lemma AllowedFileIgnoresCase(f: string, g: string)
    requires Lower(f) == Lower(g)
    ensures AllowedFile(f) == AllowedFile(g)
  {
    assert |f| == |g|;
    forall k | 0 <= k < |f|
      ensures f[k] == '.' <==> g[k] == '.'
    {
      assert Lower(f)[k] == Lower(g)[k];
    }
    forall i | 0 <= i <= |f|
      ensures ('.' in f[i..]) <==> ('.' in g[i..])
    {
      if '.' in f[i..] {
        var k :| 0 <= k < |f[i..]| && f[i..][k] == '.';
        assert g[i..][k] == '.';
      }
      if '.' in g[i..] {
        var k :| 0 <= k < |g[i..]| && g[i..][k] == '.';
        assert f[i..][k] == '.';
      }
    }
    forall i | 0 <= i < |f|
      ensures IsLastDot(f, i) <==> IsLastDot(g, i)
    {
    }
    forall k | 0 <= k <= |f|
      ensures Lower(f[k..]) == Lower(g[k..])
    {
      LowerSuffix(f, k);
      LowerSuffix(g, k);
    }
    AllowedFileMeaning(f);
    AllowedFileMeaning(g);
  }

  /** Once the last dot is known, acceptance depends only on the text after it. */
  lemma AllowedFileAt(filename: string, i: int)
    requires IsLastDot(filename, i)
    ensures AllowedFile(filename) <==> Lower(filename[i + 1..]) in AllowedExtensions
  {
    AllowedFileMeaning(filename);
    forall j | IsLastDot(filename, j)
      ensures j == i
    {
      LastDotUnique(filename, i, j);
    }
  }

  /** Only the final dot segment counts: a disallowed last extension rejects the name. */
  lemma LastSegmentRejects()
    ensures !AllowedFile("a.png.exe")
  {
    var f := "a.png.exe";
    assert f[6..] == "exe";
    assert IsLastDot(f, 5);
    AllowedFileAt(f, 5);
    assert Lower("exe") == "exe";
  }

  /** Only the final dot segment counts: an allowed last extension accepts the name. */
  lemma LastSegmentAccepts()
    ensures AllowedFile("a.exe.png")
  {
    var f := "a.exe.png";
    assert f[6..] == "png";
    assert IsLastDot(f, 5);
    AllowedFileAt(f, 5);
    assert Lower("png") == "png";
  }

  /** The extension is compared without regard to case. */
  lemma UpperCaseExtensionAccepted()
    ensures AllowedFile("X.PNG")
  {
    AllowedFileAt("X.PNG", 1);
    assert "X.PNG"[2..] == "PNG";
    assert Lower("PNG") == "png";
  }

  /** A name that is only a dot and an extension is accepted; a name ending in a dot is not. */
  lemma EdgeNames()
    ensures AllowedFile(".png")
    ensures !AllowedFile("photo.")
  {
    AllowedFileAt(".png", 0);
    assert ".png"[1..] == "png";
    assert Lower("png") == "png";
    AllowedFileAt("photo.", 5);
    assert "photo."[6..] == "";
    assert Lower("") == "";
  }
}
