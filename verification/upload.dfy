/** The upload-extension check `allowed_file` of app.py: a filename is
    accepted when it contains a dot and the text after its LAST dot,
    lower-cased, is one of png, jpg, jpeg, gif. */
module Upload {
  import opened Wrappers

  /** The extensions an image upload may carry. */
  const AllowedExtensions: set<string> := {"png", "jpg", "jpeg", "gif"}

  /** ASCII lower-casing of one character. Python's `str.lower` also folds
      non-ASCII letters, but no non-ASCII character lowers to a string in
      `AllowedExtensions`' alphabet, so the verdict is the same. */
  function Lower(c: char): (d: char)
    ensures ('A' <= c <= 'Z') ==> d as int == c as int + 32
    ensures !('A' <= c <= 'Z') ==> d == c
  {
    if 'A' <= c <= 'Z' then (c as int + 32) as char else c
  }

  function LowerStr(s: string): (r: string)
    ensures |r| == |s|
    ensures forall i :: 0 <= i < |s| ==> r[i] == Lower(s[i])
  {
    seq(|s|, i requires 0 <= i < |s| => Lower(s[i]))
  }

  /** The index of the last '.' in `s`, if any. */
  function LastDot(s: string): (r: Option<nat>)
    ensures r.None? <==> '.' !in s
    ensures r.Some? ==> r.value < |s| && s[r.value] == '.'
    ensures r.Some? ==> forall k :: r.value < k < |s| ==> s[k] != '.'
  {
    if |s| == 0 then None
    else if s[|s| - 1] == '.' then Some(|s| - 1)
    else
      var r := LastDot(s[..|s| - 1]);
      assert forall c :: c in s[..|s| - 1] ==> c in s;
      assert '.' in s ==> '.' in s[..|s| - 1] by {
        if '.' in s {
          var k :| 0 <= k < |s| && s[k] == '.';
          assert k < |s| - 1;
          assert s[..|s| - 1][k] == '.';
        }
      }
      r
  }

  /** `filename.rsplit('.', 1)[1]`: the text after the last dot. */
  function Extension(filename: string): (ext: string)
    requires '.' in filename
    ensures '.' !in ext
    ensures |ext| < |filename|
    ensures filename[|filename| - |ext| - 1] == '.'
    ensures filename[|filename| - |ext|..] == ext
  {
    var i := LastDot(filename).value;
    var ext := filename[i + 1..];
    assert '.' !in ext by {
      forall k | 0 <= k < |ext| ensures ext[k] != '.' {
        assert ext[k] == filename[i + 1 + k];
      }
    }
    ext
  }

  /** Position `i` holds the last dot of `s`. */
  predicate IsLastDot(s: string, i: int) {
    0 <= i < |s| && s[i] == '.' && forall k :: i < k < |s| ==> s[k] != '.'
  }

  /** The rule `allowed_file` implements, read off its description: some
      dot is the last one, and the text after it lower-cases to an allowed
      extension. */
  ghost predicate AcceptedAfterLastDot(filename: string) {
    exists i :: IsLastDot(filename, i) && LowerStr(filename[i + 1..]) in AllowedExtensions
  }

  /** `allowed_file(filename)` in app.py. */
  function AllowedFile(filename: string): (ok: bool)
    ensures ok <==> AcceptedAfterLastDot(filename)
  {
    if '.' in filename then
      LastDotIsUnique(filename);
      AcceptedAt(filename, LastDot(filename).value);
      LowerStr(Extension(filename)) in AllowedExtensions
    else
      assert !AcceptedAfterLastDot(filename) by {
        assert forall i :: 0 <= i < |filename| ==> filename[i] != '.';
      }
      false
  }

  /** Once the last dot is known, the rule reads only the text after it. */
  lemma AcceptedAt(s: string, i: int)
    requires IsLastDot(s, i)
    ensures AcceptedAfterLastDot(s) <==> LowerStr(s[i + 1..]) in AllowedExtensions
  {
    if AcceptedAfterLastDot(s) {
      var j :| IsLastDot(s, j) && LowerStr(s[j + 1..]) in AllowedExtensions;
      assert i == j by {
        assert !(i < j) && !(j < i);
      }
    }
  }

  /** A name with a dot has a last dot, and the extension is the text after
      it. */
  lemma LastDotIsUnique(filename: string)
    requires '.' in filename
    ensures IsLastDot(filename, LastDot(filename).value)
    ensures Extension(filename) == filename[LastDot(filename).value + 1..]
  {
    ExtensionAfterLastDot(filename);
  }

  /** The extension of `base + "." + ext` is `ext` whenever `ext` has no
      dot, whatever `base` holds (dots included). */
  lemma {:induction false} ExtensionOfJoin(base: string, ext: string)
    requires '.' !in ext
    ensures '.' in base + "." + ext
    ensures Extension(base + "." + ext) == ext
  {
    var s := base + "." + ext;
    assert s[|base|] == '.';
    LastDotOfJoin(base, ext);
    assert s[|base| + 1..] == ext;
  }

  lemma {:induction false} LastDotOfJoin(base: string, ext: string)
    requires '.' !in ext
    ensures LastDot(base + "." + ext) == Some(|base|)
    decreases |ext|
  {
    var s := base + "." + ext;
    if |ext| == 0 {
      assert s[|s| - 1] == '.';
    } else {
      assert s[|s| - 1] == ext[|ext| - 1];
      assert ext[|ext| - 1] in ext;
      var shorter := ext[..|ext| - 1];
      assert '.' !in shorter by {
        forall k | 0 <= k < |shorter| ensures shorter[k] != '.' {
          assert shorter[k] == ext[k];
        }
      }
      assert s[..|s| - 1] == base + "." + shorter;
      LastDotOfJoin(base, shorter);
    }
  }

  /** The verdict depends only on the text after the last dot: for any
      base, `base.ext` is accepted exactly when `ext` lower-cases to an
      allowed extension. */
  lemma AllowedFileOfJoin(base: string, ext: string)
    requires '.' !in ext
    ensures AllowedFile(base + "." + ext) <==> LowerStr(ext) in AllowedExtensions
  {
    ExtensionOfJoin(base, ext);
  }

  /** A name without a dot is never accepted. */
  lemma NoDotRejected(filename: string)
    requires '.' !in filename
    ensures !AllowedFile(filename)
  {
  }

  /** Lower-casing moves no dot. */
  lemma SameDots(a: string, b: string)
    requires LowerStr(a) == LowerStr(b)
    ensures |a| == |b|
    ensures forall i :: 0 <= i < |a| ==> (a[i] == '.' <==> b[i] == '.')
  {
    forall i | 0 <= i < |a| ensures a[i] == '.' <==> b[i] == '.' {
      assert LowerStr(a)[i] == LowerStr(b)[i];
    }
  }

  /** Two names with dots in the same places have their last dot in the
      same place. */
  lemma {:induction false} LastDotOfSameDots(a: string, b: string)
    requires |a| == |b|
    requires forall i :: 0 <= i < |a| ==> (a[i] == '.' <==> b[i] == '.')
    ensures LastDot(a) == LastDot(b)
    decreases |a|
  {
    if |a| > 0 && a[|a| - 1] != '.' {
      LastDotOfSameDots(a[..|a| - 1], b[..|b| - 1]);
    }
  }

  /** Names that agree up to case have suffixes that agree up to case. */
  lemma LowerSuffixes(a: string, b: string, i: nat)
    requires LowerStr(a) == LowerStr(b)
    requires i < |a|
    ensures LowerStr(a[i + 1..]) == LowerStr(b[i + 1..])
  {
    var ea, eb := a[i + 1..], b[i + 1..];
    forall k | 0 <= k < |ea| ensures LowerStr(ea)[k] == LowerStr(eb)[k] {
      assert LowerStr(a)[i + 1 + k] == LowerStr(b)[i + 1 + k];
    }
  }

  /** The extension starts right after the last dot. */
  lemma ExtensionAfterLastDot(filename: string)
    requires '.' in filename
    ensures LastDot(filename).Some?
    ensures Extension(filename) == filename[LastDot(filename).value + 1..]
  {
  }

  /** Names that agree up to case have a dot in the same places, so their
      last dot is in the same place. */
  lemma DotsAgree(a: string, b: string)
    requires LowerStr(a) == LowerStr(b)
    ensures '.' in a <==> '.' in b
    ensures LastDot(a) == LastDot(b)
  {
    SameDots(a, b);
    LastDotOfSameDots(a, b);
  }

  /** Names that agree up to case have extensions that agree up to case. */
  lemma ExtensionsAgree(a: string, b: string)
    requires LowerStr(a) == LowerStr(b)
    requires '.' in a
    ensures '.' in b
    ensures LowerStr(Extension(a)) == LowerStr(Extension(b))
  {
    DotsAgree(a, b);
    var i := LastDot(a).value;
    ExtensionAfterLastDot(a);
    ExtensionAfterLastDot(b);
    LowerSuffixes(a, b, i);
  }

  /** Two names that agree up to letter case get the same verdict. */
  lemma CaseInsensitive(a: string, b: string)
    requires LowerStr(a) == LowerStr(b)
    ensures AllowedFile(a) <==> AllowedFile(b)
  {
    DotsAgree(a, b);
    if '.' in a {
      ExtensionsAgree(a, b);
    }
  }

  /** The verdict read at a known last dot. */
  lemma VerdictAt(filename: string, i: nat)
    requires IsLastDot(filename, i)
    ensures AllowedFile(filename) <==> LowerStr(filename[i + 1..]) in AllowedExtensions
  {
    AcceptedAt(filename, i);
  }

  /** The cases the source's behaviour is known by: the last dot decides,
      and case does not matter. */
  lemma ExampleDoubleExtension()
    ensures AllowedFile("a.exe.jpg")
  {
    var f := "a.exe.jpg";
    assert IsLastDot(f, 5);
    VerdictAt(f, 5);
    assert LowerStr(f[6..]) == "jpg";
  }

  lemma ExampleExecutable()
    ensures !AllowedFile("a.jpg.exe")
  {
    var f := "a.jpg.exe";
    assert IsLastDot(f, 5);
    VerdictAt(f, 5);
    assert LowerStr(f[6..]) == "exe";
  }

  /** Upper- and mixed-case extensions are accepted. */
  lemma ExampleCaseFolded()
    ensures AllowedFile("X.PNG")
    ensures AllowedFile("x.JpEg")
  {
    var f, g := "X.PNG", "x.JpEg";
    assert IsLastDot(f, 1);
    VerdictAt(f, 1);
    assert LowerStr(f[2..]) == "png";
    assert IsLastDot(g, 1);
    VerdictAt(g, 1);
    assert LowerStr(g[2..]) == "jpeg";
  }

  /** A trailing dot leaves an empty extension, and a bare extension is
      not a filename with an extension. */
  lemma ExampleRejected()
    ensures !AllowedFile("photo.")
    ensures !AllowedFile("png")
  {
    var f := "photo.";
    assert IsLastDot(f, 5);
    VerdictAt(f, 5);
    assert LowerStr(f[6..]) == "";
    assert "png"[0] != '.' && "png"[1] != '.' && "png"[2] != '.';
  }
}
