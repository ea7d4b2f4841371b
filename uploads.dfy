/**
  The avatar-upload filename check of the profile routes
  (backend/app/routes/profile.py): a name is accepted when the text after its
  last dot, lower-cased, is one of the allowed image extensions.
 */
module Uploads {
  import opened PyStr

  /** `ALLOWED_EXTENSIONS`. */
  const AllowedExtensions: set<string> := {"png", "jpg", "jpeg", "gif"}

  /** `s.rfind(c)`: the index of the last `c` in `s`, or -1 when there is none. */
  function LastIndexOf(s: string, c: char): (r: int)
    ensures -1 <= r < |s|
    ensures r >= 0 ==> s[r] == c
    ensures forall j :: r < j < |s| ==> s[j] != c
  {
    if |s| == 0 then -1
    else if s[|s| - 1] == c then |s| - 1
    else LastIndexOf(s[..|s| - 1], c)
  }

  /** `filename.rsplit('.', 1)[1]`: the text after the last dot. */
  function Extension(filename: string): (r: string)
    requires '.' in filename
    ensures '.' !in r
  {
    filename[LastIndexOf(filename, '.') + 1..]
  }

  /** `allowed_file(filename)`. */
  predicate AllowedFile(filename: string) {
    '.' in filename && Lower(Extension(filename)) in AllowedExtensions
  }

  /** A name without a dot is never accepted. */
  lemma NoDotRejected(filename: string)
    requires '.' !in filename
    ensures !AllowedFile(filename)
  {
  }

  /** Only the text after the last dot decides, whatever comes before it. */
  lemma LastExtensionDecides(base: string, ext: string)
    requires '.' !in ext
    ensures AllowedFile(base + "." + ext) <==> Lower(ext) in AllowedExtensions
  {
    var f := base + "." + ext;
    assert f[|base|] == '.';
    var k := LastIndexOf(f, '.');
    assert k == |base|;
    assert f[|base| + 1..] == ext;
  }

  /** Letter case never changes the verdict. */
  lemma {:induction false} CaseInsensitive(f: string, g: string)
    requires Lower(f) == Lower(g)
    ensures AllowedFile(f) <==> AllowedFile(g)
  {
    SameDots(f, g);
    if '.' in f {
      SameExtension(f, g);
    }
  }

  lemma SameDots(f: string, g: string)
    requires Lower(f) == Lower(g)
    ensures '.' in f <==> '.' in g
  {
    DotsAgree(f, g);
    if '.' in f {
      var i :| 0 <= i < |f| && f[i] == '.';
      assert g[i] == '.';
    }
    if '.' in g {
      var i :| 0 <= i < |g| && g[i] == '.';
      assert f[i] == '.';
    }
  }

  lemma SameExtension(f: string, g: string)
    requires Lower(f) == Lower(g)
    requires '.' in f && '.' in g
    ensures Lower(Extension(f)) == Lower(Extension(g))
  {
    DotsAgree(f, g);
    LastDotAgrees(f, g);
    var k := LastIndexOf(f, '.') + 1;
    LowerSuffix(f, k);
    LowerSuffix(g, k);
  }

  /** Strings with their dots in the same places have their last dot in the same place. */
  lemma LastDotAgrees(f: string, g: string)
    requires |f| == |g|
    requires forall i :: 0 <= i < |f| ==> (f[i] == '.' <==> g[i] == '.')
    ensures LastIndexOf(f, '.') == LastIndexOf(g, '.')
  {
  }

  /** Lower-casing commutes with taking a suffix. */
  lemma LowerSuffix(s: string, k: nat)
    requires k <= |s|
    ensures Lower(s[k..]) == Lower(s)[k..]
  {
  }

  /** Strings with the same lower-case form have their dots in the same places. */
  lemma DotsAgree(f: string, g: string)
    requires Lower(f) == Lower(g)
    ensures |f| == |g|
    ensures forall i :: 0 <= i < |f| ==> (f[i] == '.' <==> g[i] == '.')
  {
    assert |f| == |Lower(f)| == |g|;
    forall i | 0 <= i < |f| ensures f[i] == '.' <==> g[i] == '.' {
      assert LowerChar(f[i]) == LowerChar(g[i]);
    }
  }

  /** Only the last extension counts: `"x.exe.png"` is accepted ... */
  lemma InnerDotIgnored()
    ensures AllowedFile("x.exe.png")
  {
    assert "x.exe.png" == "x.exe" + "." + "png";
    LastExtensionDecides("x.exe", "png");
    assert Lower("png") == "png";
  }

  /** ... and `"x.png.exe"` is not. */
  lemma InnerImageExtensionIgnored()
    ensures !AllowedFile("x.png.exe")
  {
    assert "x.png.exe" == "x.png" + "." + "exe";
    LastExtensionDecides("x.png", "exe");
    assert Lower("exe") == "exe";
  }

  /** Upper-case extensions are accepted: `"A.PNG"`. */
  lemma UpperCaseExample()
    ensures AllowedFile("A.PNG")
  {
    assert "A.PNG" == "A" + "." + "PNG";
    LastExtensionDecides("A", "PNG");
    var l := Lower("PNG");
    assert l[0] == 'p' && l[1] == 'n' && l[2] == 'g';
    assert l == "png";
  }

  /** Mixed-case extensions are accepted: `"b.JpEg"`. */
  lemma MixedCaseExample()
    ensures AllowedFile("b.JpEg")
  {
    assert "b.JpEg" == "b" + "." + "JpEg";
    LastExtensionDecides("b", "JpEg");
    var l := Lower("JpEg");
    assert l[0] == 'j' && l[1] == 'p' && l[2] == 'e' && l[3] == 'g';
    assert l == "jpeg";
  }

  /** A trailing dot leaves an empty extension: `"file."` is rejected. */
  lemma TrailingDotExample()
    ensures !AllowedFile("file.")
  {
    assert "file." == "file" + "." + "";
    LastExtensionDecides("file", "");
  }

  /** The base name may be empty: `".gif"` is accepted. */
  lemma EmptyBaseExample()
    ensures AllowedFile(".gif")
  {
    assert ".gif" == "" + "." + "gif";
    LastExtensionDecides("", "gif");
    assert Lower("gif") == "gif";
  }
}
