/** The icon an attachment button shows for a file name. */
module Attachments {
  import opened Wrappers
  import opened Strings

  /** `name.substr(name.lastIndexOf(".") + 1)`: the text after the last
      '.', or the whole name when it has none. */
  function Extension(name: string): (r: string)
    ensures '.' !in r
    ensures '.' !in name ==> r == name
    ensures '.' in name ==> exists k :: 0 <= k < |name| && name[k] == '.' && name == name[..k] + "." + r
  {
    var i := LastIndexOf(name, '.');
    var r := name[i + 1..];
    assert i >= 0 ==> name == name[..i] + "." + r;
    r
  }

  /** The icon class for an extension; the comparison is case-sensitive. */
  function Icon(ext: string): (r: string)
    ensures r == "fa-file-pdf-o" <==> ext == "pdf"
    ensures r == "fa-file-excel-o" <==> ext == "xls"
    ensures r == "fa-file-word-o" <==> ext in {"doc", "docx"}
    ensures r == "fa-file-picture-o" <==> ext in {"jpg", "png"}
    ensures r == "fa-file-o" <==> ext !in {"pdf", "xls", "doc", "docx", "jpg", "png"}
  {
    match ext
    case "pdf" => "fa-file-pdf-o"
    case "xls" => "fa-file-excel-o"
    case "doc" => "fa-file-word-o"
    case "docx" => "fa-file-word-o"
    case "jpg" => "fa-file-picture-o"
    case "png" => "fa-file-picture-o"
    case _ => "fa-file-o"
  }

  /** The icon of a file name: that of the text after its last dot, or of
      the whole name when it has none. */
  function IconFor(name: string): (r: string)
    ensures '.' !in name ==> r == Icon(name)
    ensures exists k :: 0 <= k <= |name| && (k == 0 || name[k - 1] == '.') && '.' !in name[k..] && r == Icon(name[k..])
  {
    var i := LastIndexOf(name, '.');
    assert Extension(name) == name[i + 1..];
    Icon(Extension(name))
  }

  /** The last `c` of `a + [c] + b` is the one between them when `b` has none. */
  lemma {:induction false} LastIndexOfJoin(a: string, c: char, b: string)
    requires c !in b
    ensures LastIndexOf(a + [c] + b, c) == |a|
    decreases |b|
  {
    var s := a + [c] + b;
    if b != [] {
      var b0 := b[..|b| - 1];
      assert s[..|s| - 1] == a + [c] + b0;
      assert s[|s| - 1] == b[|b| - 1];
      assert c !in b0 by {
        forall k | 0 <= k < |b0| ensures b0[k] != c {
          assert b0[k] == b[k];
        }
      }
      LastIndexOfJoin(a, c, b0);
    }
  }

  /** A name is classified by what follows its last dot, whatever comes before. */
  lemma IconOfStem(stem: string, ext: string)
    requires '.' !in ext
    ensures Extension(stem + "." + ext) == ext
    ensures IconFor(stem + "." + ext) == Icon(ext)
  {
    var name := stem + "." + ext;
    LastIndexOfJoin(stem, '.', ext);
    assert name[|stem| + 1..] == ext;
  }

  /** Other letter case and near-miss extensions fall back to the generic
      icon, and so does a name without a dot. */
  lemma GenericIcons()
    ensures Icon("PDF") == "fa-file-o"
    ensures Icon("xlsx") == "fa-file-o"
    ensures Icon("jpeg") == "fa-file-o"
    ensures IconFor("README") == "fa-file-o"
  {
    assert Extension("README") == "README";
  }
}
