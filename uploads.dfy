/**
 * The image-upload filter: which client file names the handlers accept as an
 * image, and the truthiness check `file and file.filename and allowed_file(...)`
 * that guards every upload.
 */
module Uploads {
  import opened Wrappers
  import opened Text

  const AllowedExtensions: set<string> := {"png", "jpg", "jpeg", "gif"}

  /** `allowed_file`: the name holds a "." and the text after the last "."
      of the name, lower-cased, is an allowed extension. The contract states
      the same without naming a search: some "." has no other "." after it
      and is followed by an allowed extension in any case. */
  predicate AllowedFile(filename: string): (r: bool)
    ensures r <==>
      exists i :: 0 <= i < |filename| && filename[i] == '.' && '.' !in filename[i + 1..]
                  && Lower(filename[i + 1..]) in AllowedExtensions
  {
    LastExtensionMeaning(filename);
    LastExtensionAllowed(filename)
  }

  /** The split of `rsplit(".", 1)` and the test on its second part. */
  predicate LastExtensionAllowed(filename: string) {
    match LastIndexOf(filename, '.')
    case None => false
    case Some(k) => Lower(filename[k + 1..]) in AllowedExtensions
  }

  /** The last "." is any "." with no "." after it. */
  lemma {:induction false} LastExtensionMeaning(filename: string)
    ensures LastExtensionAllowed(filename) <==>
      exists i :: 0 <= i < |filename| && filename[i] == '.' && '.' !in filename[i + 1..]
                  && Lower(filename[i + 1..]) in AllowedExtensions
  {
    if LastExtensionAllowed(filename) {
      var k := LastIndexOf(filename, '.').value;
      assert filename[k] == '.' && '.' !in filename[k + 1..];
    } else {
      forall i | 0 <= i < |filename| && filename[i] == '.' && '.' !in filename[i + 1..]
        ensures Lower(filename[i + 1..]) !in AllowedExtensions
      {
        LastDotIsSplitPoint(filename, i);
      }
    }
  }

  /** A "." with no "." after it is the split point of `rsplit(".", 1)`. */
  lemma {:induction false} LastDotIsSplitPoint(filename: string, k: nat)
    requires k < |filename| && filename[k] == '.' && '.' !in filename[k + 1..]
    ensures LastIndexOf(filename, '.') == Some(k)
  {
  }

  /** An upload is kept when a file was sent, its name is non-empty and the
      name passes `AllowedFile`. The non-empty test adds nothing: an allowed
      name always holds a ".". */
  predicate Accepted(upload: Option<string>): (r: bool)
    ensures r <==> upload.Some? && AllowedFile(upload.value)
  {
    upload.Some? && upload.value != "" && AllowedFile(upload.value)
  }

  /** Any "." with no "." after it is the split point `AllowedFile` uses. */
  lemma {:induction false} AllowedFileAt(filename: string, k: nat)
    requires k < |filename| && filename[k] == '.' && '.' !in filename[k + 1..]
    ensures AllowedFile(filename) == (Lower(filename[k + 1..]) in AllowedExtensions)
  {
    LastDotIsSplitPoint(filename, k);
    assert LastExtensionAllowed(filename) == (Lower(filename[k + 1..]) in AllowedExtensions);
  }

  /** A name whose last extension is an allowed one, in any case, is
      accepted whatever precedes it. */
  lemma {:induction false} AcceptsAllowedExtension(stem: string, ext: string)
    requires '.' !in ext && Lower(ext) in AllowedExtensions
    ensures AllowedFile(stem + "." + ext)
  {
    var f := stem + "." + ext;
    assert f[|stem|] == '.' && f[|stem| + 1..] == ext;
    AllowedFileAt(f, |stem|);
  }

  /** A name whose last extension is not an allowed one is refused, even when
      an allowed extension comes earlier in the name. */
  lemma {:induction false} RejectsOtherExtension(stem: string, ext: string)
    requires '.' !in ext && Lower(ext) !in AllowedExtensions
    ensures !AllowedFile(stem + "." + ext)
  {
    var f := stem + "." + ext;
    assert f[|stem|] == '.' && f[|stem| + 1..] == ext;
    AllowedFileAt(f, |stem|);
  }

  /** "a.png.exe" is refused: only the last extension counts. */
  lemma {:induction false} DoubleExtensionRefused()
    ensures !AllowedFile("a.png" + "." + "exe")
  {
    assert Lower("exe") == "exe";
    RejectsOtherExtension("a.png", "exe");
  }

  /** "x.tar.PNG" is accepted: the extension is compared lower-cased. */
  lemma {:induction false} UpperCaseExtensionAccepted()
    ensures AllowedFile("x.tar" + "." + "PNG")
  {
    assert Lower("PNG") == "png";
    AcceptsAllowedExtension("x.tar", "PNG");
  }

  /** A name without "." is refused, even when it spells an extension. */
  lemma {:induction false} RejectsBareExtension()
    ensures !AllowedFile("png")
  {
    assert "png"[0] != '.' && "png"[1] != '.' && "png"[2] != '.';
  }

  /** Accepting a file name does not depend on the case of its letters. */
  lemma {:induction false} AllowedFileIgnoresCase(filename: string)
    ensures AllowedFile(Lower(filename)) == AllowedFile(filename)
  {
    var low := Lower(filename);
    LowerLower(filename);
    match LastIndexOf(filename, '.')
    case None =>
      assert '.' !in low by {
        forall j | 0 <= j < |low| ensures low[j] != '.' {
          assert filename[j] != '.';
        }
      }
      assert LastIndexOf(low, '.').None?;
      assert !AllowedFile(low) && !AllowedFile(filename);
    case Some(k) =>
      var ext := filename[k + 1..];
      assert low[k] == '.';
      assert low[k + 1..] == Lower(ext);
      assert '.' !in Lower(ext) by {
        LowerLower(ext);
        forall j | 0 <= j < |ext| ensures Lower(ext)[j] != '.' {
          assert ext[j] != '.';
        }
      }
      AllowedFileAt(low, k);
      AllowedFileAt(filename, k);
      LowerLower(ext);
      assert AllowedFile(low) == (Lower(ext) in AllowedExtensions) == AllowedFile(filename);
  }
}
