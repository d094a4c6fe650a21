/** The upload filename check of app/utils.py. */
module Utils {

  /** ASCII lower-casing of one character (`str.lower` on the ASCII range). */
  function LowerChar(c: char): (r: char)
    ensures 'A' <= c <= 'Z' ==> 'a' <= r <= 'z'
    ensures !('A' <= c <= 'Z') ==> r == c
  {
    if 'A' <= c <= 'Z' then (c as int - 'A' as int + 'a' as int) as char else c
  }

  function ToLower(s: string): (r: string)
    ensures |r| == |s|
    ensures forall i :: 0 <= i < |s| ==> r[i] == LowerChar(s[i])
  {
    if s == [] then [] else [LowerChar(s[0])] + ToLower(s[1..])
  }

  /** The text after the last '.', i.e. `filename.rsplit('.', 1)[1]`. */
  function Extension(filename: string): (ext: string)
    requires '.' in filename
    ensures |ext| < |filename| && ext == filename[|filename| - |ext|..]
    ensures filename[|filename| - |ext| - 1] == '.'
    ensures '.' !in ext
  {
    var last := filename[|filename| - 1];
    if last == '.' then ""
    else
      var init := filename[..|filename| - 1];
      assert filename == init + [last];
      Extension(init) + [last]
  }

  /** `allowed_file(filename, allowed_extensions)`: there is a '.', and the text after the
      last one, lower-cased, is one of the allowed extensions. */
  predicate AllowedFile(filename: string, allowedExtensions: set<string>)
  {
    '.' in filename && ToLower(Extension(filename)) in allowedExtensions
  }

  /** Any split of a name at a '.' after which no '.' follows picks out that tail. */
  lemma {:induction false} ExtensionOfSplit(prefix: string, ext: string)
    requires '.' !in ext
    ensures '.' in prefix + "." + ext
    ensures Extension(prefix + "." + ext) == ext
    decreases |ext|
  {
    var f := prefix + "." + ext;
    assert f[|prefix|] == '.';
    if ext != [] {
      var init := ext[..|ext| - 1];
      assert f[..|f| - 1] == prefix + "." + init;
      ExtensionOfSplit(prefix, init);
      assert ext == init + [ext[|ext| - 1]];
    } else {
      assert f[|f| - 1] == '.';
    }
  }

  /** A name without a '.' is never allowed. */
  lemma NoDotRejected(filename: string, allowedExtensions: set<string>)
    requires '.' !in filename
    ensures !AllowedFile(filename, allowedExtensions)
  {
  }

  /** A trailing '.' leaves the empty extension. */
  lemma TrailingDot(prefix: string, allowedExtensions: set<string>)
    ensures AllowedFile(prefix + ".", allowedExtensions) <==> "" in allowedExtensions
  {
    ExtensionOfSplit(prefix, "");
    assert prefix + "." + "" == prefix + ".";
  }

  /** Only the last extension counts: `a.tar.png` is judged by `png`. */
  lemma OnlyLastExtension(prefix: string, ext: string, allowedExtensions: set<string>)
    requires '.' !in ext
    ensures AllowedFile(prefix + "." + ext, allowedExtensions) <==> ToLower(ext) in allowedExtensions
  {
    ExtensionOfSplit(prefix, ext);
  }

  lemma {:induction false} ToLowerIdempotent(s: string)
    ensures ToLower(ToLower(s)) == ToLower(s)
  {
    var t := ToLower(s);
    assert forall i :: 0 <= i < |s| ==> ToLower(t)[i] == LowerChar(LowerChar(s[i])) == t[i];
  }

  /** Lower-casing works character by character, so it distributes over concatenation. */
  lemma ToLowerAppend(a: string, b: string)
    ensures ToLower(a + b) == ToLower(a) + ToLower(b)
  {
    assert forall i :: 0 <= i < |a + b| ==> ToLower(a + b)[i] == (ToLower(a) + ToLower(b))[i];
  }

  /** Lower-casing neither adds nor removes a '.'. */
  lemma LowerKeepsDots(s: string)
    ensures '.' in ToLower(s) <==> '.' in s
  {
    if '.' in s {
      var i :| 0 <= i < |s| && s[i] == '.';
      assert ToLower(s)[i] == '.';
    }
    if '.' in ToLower(s) {
      var i :| 0 <= i < |s| && ToLower(s)[i] == '.';
      assert s[i] == '.';
    }
  }

  lemma ExtensionOfLower(filename: string)
    requires '.' in filename
    ensures '.' in ToLower(filename)
    ensures Extension(ToLower(filename)) == ToLower(Extension(filename))
  {
    var ext := Extension(filename);
    var prefix := filename[..|filename| - |ext| - 1];
    assert filename == prefix + "." + ext;
    ToLowerAppend(prefix + ".", ext);
    ToLowerAppend(prefix, ".");
    assert ToLower(".") == ".";
    LowerKeepsDots(ext);
    ExtensionOfSplit(ToLower(prefix), ToLower(ext));
  }

  /** The verdict ignores case: lower-casing the whole name never changes it. */
  lemma CaseInsensitive(filename: string, allowedExtensions: set<string>)
    ensures AllowedFile(ToLower(filename), allowedExtensions) == AllowedFile(filename, allowedExtensions)
  {
    if '.' in filename {
      ExtensionOfLower(filename);
      ToLowerIdempotent(Extension(filename));
    } else {
      LowerKeepsDots(filename);
    }
  }
}
