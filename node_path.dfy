/**
 * The parts of Node's POSIX `path` module that the upload handler relies on,
 * restricted to a single path component (a name without '/'), plus the parent
 * of a slash-separated path.
 */
module NodePath {

  /** A file name as the multipart parser hands it over: one path component. */
  type FileName = s: string | '/' !in s

  /** Index of the last occurrence of `c` in `s`, or -1 when there is none. */
  function LastIndexOf(s: string, c: char): (i: int)
    ensures -1 <= i < |s|
    ensures i >= 0 ==> s[i] == c
    ensures forall j :: i < j < |s| ==> s[j] != c
  {
    if |s| == 0 then -1
    else if s[|s| - 1] == c then |s| - 1
    else LastIndexOf(s[..|s| - 1], c)
  }

  /** The contract of LastIndexOf determines its value. */
  lemma LastIndexOfUnique(s: string, c: char, i: int)
    requires -1 <= i < |s|
    requires i >= 0 ==> s[i] == c
    requires forall j :: i < j < |s| ==> s[j] != c
    ensures LastIndexOf(s, c) == i
  {
  }

  /** Searching a concatenation: a hit in the right part wins, else the left part decides. */
  lemma LastIndexOfConcat(a: string, b: string, c: char)
    ensures LastIndexOf(a + b, c)
      == if c in b then |a| + LastIndexOf(b, c) else LastIndexOf(a, c)
  {
    var ab := a + b;
    if c in b {
      var k := LastIndexOf(b, c);
      assert k >= 0;
      forall j | |a| + k < j < |ab| ensures ab[j] != c {
        assert ab[j] == b[j - |a|];
      }
      LastIndexOfUnique(ab, c, |a| + k);
    } else {
      var k := LastIndexOf(a, c);
      forall j | k < j < |ab| ensures ab[j] != c {
        if j >= |a| { assert ab[j] == b[j - |a|]; }
      }
      LastIndexOfUnique(ab, c, k);
    }
  }

  /**
   * `path.extname(name)`: the suffix starting at the last '.', or "" when the
   * name has no '.', when its only candidate dot is its first character
   * (".profile") or when the name is "..".
   */
  function ExtName(name: FileName): (ext: string)
    ensures ext == "" <==> name == ".." || forall i :: 0 < i < |name| ==> name[i] != '.'
    ensures ext != "" ==>
      && |ext| < |name|
      && name[|name| - |ext|..] == ext
      && ext[0] == '.'
      && forall j :: 0 < j < |ext| ==> ext[j] != '.'
  {
    var i := LastIndexOf(name, '.');
    if i <= 0 || name == ".." then "" else name[i..]
  }

  /**
   * `path.basename(name, suffix)`: the name with `suffix` removed from its end
   * when it ends with it, otherwise the whole name.
   */
  function BaseName(name: FileName, suffix: string): (base: FileName)
    ensures base == name || base + suffix == name
    ensures |suffix| <= |name| && name[|name| - |suffix|..] == suffix
            ==> base + suffix == name
  {
    var n := |name| - |suffix|;
    if 0 <= n && name[n..] == suffix then name[..n] else name
  }

  /** The stem of a name: `path.basename(name, path.extname(name))`. */
  function Stem(name: FileName): (stem: FileName)
    ensures |stem| <= |name| && name[..|stem|] == stem
    ensures ExtName(name) == "" ==> stem == name
  {
    BaseName(name, ExtName(name))
  }

  /** A name is exactly its stem followed by its extension. */
  lemma StemExtRoundTrip(name: FileName)
    ensures Stem(name) + ExtName(name) == name
    ensures ExtName(name) != "" ==> Stem(name) != ""
  {
  }

  /** The directory part of a slash-separated path: everything before its last '/'. */
  function Parent(p: string): (d: string)
    ensures |d| <= |p|
    ensures '/' in p ==> |d| < |p| && p[..|d|] == d && p[|d|] == '/' && '/' !in p[|d| + 1..]
    ensures '/' !in p ==> d == ""
  {
    var i := LastIndexOf(p, '/');
    if i < 0 then "" else p[..i]
  }

  /** The parent of `dir + "/" + name` is `dir` itself. */
  lemma ParentOfChild(dir: string, name: FileName)
    ensures Parent(dir + "/" + name) == dir
  {
    LastIndexOfConcat(dir + "/", name, '/');
    LastIndexOfConcat(dir, "/", '/');
  }
}
