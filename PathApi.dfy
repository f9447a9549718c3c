/**
 * The members of System.IO.Path that the asset controller calls, with the
 * semantics they have on Unix, where '/' is both the directory separator and
 * the alternative separator, and a path is rooted when it starts with '/'.
 */
module PathApi {

  const DirectorySeparatorChar: char := '/'

  predicate IsDirectorySeparator(c: char) {
    c == DirectorySeparatorChar
  }

  /** True when no character of s is a directory separator. */
  predicate HasNoSeparator(s: string) {
    forall i :: 0 <= i < |s| ==> !IsDirectorySeparator(s[i])
  }

  /** True when p starts at the file-system root. */
  predicate IsPathRooted(p: string) {
    |p| > 0 && IsDirectorySeparator(p[0])
  }

  /** Index of the last directory separator in s, or -1 when there is none. */
  function LastSeparator(s: string): (i: int)
    ensures -1 <= i < |s|
    ensures 0 <= i ==> IsDirectorySeparator(s[i])
    ensures forall j :: i < j < |s| ==> !IsDirectorySeparator(s[j])
  {
    if s == [] then -1
    else if IsDirectorySeparator(s[|s| - 1]) then |s| - 1
    else LastSeparator(s[..|s| - 1])
  }

  /**
   * Path.GetFileName: the text after the last separator. The result is the
   * longest suffix of the path that holds no separator.
   */
  function GetFileName(path: string): (name: string)
    ensures HasNoSeparator(name)
    ensures |name| <= |path| && name == path[|path| - |name|..]
    ensures |name| < |path| ==> IsDirectorySeparator(path[|path| - |name| - 1])
  {
    path[LastSeparator(path) + 1..]
  }

  /**
   * Index of the '.' that starts the extension: the last '.' after the last
   * separator, or -1 when that part of the path has none. This is the
   * backward scan of Path.GetExtension, which stops at the first '.' or
   * separator it meets.
   */
  function ExtensionDot(path: string): (i: int)
    ensures -1 <= i < |path|
    ensures 0 <= i ==> path[i] == '.' && LastSeparator(path) < i
    ensures forall j :: i < j < |path| && LastSeparator(path) < j ==> path[j] != '.'
  {
    if path == [] then -1
    else if path[|path| - 1] == '.' then |path| - 1
    else if IsDirectorySeparator(path[|path| - 1]) then -1
    else ExtensionDot(path[..|path| - 1])
  }

  /**
   * Path.GetExtension: the suffix from the extension's '.' on, or "" when the
   * file name has no '.' or ends with one.
   */
  function GetExtension(path: string): (ext: string)
    ensures ext == "" || (|ext| >= 2 && ext[0] == '.' && |ext| <= |path| && ext == path[|path| - |ext|..])
    ensures HasNoSeparator(ext)
    ensures forall j :: 1 <= j < |ext| ==> ext[j] != '.'
  {
    var i := ExtensionDot(path);
    if i < 0 || i == |path| - 1 then "" else path[i..]
  }

  /**
   * Path.Combine of two paths: an empty part yields the other, a rooted
   * second part replaces the first, and otherwise the two are joined with
   * one separator unless one of them already supplies it.
   */
  function Combine(path1: string, path2: string): (r: string)
    ensures path1 != "" && path2 != "" && !IsPathRooted(path2) ==>
              |path1| + |path2| <= |r| && r[..|path1|] == path1 && r[|r| - |path2|..] == path2
  {
    if path2 == "" then path1
    else if path1 == "" then path2
    else if IsPathRooted(path2) then path2
    else if IsDirectorySeparator(path1[|path1| - 1]) || IsDirectorySeparator(path2[0]) then path1 + path2
    else path1 + [DirectorySeparatorChar] + path2
  }

  /** The directory prefix that Combine puts in front of a bare file name. */
  function DirectoryPrefix(root: string): (p: string)
    requires root != ""
    ensures |root| <= |p| && IsDirectorySeparator(p[|p| - 1]) && p[..|root|] == root
  {
    if IsDirectorySeparator(root[|root| - 1]) then root else root + [DirectorySeparatorChar]
  }

  /** A name without separators is its own file name. */
  lemma BareNameIsFileName(s: string)
    requires HasNoSeparator(s)
    ensures GetFileName(s) == s
  {
  }

  /** Sanitising twice is sanitising once. */
  lemma GetFileNameIdempotent(s: string)
    ensures GetFileName(GetFileName(s)) == GetFileName(s)
  {
    BareNameIsFileName(GetFileName(s));
  }

  /** Everything after a trailing separator is the file name. */
  lemma {:induction false} FileNameAfterSeparator(p: string, name: string)
    requires |p| > 0 && IsDirectorySeparator(p[|p| - 1]) && HasNoSeparator(name)
    ensures GetFileName(p + name) == name
  {
    var s := p + name;
    var f := GetFileName(s);
    assert s[|s| - |name|..] == name;
  }

  /**
   * A non-empty bare name combined with a non-empty root lands directly
   * below the root: the combined path is the root's directory prefix
   * followed by the name, and its file name is the name again.
   */
  lemma CombineBareName(root: string, name: string)
    requires root != "" && name != "" && HasNoSeparator(name)
    ensures Combine(root, name) == DirectoryPrefix(root) + name
    ensures GetFileName(Combine(root, name)) == name
  {
    assert !IsDirectorySeparator(name[0]);
    FileNameAfterSeparator(DirectoryPrefix(root), name);
  }

  /**
   * Distinct bare names give distinct paths below a root, and no bare name
   * gives the root itself (which Combine returns for the empty name).
   */
  lemma CombineInjective(root: string, a: string, b: string)
    requires root != "" && HasNoSeparator(a) && HasNoSeparator(b) && b != ""
    requires Combine(root, a) == Combine(root, b)
    ensures a == b
  {
    CombineBareName(root, b);
    var p := DirectoryPrefix(root);
    CombineBareName(root, a);
    assert a == (p + a)[|p|..] == (p + b)[|p|..] == b;
  }

  /** Non-empty names without separators, as the entries of one directory have. */
  predicate AreBareNames(names: set<string>) {
    forall name :: name in names ==> name != "" && HasNoSeparator(name)
  }

  /** The full paths of the given entries of the directory root. */
  function CombineAll(root: string, names: set<string>): set<string> {
    set name | name in names :: Combine(root, name)
  }

  /** Each such path is its entry's name combined with the root. */
  lemma CombineAllMember(root: string, names: set<string>, path: string)
    requires root != "" && AreBareNames(names) && path in CombineAll(root, names)
    ensures GetFileName(path) in names && Combine(root, GetFileName(path)) == path
  {
    var name :| name in names && Combine(root, name) == path;
    CombineBareName(root, name);
  }

  /** Only an empty set of entries has no paths. */
  lemma CombineAllEmpty(root: string, names: set<string>)
    requires CombineAll(root, names) == {}
    ensures names == {}
  {
    assert forall name :: name in names ==> Combine(root, name) in CombineAll(root, names);
  }

  /** Dropping an entry drops exactly its path. */
  lemma CombineAllRemove(root: string, names: set<string>, name: string)
    requires root != "" && AreBareNames(names) && name in names
    ensures CombineAll(root, names - {name}) == CombineAll(root, names) - {Combine(root, name)}
  {
    forall other | other in names && Combine(root, other) == Combine(root, name)
      ensures other == name
    {
      CombineInjective(root, other, name);
    }
  }

  /** The scan behind GetExtension finds the unique index with its contract. */
  lemma ExtensionDotUnique(path: string, i: int)
    requires -1 <= i < |path|
    requires 0 <= i ==> path[i] == '.' && LastSeparator(path) < i
    requires forall j :: i < j < |path| && LastSeparator(path) < j ==> path[j] != '.'
    ensures ExtensionDot(path) == i
  {
  }

  /** The extension of a bare name runs from its last '.' when that is not its last character. */
  lemma ExtensionOfBareName(name: string, i: int)
    requires HasNoSeparator(name) && 0 <= i < |name| - 1 && name[i] == '.'
    requires forall j :: i < j < |name| ==> name[j] != '.'
    ensures GetExtension(name) == name[i..]
  {
    ExtensionDotUnique(name, i);
  }

  /**
   * GetExtension only looks past the last separator, so the extension of a
   * path is the extension of its file name.
   */
  lemma ExtensionOfFileName(path: string)
    ensures GetExtension(GetFileName(path)) == GetExtension(path)
  {
    var f := GetFileName(path);
    var start := LastSeparator(path) + 1;
    assert f == path[start..];
    assert LastSeparator(f) == -1;
    var d := ExtensionDot(path);
    var e := if d < 0 then -1 else d - start;
    forall j | e < j < |f| && LastSeparator(f) < j
      ensures f[j] != '.'
    {
      assert f[j] == path[start + j];
    }
    ExtensionDotUnique(f, e);
  }

  /** The extension of a stored file's path is the extension of its name. */
  lemma ExtensionBelowRoot(root: string, name: string)
    requires root != "" && name != "" && HasNoSeparator(name)
    ensures GetExtension(Combine(root, name)) == GetExtension(name)
  {
    CombineBareName(root, name);
    ExtensionOfFileName(Combine(root, name));
  }

  /**
   * Sanitising removes separators only: a bare ".." passes through
   * unchanged, a trailing separator leaves the empty name, and a traversal
   * prefix is cut back to its last component.
   */
  lemma SanitisingKeepsDotDot()
    ensures GetFileName("..") == ".."
    ensures GetFileName("uploads/") == ""
    ensures GetFileName("../../etc/passwd") == "passwd"
    ensures GetFileName("a/../..") == ".."
  {
    BareNameIsFileName("..");
    FileNameAfterSeparator("uploads/", "");
    FileNameAfterSeparator("../../etc/", "passwd");
    assert "../../etc/" + "passwd" == "../../etc/passwd";
    FileNameAfterSeparator("a/../", "..");
    assert "a/../" + ".." == "a/../..";
  }

  /** A name whose extension is non-empty is a real file name: not "", "." or "..". */
  lemma ExtensionExcludesDotNames(name: string)
    requires GetExtension(name) != ""
    ensures name != "" && name != "." && name != ".."
  {
  }
}
