/**
 * Path utilities: file name and extension extraction, the invalid-path
 * sentinel, separator normalisation, and the mapping of virtual paths
 * ("bin://", "app://", "usr://") to system paths.
 *
 * The base path and the preference path come from the platform library
 * and are parameters (`basePath`, `prefPath`).
 */
module Filesystem {
  import opened Wrappers

  /** The sentinel returned by the path functions on failure. It is an ordinary string. */
  const INVALID_PATH: string := "___INVALID_PATH___"

  /** The shortest virtual path accepted: the length of a 6-character prefix such as "bin://". */
  const MIN_VIRTUAL_PATH: nat := 6

  /** The position of the last `c` in `s`, if any. */
  function LastIndexOf(s: string, c: char): (r: Option<nat>)
    ensures r.Some? ==> r.value < |s| && s[r.value] == c && forall k :: r.value < k < |s| ==> s[k] != c
    ensures r.None? ==> forall k :: 0 <= k < |s| ==> s[k] != c
  {
    if s == [] then None
    else if s[|s| - 1] == c then Some(|s| - 1)
    else LastIndexOf(s[..|s| - 1], c)
  }

  /** The text after the last '/', or INVALID_PATH when there is no '/'. */
  function GetFileName(path: string): string
  {
    match LastIndexOf(path, '/')
    case None => INVALID_PATH
    case Some(i) => path[i + 1..]
  }

  predicate HasChar(s: string, c: char)
  {
    exists k :: 0 <= k < |s| && s[k] == c
  }

  /** A path without a '/' gives the sentinel. */
  lemma FileNameWithoutSeparator(path: string)
    ensures !HasChar(path, '/') <==> LastIndexOf(path, '/').None?
    ensures !HasChar(path, '/') ==> GetFileName(path) == INVALID_PATH
  {
    var found := LastIndexOf(path, '/');
    if found.Some? {
      assert path[found.value] == '/';
    }
  }

  /**
   * A path with a '/' gives a name that holds no '/' and that the path
   * ends with, right after a '/' (so a trailing '/' gives "").
   */
  lemma FileNameSplits(path: string)
    requires HasChar(path, '/')
    ensures !HasChar(GetFileName(path), '/')
    ensures exists prefix :: path == prefix + "/" + GetFileName(path)
    ensures path[|path| - 1] == '/' ==> GetFileName(path) == ""
  {
    FileNameWithoutSeparator(path);
    var i := LastIndexOf(path, '/').value;
    var name := GetFileName(path);
    assert name == path[i + 1..];
    assert path == path[..i] + "/" + name;
    forall k | 0 <= k < |name| ensures name[k] != '/' {
      assert name[k] == path[i + 1 + k];
    }
  }

  /** The sentinel cannot be told apart from a real file name of the same spelling. */
  lemma SentinelIsAmbiguous()
    ensures GetFileName("file") == GetFileName("dir/" + INVALID_PATH) == INVALID_PATH
  {
    assert LastIndexOf("file", '/') == None;
    assert ("dir/" + INVALID_PATH)[3] == '/';
    assert LastIndexOf("dir/" + INVALID_PATH, '/') == Some(3);
    assert ("dir/" + INVALID_PATH)[4..] == INVALID_PATH;
  }

  /** A string as C sees it: its characters up to the first NUL. */
  function CPrefix(s: string): (r: string)
    ensures |r| <= |s| && r == s[..|r|]
    ensures forall k :: 0 <= k < |r| ==> r[k] != '\0'
    ensures |r| < |s| ==> s[|r|] == '\0'
  {
    if s == [] || s[0] == '\0' then [] else [s[0]] + CPrefix(s[1..])
  }

  /**
   * The text after the last '.', or INVALID_PATH when there is no '.' or
   * the text from the last '.' on is the whole name. The search and the
   * result stop at an embedded NUL, as C's string functions do.
   */
  function GetFileExtension(filename: string): (r: string)
  {
    var c := CPrefix(filename);
    match LastIndexOf(c, '.')
    case None => INVALID_PATH
    case Some(d) => if c[d..] == filename then INVALID_PATH else c[d + 1..]
  }

  predicate NoNul(s: string)
  {
    forall k :: 0 <= k < |s| ==> s[k] != '\0'
  }

  /**
   * For a name without NUL: the result is the sentinel exactly when there
   * is no '.' or the last '.' is the first character; otherwise it is all
   * that follows the last '.', holds no '.', and is "" for a trailing '.'.
   */
  lemma FileExtensionSplits(filename: string)
    requires NoNul(filename)
    ensures !HasChar(filename, '.') ==> GetFileExtension(filename) == INVALID_PATH
    ensures HasChar(filename, '.') ==> LastIndexOf(filename, '.').Some?
    ensures LastIndexOf(filename, '.') == Some(0) ==> GetFileExtension(filename) == INVALID_PATH
    ensures match LastIndexOf(filename, '.')
            case Some(d) => d > 0 ==>
              && GetFileExtension(filename) == filename[d + 1..]
              && !HasChar(GetFileExtension(filename), '.')
              && exists stem :: |stem| > 0 && filename == stem + "." + GetFileExtension(filename)
            case None => true
  {
    CPrefixWhole(filename);
    match LastIndexOf(filename, '.')
    case None =>
    case Some(d) =>
      if d > 0 {
        ExtensionAfterDot(filename, d);
      }
  }

  /** With the last '.' at d > 0, the extension is what follows it. */
  lemma ExtensionAfterDot(filename: string, d: nat)
    requires NoNul(filename) && LastIndexOf(filename, '.') == Some(d) && d > 0
    ensures GetFileExtension(filename) == filename[d + 1..]
    ensures !HasChar(filename[d + 1..], '.')
    ensures exists stem :: |stem| > 0 && filename == stem + "." + filename[d + 1..]
  {
    CPrefixWhole(filename);
    assert |filename[d..]| < |filename|;
    var ext := filename[d + 1..];
    assert filename == filename[..d] + "." + ext;
    forall k | 0 <= k < |ext| ensures ext[k] != '.' {
      assert ext[k] == filename[d + 1 + k];
    }
  }

  lemma CPrefixWhole(s: string)
    requires NoNul(s)
    ensures CPrefix(s) == s
  {
  }

  /** The whole name is scanned, separators included: "a.b/c" gives "b/c". */
  lemma ExtensionSpansSeparators()
    ensures GetFileExtension("a.b/c") == "b/c"
  {
    var s := "a.b/c";
    CPrefixWhole(s);
    assert s[..4][..3][..2] == "a.";
    assert LastIndexOf(s, '.') == Some(1);
  }

  /** A name whose only '.' leads, such as ".git", gives the sentinel. */
  lemma LeadingDotIsInvalid()
    ensures GetFileExtension(".git") == INVALID_PATH
  {
    var s := ".git";
    CPrefixWhole(s);
    assert s[..3][..2][..1] == ".";
    assert LastIndexOf(s, '.') == Some(0);
  }

  /** Whether the path is the sentinel; "" is a valid path. */
  predicate IsPathInvalid(path: string)
  {
    path == INVALID_PATH
  }

  lemma EmptyPathIsValid()
    ensures !IsPathInvalid("")
    ensures IsPathInvalid(INVALID_PATH)
  {
  }

  /** The path with every '\' replaced by '/'. */
  function EnsureUnixPath(path: string): (r: string)
    ensures |r| == |path|
    ensures forall k :: 0 <= k < |path| ==> r[k] == if path[k] == '\\' then '/' else path[k]
  {
    if path == [] then [] else [if path[0] == '\\' then '/' else path[0]] + EnsureUnixPath(path[1..])
  }

  /** Normalising twice is normalising once; a path without '\' is unchanged, and a normalised path has none. */
  lemma EnsureUnixPathIdempotent(path: string)
    ensures EnsureUnixPath(EnsureUnixPath(path)) == EnsureUnixPath(path)
    ensures !HasChar(EnsureUnixPath(path), '\\')
    ensures !HasChar(path, '\\') ==> EnsureUnixPath(path) == path
  {
    var once := EnsureUnixPath(path);
    assert EnsureUnixPath(once) == once;
  }

  /** The organisation and application names stored for virtual path resolution. */
  class PrefNames {
    var names: Option<(string, string)>

    constructor ()
      ensures names == None
    {
      names := None;
    }

    /** Stores the two names; it always succeeds. */
    method SetPrefPath(org: string, app: string) returns (r: bool)
      modifies this
      ensures r
      ensures names == Some((org, app))
    {
      names := Some((org, app));
      r := true;
    }

    /**
     * "bin://rest" is the base path followed by rest; "app://rest" is the
     * preference path of the stored names followed by rest, and fails when
     * no names are stored or that path is the sentinel; everything else
     * ("usr://", unknown prefixes, inputs shorter than six characters) is
     * the sentinel. A mapped path is returned with Unix separators.
     */
    function MapVirtualToSystemPath(path: string, basePath: string, prefPath: (string, string) -> string): (r: string)
      reads this
    {
      if |path| < MIN_VIRTUAL_PATH then INVALID_PATH
      else
        var prefix, rest := path[..MIN_VIRTUAL_PATH], path[MIN_VIRTUAL_PATH..];
        if prefix == "bin://" then
          if IsPathInvalid(basePath) then INVALID_PATH else EnsureUnixPath(basePath + rest)
        else if prefix == "app://" then
          match names
          case None => INVALID_PATH
          case Some(n) => if IsPathInvalid(prefPath(n.0, n.1)) then INVALID_PATH else EnsureUnixPath(prefPath(n.0, n.1) + rest)
        else INVALID_PATH
    }

    /**
     * A mapped path is the sentinel or a known directory followed by the
     * text after the prefix, with Unix separators; "usr://" and short inputs
     * always fail, and "app://" fails while no names are stored. No result
     * contains a '\'.
     */
    lemma MapVirtualCases(path: string, basePath: string, prefPath: (string, string) -> string)
      ensures |path| < MIN_VIRTUAL_PATH ==> MapVirtualToSystemPath(path, basePath, prefPath) == INVALID_PATH
      ensures |path| >= MIN_VIRTUAL_PATH && path[..MIN_VIRTUAL_PATH] == "usr://" ==>
                MapVirtualToSystemPath(path, basePath, prefPath) == INVALID_PATH
      ensures names.None? && |path| >= MIN_VIRTUAL_PATH && path[..MIN_VIRTUAL_PATH] == "app://" ==>
                MapVirtualToSystemPath(path, basePath, prefPath) == INVALID_PATH
      ensures |path| >= MIN_VIRTUAL_PATH && path[..MIN_VIRTUAL_PATH] == "bin://" && !IsPathInvalid(basePath) ==>
                MapVirtualToSystemPath(path, basePath, prefPath) == EnsureUnixPath(basePath + path[MIN_VIRTUAL_PATH..])
      ensures names.Some? && |path| >= MIN_VIRTUAL_PATH && path[..MIN_VIRTUAL_PATH] == "app://"
              && !IsPathInvalid(prefPath(names.value.0, names.value.1)) ==>
                MapVirtualToSystemPath(path, basePath, prefPath) == EnsureUnixPath(prefPath(names.value.0, names.value.1) + path[MIN_VIRTUAL_PATH..])
      ensures MapVirtualToSystemPath(path, basePath, prefPath) != INVALID_PATH ==>
                |path| >= MIN_VIRTUAL_PATH && (path[..MIN_VIRTUAL_PATH] == "bin://" || path[..MIN_VIRTUAL_PATH] == "app://")
      ensures !HasChar(MapVirtualToSystemPath(path, basePath, prefPath), '\\')
    {
      var r := MapVirtualToSystemPath(path, basePath, prefPath);
      if r == INVALID_PATH {
        assert forall k :: 0 <= k < |INVALID_PATH| ==> INVALID_PATH[k] != '\\';
      } else if path[..MIN_VIRTUAL_PATH] == "bin://" {
        EnsureUnixPathIdempotent(basePath + path[MIN_VIRTUAL_PATH..]);
      } else {
        EnsureUnixPathIdempotent(prefPath(names.value.0, names.value.1) + path[MIN_VIRTUAL_PATH..]);
      }
    }
  }
}
