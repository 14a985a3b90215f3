/**
 * The path helpers of the Zip archive object (Zip.c): separator stripping,
 * joining, directory-entry creation for every prefix of a destination, the
 * directory name forms used by iteration, queries and extraction, and the
 * per-entry decision of the directory walk. The archive is the sequence of
 * its entry names, in the order they were added.
 */
module ZipPaths {
  import opened Wrappers
  import opened CStrings

  predicate IsSep(c: char) {
    c == '/' || c == '\\'
  }

  predicate HasNonSep(s: string) {
    exists k :: 0 <= k < |s| && !IsSep(s[k])
  }

  // ---------------------------------------------------------------- remove_trailing_sep

  /** The length left once the trailing separators are cut off. */
  function KeptLength(s: string): (n: nat)
    requires HasNonSep(s)
    ensures 0 < n <= |s| && !IsSep(s[n - 1])
    ensures forall k :: n <= k < |s| ==> IsSep(s[k])
  {
    if !IsSep(s[|s| - 1]) then |s|
    else
      var k :| 0 <= k < |s| && !IsSep(s[k]);
      assert HasNonSep(s[..|s| - 1]) by {
        assert s[..|s| - 1][k] == s[k];
      }
      var t := s[..|s| - 1];
      var n := KeptLength(t);
      assert forall j :: n <= j < |t| ==> IsSep(t[j]);
      n
  }

  /**
   * remove_trailing_sep on a C string: every trailing '/' or '\' is
   * overwritten with NUL in place; the buffer keeps its length. The source
   * needs a non-separator character, or its index runs below 0.
   */
  function RemoveTrailingSep(s: string): (buf: string)
    requires NoNul(s) && HasNonSep(s)
    ensures |buf| == |s|
  {
    var n := KeptLength(s);
    s[..n] + seq(|s| - n, _ => NUL)
  }

  /**
   * The string the caller sees afterwards is a non-empty prefix of the input
   * that does not end in a separator, and only separators were cut.
   */
  lemma StrippedPrefix(s: string)
    requires NoNul(s) && HasNonSep(s)
    ensures
      var r := CStr(RemoveTrailingSep(s));
      && 0 < |r| <= |s| && r == s[..|r|] && !IsSep(r[|r| - 1])
      && forall k :: |r| <= k < |s| ==> IsSep(s[k])
  {
    var n := KeptLength(s);
    var buf := RemoveTrailingSep(s);
    assert NoNul(s[..n]);
    if n < |s| {
      assert buf == s[..n] + [NUL] + seq(|s| - n - 1, _ => NUL);
      CStrOfTerminated(s[..n], seq(|s| - n - 1, _ => NUL));
    } else {
      assert buf == s;
      CStrOfNoNul(s);
    }
  }

  /** Stripping an already stripped string changes nothing. */
  lemma StripIdempotent(s: string)
    requires NoNul(s) && HasNonSep(s)
    ensures NoNul(CStr(RemoveTrailingSep(s))) && HasNonSep(CStr(RemoveTrailingSep(s)))
    ensures CStr(RemoveTrailingSep(CStr(RemoveTrailingSep(s)))) == CStr(RemoveTrailingSep(s))
  {
    StrippedPrefix(s);
    var r := CStr(RemoveTrailingSep(s));
    assert !IsSep(r[|r| - 1]);
    assert KeptLength(r) == |r|;
    assert RemoveTrailingSep(r) == r;
    CStrOfNoNul(r);
  }

  // ---------------------------------------------------------------- formatting into buffers

  /**
   * Microsoft's _snprintf(buf, count, ...) into a zeroed buffer: at most count
   * characters are written, and the terminator only when the text is shorter.
   */
  function MsSnprintf(count: nat, text: string): (buf: string)
    ensures |buf| == count
  {
    if |text| < count then text + [NUL] + seq(count - |text| - 1, _ => NUL)
    else text[..count]
  }

  /** C99 snprintf(buf, n, ...) with n > 0: at most n - 1 characters, always terminated. */
  function Snprintf(n: nat, text: string): (written: string)
    requires n > 0
    ensures 0 < |written| <= n && written[|written| - 1] == NUL
  {
    if |text| < n then text + [NUL] else text[..n - 1] + [NUL]
  }

  /** append_path: a calloc'd buffer of strlen(a) + strlen(b) + 2 holding "a/b". */
  function AppendPath(a: string, b: string): (buf: string)
    ensures |buf| == |CStr(a)| + |CStr(b)| + 2
  {
    MsSnprintf(|CStr(a)| + |CStr(b)| + 2, CStr(a) + "/" + CStr(b))
  }

  /** The joined path is exactly a + "/" + b, and the buffer holds it with its terminator. */
  lemma AppendPathJoins(a: string, b: string)
    ensures
      var buf := AppendPath(a, b);
      && CStr(buf) == CStr(a) + "/" + CStr(b)
      && buf[|buf| - 1] == NUL
  {
    var text := CStr(a) + "/" + CStr(b);
    assert NoNul(text) by {
      assert forall k :: 0 <= k < |text| ==> text[k] != NUL by {
        forall k | 0 <= k < |text|
          ensures text[k] != NUL
        {
          if k < |CStr(a)| {
            assert text[k] == CStr(a)[k];
          } else if k > |CStr(a)| {
            assert text[k] == CStr(b)[k - |CStr(a)| - 1];
          }
        }
      }
    }
    CStrOfTerminated(text, []);
    assert AppendPath(a, b) == text + [NUL] + [];
  }

  /** isdirectory: the query name is the directory followed by '/'. */
  function DirQuery(dir: string): (written: string)
  {
    Snprintf(|dir| + 2, CStr(dir) + "/")
  }

  lemma DirQueryForm(dir: string)
    ensures CStr(DirQuery(dir)) == CStr(dir) + "/"
  {
    var text := CStr(dir) + "/";
    assert NoNul(text) by {
      forall k | 0 <= k < |text|
        ensures text[k] != NUL
      {
        if k < |CStr(dir)| {
          assert text[k] == CStr(dir)[k];
        }
      }
    }
    assert DirQuery(dir) == text + [NUL] + [];
    CStrOfTerminated(text, []);
  }

  /**
   * extract: a calloc'd buffer of len + 2; strncpy copies the name up to its
   * first NUL and pads with zeros, then '/' goes at index len.
   */
  function ExtractDirName(name: string): (buf: string)
    ensures |buf| == |name| + 2
  {
    var c := CStr(name);
    c + seq(|name| - |c|, _ => NUL) + ['/', NUL]
  }

  /** The directory form of a NUL-free name is name + "/". */
  lemma ExtractDirNameOfPlain(name: string)
    requires NoNul(name)
    ensures CStr(ExtractDirName(name)) == name + "/"
  {
    CStrOfNoNul(name);
    var text := name + "/";
    assert NoNul(text) by {
      forall k | 0 <= k < |text|
        ensures text[k] != NUL
      {
        if k < |name| {
          assert text[k] == name[k];
        }
      }
    }
    assert ExtractDirName(name) == text + [NUL] + [];
    CStrOfTerminated(text, []);
  }

  /** An embedded NUL hides the '/': the directory form reads as the name up to the NUL. */
  lemma ExtractDirNameOfEmbedded(name: string)
    requires !NoNul(name)
    ensures CStr(ExtractDirName(name)) == CStr(name)
  {
    var c := CStr(name);
    var pad := seq(|name| - |c|, _ => NUL);
    assert |c| < |name|;
    assert ExtractDirName(name) == c + [NUL] + (pad[1..] + ['/', NUL]);
    CStrOfTerminated(c, pad[1..] + ['/', NUL]);
  }

  /** Zip_iter: the entry name with one trailing '/' removed. */
  function IterName(entry: string): (r: string)
    requires |entry| > 0
    ensures entry[|entry| - 1] == '/' ==> r + "/" == entry
    ensures entry[|entry| - 1] != '/' ==> r == entry
  {
    if entry[|entry| - 1] == '/' then entry[..|entry| - 1] else entry
  }

  /** The name iteration reports for a directory entry is the name its queries were built from. */
  lemma IterNameOfDirForm(dir: string)
    requires NoNul(dir)
    ensures CStr(DirQuery(dir)) == dir + "/" && IterName(dir + "/") == dir
  {
    DirQueryForm(dir);
    CStrOfNoNul(dir);
  }

  // ---------------------------------------------------------------- make_dir_path

  /**
   * The entries make_dir_path adds while scanning the first k characters: each
   * prefix ending in a separator, in increasing length, unless already present.
   */
  function NewDirs(entries: seq<string>, dir: string, k: nat): (r: seq<string>)
    requires k <= |dir|
    ensures forall j :: 0 <= j < |r| ==> 0 < |r[j]| <= k && r[j] == dir[..|r[j]|] && IsSep(r[j][|r[j]| - 1])
    ensures forall j :: 0 <= j < |r| ==> r[j] !in entries
    ensures forall a, b :: 0 <= a < b < |r| ==> |r[a]| < |r[b]|
  {
    if k == 0 then []
    else
      var before := NewDirs(entries, dir, k - 1);
      if IsSep(dir[k - 1]) && dir[..k] !in entries then before + [dir[..k]] else before
  }

  /** Every separator-ending prefix within the first k characters is present afterwards. */
  lemma {:induction false} NewDirsComplete(entries: seq<string>, dir: string, k: nat, m: nat)
    requires m <= k <= |dir| && 0 < m && IsSep(dir[m - 1])
    ensures dir[..m] in entries || dir[..m] in NewDirs(entries, dir, k)
  {
    if k > m {
      NewDirsComplete(entries, dir, k - 1, m);
    }
  }

  /** The entries added for the first k characters are all shorter than k + 1. */
  lemma NewDirsShorter(entries: seq<string>, dir: string, k: nat, prefix: string)
    requires k <= |dir| && |prefix| == k + 1
    ensures prefix !in NewDirs(entries, dir, k)
  {
    var r := NewDirs(entries, dir, k);
    forall j | 0 <= j < |r|
      ensures r[j] != prefix
    {
      assert |r[j]| <= k;
    }
  }

  /**
   * make_dir_path: scans the C string and, after each separator, looks the
   * prefix up in the archive and adds an entry for it when it is missing.
   */
  method MakeDirPath(entries: seq<string>, dir: string) returns (archive: seq<string>)
    requires NoNul(dir)
    ensures archive == entries + NewDirs(entries, dir, |dir|)
  {
    archive := entries;
    var i := 0;
    while i < |dir|
      invariant 0 <= i <= |dir|
      invariant archive == entries + NewDirs(entries, dir, i)
    {
      var ch := dir[i];
      i := i + 1;
      if IsSep(ch) {
        var prefix := dir[..i];
        NewDirsShorter(entries, dir, i - 1, prefix);
        if prefix !in archive {
          archive := archive + [prefix];
        }
      }
    }
  }

  // ---------------------------------------------------------------- write_dir

  /** The filter of write_dir: "." and "..", and also any name starting with "..". */
  predicate IsSkipped(name: string) {
    |name| > 0 && name[0] == '.' && (|name| == 1 || name[1] == '.')
  }

  lemma SkippedNames()
    ensures IsSkipped(".") && IsSkipped("..") && IsSkipped("..x")
    ensures !IsSkipped("") && !IsSkipped(".git") && !IsSkipped("a.b")
  {
  }

  /** What the walk does with one directory entry. */
  datatype Action =
    | Skip
    | Recurse(path: string, dest: string)
    | AddFile(entry: string, path: string)

  /**
   * write_dir's body for one entry found under `dir` (already stripped): a
   * sub-directory is walked with its path and its destination, a file is
   * added under its destination, and the archive's own file is passed over
   * unless both halves of its size are non-zero.
   */
  function EntryAction(dir: string, dest: Option<string>, name: string, isDir: bool,
                       sizeHighAndLow: bool, archiveName: string): (r: Action)
    requires NoNul(name)
    ensures IsSkipped(name) ==> r == Skip
    ensures !IsSkipped(name) && isDir ==> r.Recurse?
    ensures r.Recurse? ==> CStr(r.path) == CStr(dir) + "/" + name
    ensures r.AddFile? ==> CStr(r.path) == CStr(dir) + "/" + name
    ensures (r.Recurse? || r.AddFile?) && dest.None? ==> (if r.Recurse? then r.dest else r.entry) == name
    ensures (r.Recurse? || r.AddFile?) && dest.Some? ==>
      CStr(if r.Recurse? then r.dest else r.entry) == CStr(dest.value) + "/" + name
    ensures !IsSkipped(name) && !isDir ==> (r.Skip? <==> !sizeHighAndLow && name == archiveName)
  {
    CStrOfNoNul(name);
    AppendPathJoins(dir, name);
    if IsSkipped(name) then Skip
    else
      var path := AppendPath(dir, name);
      var target :=
        if dest.Some? then AppendPathJoins(dest.value, name); AppendPath(dest.value, name)
        else name;
      if isDir then Recurse(path, target)
      else if sizeHighAndLow || name != archiveName then AddFile(target, path)
      else Skip
  }

  /** The search pattern of write_dir: the stripped directory joined with "*". */
  function SearchPattern(dir: string): (buf: string)
    requires NoNul(dir) && HasNonSep(dir)
  {
    AppendPath(RemoveTrailingSep(dir), "*")
  }

  lemma SearchPatternForm(dir: string)
    requires NoNul(dir) && HasNonSep(dir)
    ensures
      var r := CStr(RemoveTrailingSep(dir));
      CStr(SearchPattern(dir)) == r + "/*" && !IsSep(r[|r| - 1])
  {
    StrippedPrefix(dir);
    AppendPathJoins(RemoveTrailingSep(dir), "*");
    CStrOfNoNul("*");
  }
}
