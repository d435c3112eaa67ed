/** The string logic of TempDir (src/TempDir.php): cleaning up a location,
    validating and trimming a name, joining location and name into the full
    path, joining a relative path onto it, and telling a file path from a
    directory path. Every function here is a single PHP expression over
    strings; DIRECTORY_SEPARATOR is '/'. */
module TempDirPaths {
  import opened PhpString
  import opened Exceptions
  import opened FileSystem

  /** The characters isValidDirectoryName refuses: \ / ? % * : | " < > */
  const ForbiddenChars: set<char> := {'\\', '/', '?', '%', '*', ':', '|', '"', '<', '>'}

  /** The characters the generated name has removed from microtime(). */
  const MicrotimeNoise: set<char> := {' ', '.'}

  /** isValidDirectoryName: strpbrk finds none of the forbidden characters. */
  function IsValidDirectoryName(directoryName: string): (valid: bool)
    ensures valid <==> forall i :: 0 <= i < |directoryName| ==> directoryName[i] !in ForbiddenChars
  {
    StrPBrk(directoryName, ForbiddenChars).None?
  }

  /** sanitizeName: a name with a forbidden character raises
      InvalidDirectoryName; any other name is stored trimmed of whitespace. */
  function SanitizeName(name: string): (r: Result<string>)
    ensures r.Success? <==> IsValidDirectoryName(name)
    ensures r.Failure? ==> r.error == InvalidDirectoryName(InvalidDirectoryNameMessage(name))
    ensures r.Success? ==> IsValidDirectoryName(r.value) && Trimmed(r.value, Whitespace)
    ensures r.Success? ==> exists i :: OccursAt(r.value, name, i)
    ensures r.Success? ==> r.value == Trim(name, Whitespace)
  {
    if !IsValidDirectoryName(name) then
      Failure(InvalidDirectoryName(InvalidDirectoryNameMessage(name)))
    else
      var trimmed := Trim(name, Whitespace);
      var i: nat :| OccursAt(trimmed, name, i);
      assert forall j :: 0 <= j < |trimmed| ==> trimmed[j] == name[i + j];
      Success(trimmed)
  }

  /** sanitizePath: rtrim of whitespace, then rtrim of the separator. */
  function SanitizePath(path: string): (r: string)
    ensures |r| <= |path| && r == path[..|r|]
    ensures !EndsWith(r, Separator)
    ensures forall i :: |r| <= i < |path| ==> path[i] in Whitespace || path[i] == Separator
    ensures (path == [] || (path[|path| - 1] !in Whitespace && path[|path| - 1] != Separator)) ==> r == path
  {
    RTrim(RTrim(path, Whitespace), {Separator})
  }

  /** rtrim of a suffix made only of stripped characters gives the same
      result as without that suffix. */
  lemma {:induction false} RTrimIgnoresStrippedSuffix(s: string, t: string, chars: set<char>)
    requires forall i :: 0 <= i < |t| ==> t[i] in chars
    ensures RTrim(s + t, chars) == RTrim(s, chars)
    decreases |t|
  {
    if t != [] {
      var u := s + t;
      assert u[..|u| - 1] == s + t[..|t| - 1];
      RTrimIgnoresStrippedSuffix(s, t[..|t| - 1], chars);
    } else {
      assert s + t == s;
    }
  }

  /** A location typed with extra trailing separators and whitespace after
      it is stored the same as without them. */
  lemma SanitizePathAbsorbsTrailing(location: string, separators: string, spaces: string)
    requires location == [] || location[|location| - 1] !in Whitespace
    requires forall i :: 0 <= i < |separators| ==> separators[i] == Separator
    requires forall i :: 0 <= i < |spaces| ==> spaces[i] in Whitespace
    ensures SanitizePath(location + separators + spaces) == SanitizePath(location)
  {
    RTrimIgnoresStrippedSuffix(location + separators, spaces, Whitespace);
    assert RTrim(location, Whitespace) == location;
    if separators == [] {
      assert location + separators == location;
    } else {
      assert RTrim(location + separators, Whitespace) == location + separators;
    }
    RTrimIgnoresStrippedSuffix(location, separators, {Separator});
  }

  /** sanitizePath strips whitespace before separators, so it is not
      idempotent: "a / " becomes "a ", which would become "a". */
  lemma SanitizePathNotIdempotent()
    ensures SanitizePath("a / ") == "a "
    ensures SanitizePath("a ") == "a"
  {
    assert RTrim("a / ", Whitespace) == "a /" by {
      assert "a / "[..3] == "a /";
    }
    assert RTrim("a /", {Separator}) == "a " by {
      assert "a /"[..2] == "a ";
    }
    assert RTrim("a ", Whitespace) == "a" by {
      assert "a "[..1] == "a";
    }
  }

  /** getFullPath: the location, followed by the separator and the name
      unless the name is empty() in PHP's sense ("" or "0"). */
  function FullPath(location: string, name: string): string
  {
    location + (if !PhpEmpty(name) then [Separator] + name else "")
  }

  /** With a sanitized location and a valid name, the full path never ends
      with a separator, and its last segment is the name. */
  lemma FullPathShape(location: string, name: string)
    requires !EndsWith(location, Separator) && IsValidDirectoryName(name)
    ensures !EndsWith(FullPath(location, name), Separator)
    ensures PhpEmpty(name) ==> FullPath(location, name) == location
    ensures !PhpEmpty(name) ==>
      && FullPath(location, name)[..|location|] == location
      && StrRPos(FullPath(location, name), Separator) == Some(|location|)
      && FullPath(location, name)[|location| + 1..] == name
  {
    assert Separator in ForbiddenChars;
    if !PhpEmpty(name) {
      StrRPosOfJoin(location, Separator, name);
      assert FullPath(location, name) == location + [Separator] + name;
    }
  }

  /** path($pathOrFilename): the full path, or the full path joined with the
      argument trimmed of '/' at both ends. */
  function JoinPath(fullPath: string, pathOrFilename: string): string
  {
    if PhpEmpty(pathOrFilename) then fullPath
    else fullPath + [Separator] + Trim(pathOrFilename, {Separator})
  }

  /** What path() returns does not end with a separator when the full path
      does not and the argument is more than separators. */
  lemma JoinPathNoTrailingSeparator(fullPath: string, pathOrFilename: string)
    requires !EndsWith(fullPath, Separator)
    requires Trim(pathOrFilename, {Separator}) != ""
    ensures !EndsWith(JoinPath(fullPath, pathOrFilename), Separator)
  {
  }

  lemma {:induction false} LTrimIgnoresStrippedPrefix(t: string, s: string, chars: set<char>)
    requires forall i :: 0 <= i < |t| ==> t[i] in chars
    ensures LTrim(t + s, chars) == LTrim(s, chars)
    decreases |t|
  {
    if t != [] {
      assert (t + s)[1..] == t[1..] + s;
      LTrimIgnoresStrippedPrefix(t[1..], s, chars);
    } else {
      assert t + s == s;
    }
  }

  /** Separators around the argument of path() do not change the result:
      path("sub/dir/") and path("/sub/dir") both equal path("sub/dir"). */
  lemma JoinPathIgnoresOuterSeparators(fullPath: string, before: string, pathOrFilename: string, after: string)
    requires !PhpEmpty(pathOrFilename)
    requires forall i :: 0 <= i < |before| ==> before[i] == Separator
    requires forall i :: 0 <= i < |after| ==> after[i] == Separator
    ensures JoinPath(fullPath, before + pathOrFilename + after) == JoinPath(fullPath, pathOrFilename)
  {
    var q := before + pathOrFilename + after;
    if before == [] && after == [] {
      assert q == pathOrFilename;
    } else {
      assert |q| >= 2;
    }
    TrimIgnoresOuterSeparators(before, pathOrFilename, after);
  }

  /** trim($p, '/') does not see separators added at either end. */
  lemma TrimIgnoresOuterSeparators(before: string, p: string, after: string)
    requires forall i :: 0 <= i < |before| ==> before[i] == Separator
    requires forall i :: 0 <= i < |after| ==> after[i] == Separator
    ensures Trim(before + p + after, {Separator}) == Trim(p, {Separator})
  {
    assert before + p + after == before + (p + after);
    LTrimIgnoresStrippedPrefix(before, p + after, {Separator});
    var lp := LTrim(p, {Separator});
    if lp != [] {
      LTrimKeepsSuffix(p, after, {Separator});
      RTrimIgnoresStrippedSuffix(lp, after, {Separator});
    } else {
      LTrimIgnoresStrippedPrefix(p, after, {Separator});
      LTrimIgnoresStrippedPrefix(after, [], {Separator});
      assert after + [] == after;
    }
  }

  lemma {:induction false} LTrimKeepsSuffix(s: string, t: string, chars: set<char>)
    requires LTrim(s, chars) != []
    ensures LTrim(s + t, chars) == LTrim(s, chars) + t
    decreases |s|
  {
    if s[0] in chars {
      assert (s + t)[1..] == s[1..] + t;
      LTrimKeepsSuffix(s[1..], t, chars);
    }
  }

  /** isFilePath: the WHOLE path is searched for a period. */
  predicate IsFilePath(path: string)
  {
    '.' in path
  }

  /** removeFilenameFromPath: a path holding a period is cut at its last
      separator; substr with strrpos's false gives "". Any other path is
      returned unchanged. */
  function RemoveFilenameFromPath(path: string): (r: string)
    ensures !IsFilePath(path) ==> r == path
    ensures IsFilePath(path) && Separator !in path ==> r == ""
    ensures IsFilePath(path) && Separator in path ==>
      && |r| < |path| && r == path[..|r|] && path[|r|] == Separator
      && forall i :: |r| < i < |path| ==> path[i] != Separator
  {
    if !IsFilePath(path) then path
    else match StrRPos(path, Separator)
      case None => ""
      case Some(i) => path[..i]
  }

  /** The directory path() makes sure of never drops the full path: the
      separator path() inserts is always there to cut at. */
  lemma DirectoryOfJoinedPath(fullPath: string, pathOrFilename: string)
    requires !PhpEmpty(pathOrFilename)
    ensures var d := RemoveFilenameFromPath(JoinPath(fullPath, pathOrFilename));
      |fullPath| <= |d| && d[..|fullPath|] == fullPath
  {
    var joined := JoinPath(fullPath, pathOrFilename);
    assert joined[|fullPath|] == Separator;
  }

  /** For "dirs/file.ext" under a full path without periods, path() makes
      sure of the directory "dirs" and of nothing for the file. */
  lemma DirectoryOfFilePath(fullPath: string, pathOrFilename: string, dirs: string, file: string)
    requires !PhpEmpty(pathOrFilename)
    requires Trim(pathOrFilename, {Separator}) == dirs + [Separator] + file
    requires Separator !in file && '.' in file
    ensures JoinPath(fullPath, pathOrFilename) == fullPath + [Separator] + dirs + [Separator] + file
    ensures RemoveFilenameFromPath(JoinPath(fullPath, pathOrFilename)) == fullPath + [Separator] + dirs
  {
    var head := fullPath + [Separator] + dirs;
    assert JoinPath(fullPath, pathOrFilename) == head + [Separator] + file;
    RemoveFilenameCutsLastSegment(head, file);
  }

  /** A path whose last segment holds a period loses that segment. */
  lemma RemoveFilenameCutsLastSegment(head: string, file: string)
    requires Separator !in file && '.' in file
    ensures RemoveFilenameFromPath(head + [Separator] + file) == head
  {
    var joined := head + [Separator] + file;
    StrRPosOfJoin(head, Separator, file);
    var i :| 0 <= i < |file| && file[i] == '.';
    assert joined[|head| + 1 + i] == '.';
  }

  /** Because isFilePath looks at the whole path, a period anywhere in the
      location or name makes path("sub") make sure only of the full path,
      never of "sub". */
  lemma PeriodInFullPathHidesSubdirectory(fullPath: string, pathOrFilename: string)
    requires '.' in fullPath
    requires !PhpEmpty(pathOrFilename)
    requires Separator !in Trim(pathOrFilename, {Separator})
    ensures RemoveFilenameFromPath(JoinPath(fullPath, pathOrFilename)) == fullPath
  {
    var joined := JoinPath(fullPath, pathOrFilename);
    StrRPosOfJoin(fullPath, Separator, Trim(pathOrFilename, {Separator}));
    assert '.' in joined by {
      var i :| 0 <= i < |fullPath| && fullPath[i] == '.';
      assert joined[i] == '.';
    }
  }

  /** getSystemTemporaryDirectory: sys_get_temp_dir() with trailing
      separators removed (whitespace is kept). */
  function SystemTemporaryDirectory(systemTempDir: string): (r: string)
    ensures !EndsWith(r, Separator)
    ensures |r| <= |systemTempDir| && r == systemTempDir[..|r|]
    ensures forall i :: |r| <= i < |systemTempDir| ==> systemTempDir[i] == Separator
  {
    RTrim(systemTempDir, {Separator})
  }

  /** microtime() renders "msec sec": digits, a period and a space. */
  predicate IsMicrotime(microtime: string)
  {
    forall i :: 0 <= i < |microtime| ==> microtime[i] in Digits + MicrotimeNoise
  }

  /** The name create() gives a handle that has none:
      mt_rand() . '-' . str_replace([' ', '.'], '', microtime()). */
  function GeneratedName(rand: nat, microtime: string): string
  {
    Decimal(rand) + "-" + RemoveChars(microtime, MicrotimeNoise)
  }

  /** A generated name is never empty(), holds neither a space nor a period,
      and starts with the random number, which can be read back from it,
      followed by a dash. */
  lemma GeneratedNameShape(rand: nat, microtime: string)
    ensures var name := GeneratedName(rand, microtime);
      && ' ' !in name && '.' !in name
      && !PhpEmpty(name)
      && |name| > |Decimal(rand)| && name[|Decimal(rand)|] == '-'
      && (forall i :: 0 <= i < |Decimal(rand)| ==> name[i] in Digits)
      && DecimalValue(name[..|Decimal(rand)|]) == rand
  {
    var name := GeneratedName(rand, microtime);
    assert name[|Decimal(rand)|] == '-';
    assert name[..|Decimal(rand)|] == Decimal(rand);
    DecimalRoundTrip(rand);
  }

  /** The characters a generated name is made of. */
  const GeneratedNameChars: set<char> := Digits + {'-'}

  lemma GeneratedNameCharacters(rand: nat, microtime: string)
    requires IsMicrotime(microtime)
    ensures forall i :: 0 <= i < |GeneratedName(rand, microtime)| ==>
      GeneratedName(rand, microtime)[i] in GeneratedNameChars
  {
    var d := Decimal(rand);
    var m := RemoveChars(microtime, MicrotimeNoise);
    var name := GeneratedName(rand, microtime);
    RemoveCharsWithin(microtime, MicrotimeNoise, Digits + MicrotimeNoise);
    assert name == d + "-" + m;
    forall i | 0 <= i < |name|
      ensures name[i] in GeneratedNameChars
    {
      if i > |d| {
        assert name[i] == m[i - |d| - 1];
      } else if i < |d| {
        assert name[i] == d[i];
      }
    }
  }

  lemma DigitsAndDashesAreValidName(name: string)
    requires forall i :: 0 <= i < |name| ==> name[i] in GeneratedNameChars
    ensures IsValidDirectoryName(name)
  {
    assert forall c :: c in GeneratedNameChars ==> c == '-' || '0' <= c <= '9';
    assert forall c :: c == '-' || '0' <= c <= '9' ==> c !in ForbiddenChars;
  }

  lemma DigitsAndDashesAreTrimmed(name: string)
    requires forall i :: 0 <= i < |name| ==> name[i] in GeneratedNameChars
    ensures Trimmed(name, Whitespace)
  {
  }

  /** A generated name passes name validation and needs no trimming. */
  lemma GeneratedNameIsValid(rand: nat, microtime: string)
    requires IsMicrotime(microtime)
    ensures IsValidDirectoryName(GeneratedName(rand, microtime))
    ensures Trimmed(GeneratedName(rand, microtime), Whitespace)
  {
    GeneratedNameCharacters(rand, microtime);
    DigitsAndDashesAreValidName(GeneratedName(rand, microtime));
    DigitsAndDashesAreTrimmed(GeneratedName(rand, microtime));
  }
}
