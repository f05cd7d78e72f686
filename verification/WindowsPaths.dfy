/** Windows path handling of the plugin, Common/ESDUtilitiesWindows.cpp. */
module WindowsPaths {
  import opened Text

  const BACKSLASH := '\\'
  const SLASH := '/'

  predicate IsDelimiter(c: char) {
    c == BACKSLASH || c == SLASH
  }

  predicate HasPrefix(s: string, prefix: string) {
    |s| >= |prefix| && |prefix| > 0 && s[..|prefix|] == prefix
  }

  predicate HasSuffix(s: string, suffix: string) {
    |s| >= |suffix| && |suffix| > 0 && s[|s| - |suffix|..] == suffix
  }

  /** The delimiter of a path: the platform's if the path has one, else the other. */
  function DelimiterOf(path: string): char {
    if FindLast(path, BACKSLASH) < 0 then SLASH else BACKSLASH
  }

  predicate IsNetworkDriveRoot(path: string) {
    && path != ""
    && var d := DelimiterOf(path);
       && HasPrefix(path, [d, d])
       && FindFirst(path[2..], d) == FindLast(path[2..], d)
  }

  /** The path without its trailing delimiters, of which a lone first one stays. */
  function Trimmed(path: string, d: char): (t: string)
    ensures t <= path
    ensures |t| <= 1 || t[|t| - 1] != d
  {
    if |path| > 1 && HasSuffix(path, [d]) then Trimmed(path[..|path| - 1], d) else path
  }

  /** The loop that removes trailing delimiters. */
  method TrimDelimiters(path: string, d: char) returns (t: string)
    ensures t == Trimmed(path, d)
  {
    t := path;
    while |t| > 1 && HasSuffix(t, [d])
      invariant Trimmed(t, d) == Trimmed(path, d)
      decreases |t|
    {
      t := t[..|t| - 1];
    }
  }

  // ----- GetFileName and GetExtension -----

  function FileName(path: string): string {
    if FindLast(path, DelimiterOf(path)) < 0 then path
    else if DelimiterOf(path) == BACKSLASH && HasSuffix(path, ":\\") then path
    else
      var d := DelimiterOf(path);
      var t := Trimmed(path, d);
      if t == "" || t == [d] then [d] else t[FindLast(t, d) + 1..]
  }

  method GetFileName(path: string) returns (name: string)
    ensures name == FileName(path)
  {
    var delimiter := BACKSLASH;
    var delimiterPosition := FindLast(path, delimiter);
    if delimiterPosition < 0 {
      delimiter := SLASH;
      delimiterPosition := FindLast(path, delimiter);
      if delimiterPosition < 0 {
        return path;
      }
    } else if HasSuffix(path, ":\\") {
      return path;
    }
    var t := TrimDelimiters(path, delimiter);
    if t == "" || t == [delimiter] {
      return [delimiter];
    }
    var pos := FindLast(t, delimiter);
    if pos >= 0 && |t| > pos {
      return t[pos + 1..];
    }
    return t;
  }

  function Extension(path: string): string {
    var fileName := FileName(path);
    var pos := FindLast(fileName, '.');
    if pos >= 0 && pos + 1 != |fileName| then fileName[pos..] else ""
  }

  method GetExtension(path: string) returns (extension: string)
    ensures extension == Extension(path)
  {
    var fileName := GetFileName(path);
    var pos := FindLast(fileName, '.');
    if pos >= 0 && pos + 1 != |fileName| {
      return fileName[pos..];
    } else {
      return "";
    }
  }

  // ----- AddPathComponent -----

  /** The path with every slash turned into a backslash. */
  function Normalised(s: string): (n: string)
    ensures |n| == |s|
    ensures forall i :: 0 <= i < |s| ==> n[i] == if s[i] == SLASH then BACKSLASH else s[i]
  {
    seq(|s|, i requires 0 <= i < |s| => if s[i] == SLASH then BACKSLASH else s[i])
  }

  /** Reading character 0 of an empty component gives a NUL, which is no delimiter. */
  predicate StartsWithDelimiter(s: string) {
    s != "" && IsDelimiter(s[0])
  }

  function Joined(path: string, component: string): string {
    if path == "" then component
    else
      var ends := IsDelimiter(path[|path| - 1]);
      var starts := StartsWithDelimiter(component);
      Normalised(if ends && starts then path + component[1..]
                 else if ends || starts then path + component
                 else path + [BACKSLASH] + component)
  }

  method AddPathComponent(path: string, component: string) returns (result: string)
    ensures result == Joined(path, component)
  {
    if |path| <= 0 {
      return component;
    }
    var lastChar := path[|path| - 1];
    var pathEndsWithDelimiter := BACKSLASH == lastChar || SLASH == lastChar;
    var compStartsWithDelimiter := StartsWithDelimiter(component);
    if pathEndsWithDelimiter && compStartsWithDelimiter {
      result := path + component[1..];
    } else if pathEndsWithDelimiter || compStartsWithDelimiter {
      result := path + component;
    } else {
      result := path + [BACKSLASH] + component;
    }
    ghost var joined := result;
    for i := 0 to |result|
      invariant |result| == |joined|
      invariant forall k :: 0 <= k < i ==> result[k] == Normalised(joined)[k]
      invariant forall k :: i <= k < |result| ==> result[k] == joined[k]
    {
      if result[i] == SLASH {
        result := result[i := BACKSLASH];
      }
    }
  }

  // ----- GetFolderPath -----

  /** The folder that is left of a path cut before a delimiter. */
  function Closed(found: string, d: char): string {
    if HasSuffix(found, ":\\") then found
    else if HasSuffix(found, ":") then found + "\\"
    else
      var f := Trimmed(found, d);
      if f == "" && d == SLASH then "/" else f
  }

  function FolderPath(path: string): string {
    var d := DelimiterOf(path);
    if HasSuffix(path, [':', d]) then path
    else if IsNetworkDriveRoot(path) then path
    else
      var t := Trimmed(path, d);
      var pos := FindLast(t, d);
      if pos >= 0 then Closed(path[..pos], d)
      else if HasSuffix(t, ":") then t + [d]
      else ""
  }

  method GetFolderPath(path: string) returns (folder: string)
    ensures folder == FolderPath(path)
  {
    var delimiter := BACKSLASH;
    var delimiterPosition := FindLast(path, delimiter);
    if delimiterPosition < 0 {
      delimiter := SLASH;
    }
    if HasSuffix(path, [':', delimiter]) {
      return path;
    }
    if IsNetworkDriveRoot(path) {
      return path;
    }
    var t := TrimDelimiters(path, delimiter);
    var pos := FindLast(t, delimiter);
    if pos >= 0 {
      var foundPath := path[..pos];
      if HasSuffix(foundPath, ":\\") {
        return foundPath;
      } else if HasSuffix(foundPath, ":") {
        return foundPath + "\\";
      }
      var f := TrimDelimiters(foundPath, delimiter);
      if f == "" && delimiter == SLASH {
        return "/";
      }
      return f;
    }
    if HasSuffix(t, ":") {
      return t + [delimiter];
    }
    return "";
  }

  // ----- The walk towards the root -----

  /** A drive without a delimiter, such as "C:", whose folder is longer than it is. */
  predicate IsBareDrive(path: string) {
    HasSuffix(path, ":") && BACKSLASH !in path && SLASH !in path
  }

  lemma {:induction false} TrimmedRest(path: string, d: char)
    ensures var t := Trimmed(path, d);
            (forall i :: |t| <= i < |path| ==> path[i] == d) && (path != "" ==> t != "")
  {
    if Trimmed(path, d) != path {
      assert path[|path| - 1..] == [d];
      assert path[|path| - 1] == d;
      TrimmedRest(path[..|path| - 1], d);
    }
  }

  /** What trimming leaves: all that is cut off is delimiters, none is left at the end, and a lone first one stays. */
  lemma TrimmedIff(path: string, d: char, t: string)
    ensures t == Trimmed(path, d) <==>
              && t <= path && (forall i :: |t| <= i < |path| ==> path[i] == d)
              && (|t| <= 1 || t[|t| - 1] != d) && (path != "" ==> t != "")
  {
    var u := Trimmed(path, d);
    TrimmedRest(path, d);
    if t <= path && |t| < |u| {
      assert u[|u| - 1] == path[|u| - 1];
    } else if t <= path && |u| < |t| {
      assert t[|t| - 1] == path[|t| - 1];
    }
  }

  /** What trimming removes starts and ends with the delimiter. */
  lemma TrimmedTail(path: string, d: char)
    ensures var t := Trimmed(path, d);
            t == path || (|t| < |path| && path[|t|] == d && path[|path| - 1] == d)
  {
    TrimmedRest(path, d);
  }

  lemma SuffixChar(s: string, c: char)
    ensures HasSuffix(s, [c]) <==> |s| >= 1 && s[|s| - 1] == c
  {
    if |s| >= 1 {
      var tail := s[|s| - 1..];
      assert tail == [s[|s| - 1]];
      assert tail[0] == s[|s| - 1] && [c][0] == c;
    }
  }

  lemma SuffixPair(s: string, c: char, d: char)
    ensures HasSuffix(s, [c, d]) <==> |s| >= 2 && s[|s| - 2] == c && s[|s| - 1] == d
  {
    if |s| >= 2 {
      var tail, pair := s[|s| - 2..], [c, d];
      assert |tail| == |pair| == 2;
      assert tail[0] == s[|s| - 2] && tail[1] == s[|s| - 1];
      if tail[0] == c && tail[1] == d {
        assert tail == pair;
      } else {
        assert pair[0] == c && pair[1] == d;
      }
    }
  }

  /** A text starts with what it was started with, and ends with what it was ended with, unless that is empty. */
  lemma Affixes(s: string, affix: string)
    ensures HasPrefix(affix + s, affix) <==> affix != ""
    ensures HasSuffix(s + affix, affix) <==> affix != ""
  {
  }

  /** A suffix of one or two characters, read character by character. */
  lemma SuffixChars(s: string, c: char, d: char)
    ensures HasSuffix(s, [c]) <==> |s| >= 1 && s[|s| - 1] == c
    ensures HasSuffix(s, [c, d]) <==> |s| >= 2 && s[|s| - 2] == c && s[|s| - 1] == d
  {
    hide HasSuffix;
    SuffixChar(s, c);
    SuffixPair(s, c, d);
  }

  lemma ClosedShape(found: string, d: char)
    ensures var f := Closed(found, d);
            && (|f| <= |found| || (|f| == |found| + 1 && (found == "" ==> d == SLASH && f == "/")))
            && (IsBareDrive(f) ==> |f| < |found|)
  {
    var f := Closed(found, d);
    TrimmedTail(found, d);
    SuffixChars(found, ':', d);
    if f != "" {
      SuffixChars(f, ':', d);
      if f[|f| - 1] == BACKSLASH {
        assert FindLast(f, BACKSLASH) >= 0;
      }
    }
  }

  /** Cutting at a delimiter gives a shorter path; a drive without delimiter is then at least three shorter. */
  lemma CutShape(path: string)
    requires FindLast(Trimmed(path, DelimiterOf(path)), DelimiterOf(path)) >= 0
    ensures var f := FolderPath(path);
            f == path || (|f| < |path| && (IsBareDrive(f) ==> |f| + 3 <= |path|))
  {
    hide Closed, IsNetworkDriveRoot, IsBareDrive, DelimiterOf;
    var d := DelimiterOf(path);
    var t := Trimmed(path, d);
    var pos := FindLast(t, d);
    ClosedShape(path[..pos], d);
    if |t| > 1 {
      assert t[pos] == d && t[|t| - 1] != d;
      assert |path[..pos]| + 2 <= |path|;
    } else {
      assert path[..pos] == "";
    }
  }

  /** With nothing to cut at, the folder is a drive's, which gets a delimiter, or there is none. */
  lemma NameShape(path: string)
    requires FindLast(Trimmed(path, DelimiterOf(path)), DelimiterOf(path)) < 0
    ensures var f := FolderPath(path);
            || f == path
            || (|f| < |path| && !IsBareDrive(f))
            || (IsBareDrive(path) && f == path + "/")
  {
    hide IsNetworkDriveRoot, Closed, HasSuffix, Trimmed;
    var d := DelimiterOf(path);
    var t := Trimmed(path, d);
    var f := FolderPath(path);
    assert [':'] == ":";
    TrimmedTail(path, d);
    SuffixChars(path, ':', d);
    SuffixChars(f, ':', d);
    if f == t + [d] {
      SuffixChars(t, ':', d);
      if t == path {
        assert d !in path && FindLast(path, BACKSLASH) < 0;
      }
    }
  }

  lemma DriveRootStays(path: string)
    requires IsBareDrive(path)
    ensures FolderPath(path + "/") == path + "/"
  {
    hide Closed, IsNetworkDriveRoot;
    var root := path + "/";
    SuffixChars(path, ':', SLASH);
    SuffixChars(root, ':', SLASH);
    assert BACKSLASH !in root;
    assert DelimiterOf(root) == SLASH && HasSuffix(root, [':', SLASH]);
    hide HasSuffix, Trimmed, FindLast, DelimiterOf, IsBareDrive;
  }

  /** The folder of a path is the path, or shorter, or a bare drive with a slash, at which the walk stops. */
  lemma FolderPathShape(path: string)
    ensures var f := FolderPath(path);
            || f == path
            || (|f| < |path| && (IsBareDrive(f) ==> |f| + 3 <= |path|))
            || (IsBareDrive(path) && f == path + "/" && FolderPath(f) == f)
  {
    hide FolderPath;
    if FindLast(Trimmed(path, DelimiterOf(path)), DelimiterOf(path)) >= 0 {
      CutShape(path);
    } else {
      NameShape(path);
      if IsBareDrive(path) {
        DriveRootStays(path);
      }
    }
  }

  /** What the walk makes smaller: the length alone grows from a bare drive to its root. */
  function WalkMeasure(path: string): nat {
    |path| + if IsBareDrive(path) then 2 else 0
  }

  lemma WalkDescends(path: string)
    ensures FolderPath(path) != path ==> WalkMeasure(FolderPath(path)) < WalkMeasure(path)
  {
    hide FolderPath;
    FolderPathShape(path);
    if IsBareDrive(path) && FolderPath(path) == path + "/" {
      var f := FolderPath(path);
      assert f[|f| - 1] == SLASH;
    }
  }

  /** The k-th folder above a path. */
  ghost function Ancestor(path: string, k: nat): string {
    if k == 0 then path else FolderPath(Ancestor(path, k - 1))
  }

  lemma {:induction false} AncestorsOfFixed(path: string, k: nat, j: nat)
    requires FolderPath(Ancestor(path, k)) == Ancestor(path, k)
    requires j >= k
    ensures Ancestor(path, j) == Ancestor(path, k)
  {
    hide FolderPath;
    if j > k {
      AncestorsOfFixed(path, k, j - 1);
    }
  }

  const PLUGIN_EXTENSION := ".sdPlugin"

  /** What the walk looks for, in terms of the file name. */
  predicate IsPlugin(path: string) {
    var name := FileName(path);
    |name| >= 9 && name[|name| - 9..] == ".sdPlugin"
  }

  lemma PluginIff(path: string)
    ensures Extension(path) == PLUGIN_EXTENSION <==> IsPlugin(path)
  {
    hide FileName;
    assert PLUGIN_EXTENSION[0] == '.' && '.' !in PLUGIN_EXTENSION[1..];
    LastDotIff(FileName(path), PLUGIN_EXTENSION);
  }

  lemma LastDotIff(name: string, extension: string)
    requires |extension| >= 2 && extension[0] == '.' && '.' !in extension[1..]
    ensures var pos := FindLast(name, '.');
            (if pos >= 0 && pos + 1 != |name| then name[pos..] else "") == extension <==>
              |name| >= |extension| && name[|name| - |extension|..] == extension
  {
    if |name| >= |extension| {
      var at := |name| - |extension|;
      var tail := name[at..];
      if tail == extension {
        assert name[at] == tail[0];
        forall i | at < i < |name| ensures name[i] != '.' {
          assert name[i] == tail[i - at] == extension[1..][i - at - 1];
        }
        FindLastUnique(name, '.', at);
      }
    }
  }

  /** The walk stops early only at paths that are their own folder and no plugin. */
  lemma StopsAtRoots(path: string)
    requires path == "" || path == "/" || HasSuffix(path, ":\\")
    ensures FolderPath(path) == path && !IsPlugin(path)
  {
    if path == "/" {
      assert FindLast(path, SLASH) == 0;
      assert Trimmed(path, SLASH) == path;
      assert FolderPath(path) == "/";
      assert FileName(path) == "/";
    } else if path != "" {
      assert path[|path| - 2..] == ":\\";
      assert path[|path| - 1] == BACKSLASH;
      assert FileName(path) == path;
      if |path| >= 9 {
        assert path[|path| - 9..][8] == BACKSLASH && ".sdPlugin"[8] == 'n';
      }
    }
  }

  /** The walk over the executable's own path, here any start. */
  method GetPluginPath(start: string) returns (found: string)
    ensures found != "" ==> exists k: nat ::
              && found == Ancestor(start, k) && IsPlugin(found)
              && forall j: nat :: j < k ==> !IsPlugin(Ancestor(start, j))
    ensures found == "" ==> forall k: nat :: !IsPlugin(Ancestor(start, k))
  {
    hide FolderPath, Extension, IsPlugin;
    var path := start;
    ghost var k: nat := 0;
    while path != ""
      invariant path == Ancestor(start, k)
      invariant forall j: nat :: j < k ==> !IsPlugin(Ancestor(start, j))
      decreases WalkMeasure(path)
    {
      if path == "/" || HasSuffix(path, ":\\") {
        break;
      }
      var extension := GetExtension(path);
      PluginIff(path);
      if extension == PLUGIN_EXTENSION {
        return path;
      }
      var parent := GetFolderPath(path);
      if parent == path {
        NoPluginAbove(start, k);
        return "";
      }
      WalkDescends(path);
      path := parent;
      k := k + 1;
    }
    StopsAtRoots(path);
    NoPluginAbove(start, k);
    return "";
  }

  /** A fixed point of the walk that is no plugin leaves no plugin further up. */
  lemma NoPluginAbove(start: string, k: nat)
    requires FolderPath(Ancestor(start, k)) == Ancestor(start, k)
    requires forall j: nat :: j <= k ==> !IsPlugin(Ancestor(start, j))
    ensures forall j: nat :: !IsPlugin(Ancestor(start, j))
  {
    hide FolderPath, IsPlugin;
    forall j: nat ensures !IsPlugin(Ancestor(start, j)) {
      if j > k {
        AncestorsOfFixed(start, k, j);
      }
    }
  }

  // ----- Join and split -----

  predicate IsName(name: string) {
    name != "" && BACKSLASH !in name && SLASH !in name
  }

  /**
   * One delimiter stands at the seam of a join, in place of one that ended the path and one that
   * started the component, and no slash is left anywhere.
   */
  lemma JoinedSeam(path: string, component: string)
    requires path != ""
    ensures var stem := if path[|path| - 1] in "\\/" then path[..|path| - 1] else path;
            var rest := if component != "" && component[0] in "\\/" then component[1..] else component;
            var j := Joined(path, component);
            && '/' !in j && |j| == |stem| + 1 + |rest| && j[|stem|] == '\\'
            && (forall i :: 0 <= i < |stem| ==> j[i] == if stem[i] == '/' then '\\' else stem[i])
            && (forall i :: 0 <= i < |rest| ==> j[|stem| + 1 + i] == if rest[i] == '/' then '\\' else rest[i])
  {
    DelimiterChars(path[|path| - 1]);
    if component != "" {
      DelimiterChars(component[0]);
    }
    var ends, starts := IsDelimiter(path[|path| - 1]), StartsWithDelimiter(component);
    hide IsDelimiter;
    var joined := if ends && starts then path + component[1..]
                  else if ends || starts then path + component
                  else path + [BACKSLASH] + component;
    assert Joined(path, component) == Normalised(joined);
  }

  lemma DelimiterChars(c: char)
    ensures IsDelimiter(c) <==> c in "\\/"
  {
  }

  /** A folder closed by a backslash. */
  function AsFolder(n: string): (c: string)
    requires n != ""
    ensures |c| >= 1 && c[|c| - 1] == BACKSLASH
  {
    if n[|n| - 1] == BACKSLASH then n else n + [BACKSLASH]
  }

  /** A joined path is the normalised folder, closed by a delimiter, and the name. */
  lemma JoinedParts(folder: string, name: string)
    requires folder != "" && IsName(name)
    ensures Joined(folder, name) == AsFolder(Normalised(folder)) + name
  {
  }

  /** The last delimiter of a folder followed by a name is the one between them, and nothing is trimmed. */
  lemma LastDelimiter(j: string, name: string)
    requires IsName(name) && |j| > |name| && j[|j| - |name|..] == name && j[|j| - |name| - 1] == BACKSLASH
    ensures FindLast(j, BACKSLASH) == |j| - |name| - 1
    ensures DelimiterOf(j) == BACKSLASH && Trimmed(j, BACKSLASH) == j && !HasSuffix(j, ":\\")
  {
    assert forall i :: |j| - |name| <= i < |j| ==> j[i] == name[i - (|j| - |name|)];
    FindLastUnique(j, BACKSLASH, |j| - |name| - 1);
    SuffixChars(j, ':', BACKSLASH);
    SuffixChars(j, BACKSLASH, BACKSLASH);
  }

  lemma FolderOfSplit(j: string, name: string)
    requires IsName(name) && |j| > |name| && j[|j| - |name|..] == name && j[|j| - |name| - 1] == BACKSLASH
    ensures FolderPath(j) == if IsNetworkDriveRoot(j) then j else Closed(j[..|j| - |name| - 1], BACKSLASH)
  {
    hide IsNetworkDriveRoot, Closed, Trimmed, FindLast, DelimiterOf, HasSuffix, IsName;
    LastDelimiter(j, name);
    assert [':', BACKSLASH] == ":\\";
    assert FolderPath(j) == if IsNetworkDriveRoot(j) then j else Closed(j[..FindLast(j, BACKSLASH)], BACKSLASH);
  }

  /** The file name of a join is the name that was joined, whatever the folder. */
  lemma FileNameOfJoined(folder: string, name: string)
    requires IsName(name)
    ensures FileName(Joined(folder, name)) == name
  {
    if folder == "" {
      FindLastUnique(name, BACKSLASH, -1);
      FindLastUnique(name, SLASH, -1);
    } else {
      hide Joined, Normalised;
      JoinedParts(folder, name);
      LastDelimiter(Joined(folder, name), name);
    }
  }

  /** Closing the folder part of a path gives n back unless n ended in a delimiter or a colon. */
  lemma ClosedAgain(n: string)
    requires n != ""
    ensures n[|n| - 1] != BACKSLASH ==> (Closed(n, BACKSLASH) == n <==> n[|n| - 1] != ':')
    ensures n[|n| - 1] == BACKSLASH ==> (Closed(n[..|n| - 1], BACKSLASH) == n <==> HasSuffix(n, ":\\"))
  {
    SuffixChars(n, ':', BACKSLASH);
    SuffixChars(n, BACKSLASH, BACKSLASH);
    if n[|n| - 1] == BACKSLASH {
      var found := n[..|n| - 1];
      SuffixChars(found, ':', BACKSLASH);
      assert n == found + "\\";
    }
  }

  // ----- Network roots -----

  /** Two delimiters and at most a server, closed by a delimiter: every entry is taken for a network root. */
  predicate IsNetworkFolder(c: string, d: char) {
    |c| >= 2 && c[0] == d && c[1] == d && forall i :: 2 <= i < |c| - 1 ==> c[i] != d
  }

  /** The first and the last occurrence are one exactly when none comes before the last. */
  lemma FirstIsLastIff(s: string, d: char)
    ensures FindFirst(s, d) == FindLast(s, d) <==> forall i :: 0 <= i < FindLast(s, d) ==> s[i] != d
  {
  }

  lemma NetworkEntryIff(c: string, name: string, d: char)
    requires c != "" && c[|c| - 1] == d && d !in name && DelimiterOf(c + name) == d
    ensures IsNetworkDriveRoot(c + name) <==> IsNetworkFolder(c, d)
  {
    hide DelimiterOf;
    var path := c + name;
    assert HasPrefix(path, [d, d]) <==> |path| >= 2 && path[0] == d && path[1] == d by {
      if |path| >= 2 {
        assert path[..2] == [path[0], path[1]];
        assert [d, d][0] == d && [d, d][1] == d;
      }
    }
    if |c| == 1 {
      assert |path| >= 2 ==> path[1] == name[0];
    } else {
      BehindPair(c, name, d);
    }
  }

  lemma BehindPair(c: string, name: string, d: char)
    requires |c| >= 2 && c[|c| - 1] == d && d !in name
    ensures var s := (c + name)[2..];
            FindFirst(s, d) == FindLast(s, d) <==> forall i :: 2 <= i < |c| - 1 ==> c[i] != d
  {
    var s := (c + name)[2..];
    assert s == c[2..] + name;
    assert forall i :: |c| - 2 <= i < |s| ==> s[i] == name[i - (|c| - 2)];
    assert forall i :: 2 <= i < |c| ==> s[i - 2] == c[i];
    FindLastUnique(s, d, if |c| == 2 then -1 else |c| - 3);
    FirstIsLastIff(s, d);
    assert (forall i :: 0 <= i < |c| - 3 ==> s[i] != d) <==> forall i :: 2 <= i < |c| - 1 ==> c[i] != d by {
      forall i | 0 <= i < |c| - 3 ensures s[i] == c[i + 2] {
      }
    }
  }

  lemma EntryOf(c: string, name: string)
    requires c != "" && c[|c| - 1] == BACKSLASH && IsName(name)
    ensures IsNetworkDriveRoot(c + name) <==> IsNetworkFolder(c, BACKSLASH)
  {
    hide IsNetworkDriveRoot, IsNetworkFolder;
    assert (c + name)[|c|..] == name;
    LastDelimiter(c + name, name);
    NetworkEntryIff(c, name, BACKSLASH);
  }

  // ----- Splitting what was joined -----

  /** Whether an entry of a folder is taken for a network root can be told from the folder. */
  lemma JoinedRootIff(folder: string, name: string)
    requires folder != "" && IsName(name)
    ensures IsNetworkDriveRoot(Joined(folder, name)) <==> IsNetworkFolder(AsFolder(Normalised(folder)), BACKSLASH)
  {
    hide Joined, Normalised, IsNetworkDriveRoot, IsNetworkFolder;
    JoinedParts(folder, name);
    EntryOf(AsFolder(Normalised(folder)), name);
  }

  /**
   * The folder of a join is the normalised folder exactly when that is a drive root or ends in neither
   * a delimiter nor a colon, and is not two delimiters and a server.
   */
  lemma FolderPathOfJoined(folder: string, name: string)
    requires folder != "" && IsName(name)
    ensures var n := Normalised(folder);
            FolderPath(Joined(folder, name)) == n <==>
              && !IsNetworkFolder(AsFolder(n), BACKSLASH)
              && (HasSuffix(n, ":\\") || n[|n| - 1] !in [BACKSLASH, ':'])
  {
    hide *;
    JoinedParts(folder, name);
    JoinedRootIff(folder, name);
    FolderPathOfEntry(Normalised(folder), name);
  }

  lemma FolderPathOfEntry(n: string, name: string)
    requires n != "" && IsName(name)
    ensures FolderPath(AsFolder(n) + name) == n <==>
              && !IsNetworkDriveRoot(AsFolder(n) + name)
              && (HasSuffix(n, ":\\") || n[|n| - 1] !in [BACKSLASH, ':'])
  {
    hide Closed, IsNetworkDriveRoot, FolderPath;
    var c := AsFolder(n);
    var path := c + name;
    assert path[|c|..] == name && path[..|c| - 1] == c[..|c| - 1];
    assert c[..|c| - 1] == if n[|n| - 1] == BACKSLASH then n[..|n| - 1] else n;
    FolderOfSplit(path, name);
    ClosedAgain(n);
    SuffixChars(n, ':', BACKSLASH);
    assert [':', BACKSLASH] == ":\\";
    hide HasSuffix, AsFolder, IsName;
  }

  /** Joining and splitting undo each other, unless two delimiters start the folder or one, or a colon, ends it. */
  lemma JoinSplit(folder: string, name: string)
    requires folder != "" && IsName(name)
    requires !IsDelimiter(folder[|folder| - 1]) && folder[|folder| - 1] != ':'
    requires |folder| >= 2 ==> !IsDelimiter(folder[0]) || !IsDelimiter(folder[1])
    ensures FileName(Joined(folder, name)) == name
    ensures FolderPath(Joined(folder, name)) == Normalised(folder)
  {
    hide FileName, FolderPath, Joined, HasSuffix;
    FileNameOfJoined(folder, name);
    FolderPathOfJoined(folder, name);
  }

  /** A name alone has no folder unless it is a drive, whose folder is its root. */
  lemma FolderPathOfName(name: string)
    requires IsName(name)
    ensures FolderPath(Joined("", name)) == if HasSuffix(name, ":") then name + "/" else ""
  {
    FindLastUnique(name, BACKSLASH, -1);
    SuffixChars(name, ':', SLASH);
    SuffixChars(name, SLASH, SLASH);
  }

  /** The extension of a join is that of the joined name. */
  lemma ExtensionOfJoined(folder: string, stem: string, extension: string)
    requires IsName(stem + "." + extension) && extension != "" && '.' !in extension
    ensures Extension(Joined(folder, stem + "." + extension)) == "." + extension
  {
    hide FileName, Joined;
    var name := stem + "." + extension;
    FileNameOfJoined(folder, name);
    assert name[|stem|..] == "." + extension;
    assert forall i :: |stem| < i < |name| ==> name[i] == extension[i - |stem| - 1];
    FindLastUnique(name, '.', |stem|);
  }

  /** The file name of a drive root is the root, and of a path of delimiters only, a single one. */
  lemma RootFileNames(path: string)
    ensures |path| >= 2 && path[|path| - 2..] == ":\\" ==> FileName(path) == path
    ensures path != "" && (forall i :: 0 <= i < |path| ==> path[i] == '\\') ==> FileName(path) == "\\"
    ensures path != "" && (forall i :: 0 <= i < |path| ==> path[i] == '/') ==> FileName(path) == "/"
  {
    SuffixChars(path, ':', BACKSLASH);
    if path != "" {
      var d := path[0];
      if d in "\\/" && forall i :: 0 <= i < |path| ==> path[i] == d {
        TrimmedIff(path, d, [d]);
        assert FindLast(path, d) >= 0;
      } else if |path| >= 2 && path[|path| - 2..] == ":\\" {
        assert path[|path| - 1] == BACKSLASH && FindLast(path, BACKSLASH) >= 0;
      }
    }
  }

  /** A name without a dot, or with one at its end only, has no extension. */
  lemma NoExtension(folder: string, name: string)
    requires IsName(name) && ('.' !in name || name[|name| - 1] == '.')
    ensures Extension(Joined(folder, name)) == ""
  {
    hide FileName, Joined;
    FileNameOfJoined(folder, name);
    FindLastUnique(name, '.', if name[|name| - 1] == '.' then |name| - 1 else -1);
  }

  /** The folder of a join, whatever the folder. */
  lemma FolderPathValue(folder: string, name: string)
    requires folder != "" && IsName(name)
    ensures var c := AsFolder(Normalised(folder));
            var m := c[..|c| - 1];
            FolderPath(Joined(folder, name)) ==
              if IsNetworkFolder(c, '\\') then Joined(folder, name)
              else if HasSuffix(m, ":\\") then m
              else if HasSuffix(m, ":") then m + "\\"
              else Trimmed(m, '\\')
  {
    hide Joined, Normalised, IsNetworkDriveRoot, IsNetworkFolder, FolderPath, HasSuffix, Trimmed;
    var c := AsFolder(Normalised(folder));
    JoinedParts(folder, name);
    JoinedRootIff(folder, name);
    assert (c + name)[|c|..] == name && (c + name)[..|c| - 1] == c[..|c| - 1];
    FolderOfSplit(c + name, name);
  }

  /**
   * Trailing delimiters behind a join do not count, except that a single one makes a root of a name that
   * ends in a colon, and of a server.
   */
  lemma TrailingDelimiters(folder: string, name: string, rest: string)
    requires folder != "" && IsName(name) && rest != "" && forall i :: 0 <= i < |rest| ==> rest[i] == '\\'
    ensures var path := Joined(folder, name) + rest;
            var n := Normalised(folder);
            && (FileName(path) == if |rest| == 1 && name[|name| - 1] == ':' then path else name)
            && (if |rest| == 1 && (name[|name| - 1] == ':' || AsFolder(n) == "\\\\") then FolderPath(path) == path
                else FolderPath(path) == n <==> HasSuffix(n, ":\\") || n[|n| - 1] !in "\\:")
  {
    hide Joined, Normalised, FileName, FolderPath, Closed, HasSuffix;
    JoinedParts(folder, name);
    var n := Normalised(folder);
    var c := AsFolder(n);
    assert c[..|c| - 1] == if n[|n| - 1] == '\\' then n[..|n| - 1] else n;
    ClosedAgain(n);
    SuffixChars(n, ':', '\\');
    assert ['\\', '\\'] == "\\\\" && [':', '\\'] == ":\\";
    assert Trailed(c, name, rest, '\\');
    hide AsFolder, Trailed, IsName;
    PathWithTail(c, name, rest, '\\');
  }

  /** A path of one delimiter kind: a folder closed by a delimiter, a name, and trailing delimiters. */
  predicate Trailed(c: string, name: string, rest: string, d: char) {
    && c != "" && c[|c| - 1] == d && IsName(name)
    && rest != "" && (forall i :: 0 <= i < |rest| ==> rest[i] == d)
    && (d == BACKSLASH || (d == SLASH && BACKSLASH !in c))
  }

  lemma PathWithTail(c: string, name: string, rest: string, d: char)
    requires Trailed(c, name, rest, d)
    ensures var path := c + name + rest;
            && (FileName(path) == if d == '\\' && |rest| == 1 && name[|name| - 1] == ':' then path else name)
            && FolderPath(path) == if |rest| == 1 && (name[|name| - 1] == ':' || c == [d, d]) then path
                                   else Closed(c[..|c| - 1], d)
  {
    hide IsNetworkDriveRoot, Closed, Trimmed, FindLast, DelimiterOf, HasSuffix;
    var j := c + name;
    var path := j + rest;
    TailParts(c, name, rest, d);
    TailRoot(c, name, rest, d);
    assert [':', BACKSLASH] == ":\\";
    assert j[|c|..] == name && path[..|c| - 1] == c[..|c| - 1] && |j| >= 2;
  }

  lemma TailParts(c: string, name: string, rest: string, d: char)
    requires Trailed(c, name, rest, d)
    ensures var path := c + name + rest;
            && FindLast(path, d) >= 0 && DelimiterOf(path) == d
            && Trimmed(path, d) == c + name && FindLast(c + name, d) == |c| - 1
            && (HasSuffix(path, [':', d]) <==> |rest| == 1 && name[|name| - 1] == ':')
  {
    var j := c + name;
    var path := j + rest;
    assert forall i :: |c| <= i < |j| ==> j[i] == name[i - |c|];
    FindLastUnique(j, d, |c| - 1);
    assert path[|path| - 1] == d;
    assert path[|path| - 2] == if |rest| == 1 then name[|name| - 1] else d;
    SuffixChars(path, ':', d);
    TrimmedIff(path, d, j);
    if d == SLASH {
      assert BACKSLASH !in path;
    }
    assert FindLast(path, d) >= 0;
    hide Trimmed, HasSuffix;
  }

  lemma TailRoot(c: string, name: string, rest: string, d: char)
    requires Trailed(c, name, rest, d)
    ensures IsNetworkDriveRoot(c + name + rest) <==> |rest| == 1 && c == [d, d]
  {
    hide IsNetworkDriveRoot, DelimiterOf;
    var path := c + name + rest;
    TailParts(c, name, rest, d);
    assert path + "" == path;
    NetworkEntryIff(path, "", d);
    assert path[|c| - 1] == d && path[|c|] == name[0];
    if |rest| >= 2 {
      assert path[|path| - 2] == d;
    } else if c == [d, d] {
      assert forall i :: 2 <= i < |path| - 1 ==> path[i] == name[i - 2];
    }
  }

  /** The same for paths with slashes only. */
  lemma TrailingSlashes(folder: string, name: string, rest: string)
    requires IsName(name) && BACKSLASH !in folder
    requires rest != "" && forall i :: 0 <= i < |rest| ==> rest[i] == '/'
    ensures var path := folder + "/" + name + rest;
            && FileName(path) == name
            && FolderPath(path) == if |rest| == 1 && (name[|name| - 1] == ':' || folder == "/") then path
                                   else if folder == "" then "/"
                                   else if HasSuffix(folder, ":") then folder + "\\"
                                   else Trimmed(folder, '/')
  {
    hide FileName, FolderPath, Closed, HasSuffix, Trimmed, Trailed, IsName;
    SlashTrailed(folder, name, rest);
    PathWithTail(folder + "/", name, rest, SLASH);
    ClosedBySlash(folder);
  }

  lemma SlashTrailed(folder: string, name: string, rest: string)
    requires IsName(name) && BACKSLASH !in folder
    requires rest != "" && forall i :: 0 <= i < |rest| ==> rest[i] == '/'
    ensures Trailed(folder + "/", name, rest, SLASH)
    ensures var c := folder + "/";
            c[..|c| - 1] == folder && (c == [SLASH, SLASH] <==> folder == "/")
  {
    var c := folder + "/";
    assert c[..|c| - 1] == folder;
    if c == [SLASH, SLASH] {
      assert folder == c[..1] == "/";
    }
  }

  /** A name with nothing but delimiters behind it has no folder, unless it is a drive. */
  lemma NameWithTail(name: string, rest: string, d: char)
    requires IsName(name) && d in "\\/" && rest != "" && forall i :: 0 <= i < |rest| ==> rest[i] == d
    ensures FileName(name + rest) == if d == '\\' && |rest| == 1 && name[|name| - 1] == ':' then name + rest else name
    ensures FolderPath(name + rest) == if name[|name| - 1] == ':' then name + [d] else ""
  {
    hide HasSuffix, IsNetworkDriveRoot, Trimmed, FindLast, DelimiterOf, Closed, IsName;
    NameParts(name, rest, d);
    assert [':', BACKSLASH] == ":\\" && [':'] == ":";
    assert |rest| == 1 ==> rest == [d];
  }

  lemma NameParts(name: string, rest: string, d: char)
    requires IsName(name) && d in "\\/" && rest != "" && forall i :: 0 <= i < |rest| ==> rest[i] == d
    ensures var path := name + rest;
            && name != "" && name != [d]
            && FindLast(path, d) >= 0 && DelimiterOf(path) == d
            && Trimmed(path, d) == name && FindLast(name, d) == -1 && !IsNetworkDriveRoot(path)
            && (HasSuffix(path, [':', d]) <==> |rest| == 1 && name[|name| - 1] == ':')
            && (HasSuffix(name, [':']) <==> name[|name| - 1] == ':')
  {
    var path := name + rest;
    assert path[0] == name[0] && path[|path| - 1] == d;
    assert |path| >= 2 && path[|path| - 2] == if |rest| == 1 then name[|name| - 1] else d;
    TrimmedIff(path, d, name);
    FindLastUnique(name, d, -1);
    SuffixChars(path, ':', d);
    SuffixChars(name, ':', d);
    assert d == SLASH ==> BACKSLASH !in path;
    NoPrefix(path, d);
    hide HasPrefix, HasSuffix, Trimmed;
  }

  lemma NoPrefix(path: string, d: char)
    requires path != "" && path[0] != d
    ensures !HasPrefix(path, [d, d])
  {
    if |path| >= 2 {
      assert path[..2][0] == path[0] && [d, d][0] == d;
    }
  }

  /** Paths with slashes only are split at the last one; the folder of an entry of the root is the root. */
  lemma SlashPathParts(folder: string, name: string)
    requires IsName(name) && BACKSLASH !in folder
    ensures var path := folder + "/" + name;
            && FileName(path) == name
            && FolderPath(path) == if IsNetworkFolder(folder + "/", SLASH) then path
                                   else if folder == "" then "/"
                                   else if HasSuffix(folder, ":") then folder + "\\"
                                   else Trimmed(folder, SLASH)
  {
    hide FolderPath, IsNetworkDriveRoot, IsNetworkFolder, Closed;
    LastSlash(folder, name);
    NetworkEntryIff(folder + "/", name, SLASH);
    SlashPathCut(folder, name);
    ClosedBySlash(folder);
  }

  lemma SlashPathCut(folder: string, name: string)
    requires IsName(name) && BACKSLASH !in folder
    ensures var path := folder + "/" + name;
            && FileName(path) == name
            && FolderPath(path) == if IsNetworkDriveRoot(path) then path else Closed(folder, SLASH)
  {
    var path := folder + "/" + name;
    assert path[|folder| + 1..] == name && path[..|folder|] == folder;
    LastSlash(folder, name);
    assert [':', SLASH] == ":/";
    hide IsNetworkDriveRoot, FindLast, DelimiterOf, Closed, HasSuffix, Trimmed;
  }

  lemma LastSlash(folder: string, name: string)
    requires IsName(name) && BACKSLASH !in folder
    ensures var path := folder + "/" + name;
            && FindLast(path, SLASH) == |folder| && DelimiterOf(path) == SLASH
            && Trimmed(path, SLASH) == path && !HasSuffix(path, [':', SLASH]) && path != "/"
  {
    var path := folder + "/" + name;
    assert forall i :: |folder| < i < |path| ==> path[i] == name[i - |folder| - 1];
    assert forall i :: 0 <= i < |folder| ==> path[i] == folder[i];
    FindLastUnique(path, SLASH, |folder|);
    FindLastUnique(path, BACKSLASH, -1);
    SuffixChars(path, ':', SLASH);
    SuffixChars(path, SLASH, SLASH);
  }

  lemma ClosedBySlash(folder: string)
    requires BACKSLASH !in folder
    ensures Closed(folder, SLASH) == if folder == "" then "/"
                                     else if HasSuffix(folder, ":") then folder + "\\"
                                     else Trimmed(folder, SLASH)
  {
    SuffixChars(folder, ':', BACKSLASH);
    TrimmedRest(folder, SLASH);
    assert [':'] == ":" && [':', BACKSLASH] == ":\\";
    hide HasSuffix, Trimmed;
  }

  /** A share on a server is a root, and the folder of what it holds. */
  lemma NetworkRoots(server: string, share: string, name: string)
    requires IsName(server) && IsName(share) && IsName(name)
    ensures var root := "\\\\" + server + "\\" + share;
            && IsNetworkDriveRoot(root) && FolderPath(root) == root
            && !IsNetworkDriveRoot(root + "\\" + name)
            && (share[|share| - 1] != ':' ==> FolderPath(root + "\\" + name) == root)
  {
    hide IsNetworkDriveRoot, DelimiterOf, Trimmed;
    OnlyRoots(server, share, name);
    var root := "\\\\" + server + "\\" + share;
    assert root[|root| - 1] == share[|share| - 1];
    FolderOfEntry(root, name);
  }

  /** What a folder holds, written with a backslash, has that folder. */
  lemma FolderOfEntry(folder: string, name: string)
    requires IsName(name) && folder != "" && folder[|folder| - 1] != BACKSLASH
    requires !IsNetworkDriveRoot(folder + "\\" + name)
    ensures folder[|folder| - 1] != ':' ==> FolderPath(folder + "\\" + name) == folder
  {
    hide FolderPath, Closed, IsNetworkDriveRoot;
    var path := folder + "\\" + name;
    assert path[|path| - |name|..] == name;
    FolderOfSplit(path, name);
    assert path[..|folder|] == folder;
    ClosedAgain(folder);
  }

  lemma ServerFolder(server: string, share: string)
    requires IsName(server)
    ensures IsNetworkFolder("\\\\" + server + "\\", BACKSLASH)
    ensures !IsNetworkFolder("\\\\" + server + "\\" + share + "\\", BACKSLASH)
  {
    var c := "\\\\" + server + "\\";
    var c' := c + share + "\\";
    assert forall i :: 2 <= i < |c| - 1 ==> c[i] == server[i - 2];
    assert c'[|c| - 1] == BACKSLASH;
  }

  lemma OnlyRoots(server: string, share: string, name: string)
    requires IsName(server) && IsName(share) && IsName(name)
    ensures var root := "\\\\" + server + "\\" + share;
            IsNetworkDriveRoot(root) && !IsNetworkDriveRoot(root + "\\" + name)
  {
    hide IsNetworkDriveRoot, IsNetworkFolder;
    ServerFolder(server, share);
    EntryOf("\\\\" + server + "\\", share);
    EntryOf("\\\\" + server + "\\" + share + "\\", name);
  }
}
