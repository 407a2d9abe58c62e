// The root of every form of path, named: drives, slashes, hosts, URLs and the volumes of file URLs.
module PathRoots {
  import opened Text
  import opened TypedPaths

  predicate IsLetter(c: char) {
    'a' <= c <= 'z' || 'A' <= c <= 'Z'
  }

  // ---------------------------------------------------------------- local paths

  lemma DriveRoot(c: char, tail: string)
    requires IsLetter(c)
    ensures RootLength([c] + ":/" + tail) == 3 && RootLength([c] + ":\\" + tail) == 3 && RootLength([c] + ":") == 2
  {
    var slashed, other := [c] + ":/" + tail, [c] + ":\\" + tail;
    assert slashed[0] == c && slashed[1] == ':' && slashed[2] == '/';
    assert other[0] == c && other[1] == ':' && other[2] == '\\';
  }

  // A single separator is a root of its own.
  lemma SeparatorAlone(c: char, tail: string)
    requires c == '/' || c == '\\'
    requires tail != "" ==> tail[0] != c
    ensures RootLength([c] + tail) == 1
  {
  }

  // Two of them are followed by a host, up to the next one or the end.
  lemma HostRoot(c: char, host: string, tail: string)
    requires (c == '/' || c == '\\') && c !in host
    ensures RootLength([c, c] + host + [c] + tail) == 2 + |host| + 1
    ensures RootLength([c, c] + host) == 2 + |host|
  {
    var path, bare := [c, c] + host + [c] + tail, [c, c] + host;
    assert forall j :: 2 <= j < 2 + |host| ==> path[j] == host[j - 2] && host[j - 2] in host;
    IndexOfIs(path, c, 2, 2 + |host|);
    assert forall j :: 2 <= j < |bare| ==> bare[j] == host[j - 2] && host[j - 2] in host;
    assert IndexOf(bare, c, 2) == -1;
  }

  // A path that starts like none of these, and is no URL, has no root.
  lemma RelativeHasNoRoot(path: string)
    requires path != "" ==> path[0] != '/' && path[0] != '\\' && !("^/" <= path)
    requires ':' !in path
    ensures RootLength(path) == 0
  {
    forall j: nat | j < |path|
      ensures !StandsAt(path, "://", j)
    {
      assert path[j] in path;
      NoSchemeAt(path, j);
    }
  }

  lemma NoSchemeAt(path: string, j: nat)
    requires j < |path| && path[j] != ':'
    ensures !StandsAt(path, "://", j)
  {
    assert "://"[0] == ':';
    assert j + 3 <= |path| ==> path[j..j + 3][0] == path[j];
  }

  // A name below "^/" that is no dynamic one, or has no authority, has that as its root.
  lemma CaretRoot(tail: string)
    requires !("~ts-uri~/" <= tail) || '/' !in tail[9..]
    ensures RootLength("^/" + tail) == 2
  {
    var path := "^/" + tail;
    assert path[0] == '^' && path[1] == '/' && path[2..] == tail;
    assert DYNAMIC_PREFIX == "^/" + "~ts-uri~/" && |"~ts-uri~/"| == 9;
    if DYNAMIC_PREFIX <= path {
      assert tail[..9] == path[2..11] == "~ts-uri~/";
      assert forall j :: 11 <= j < |path| ==> path[j] == tail[9..][j - 11];
      assert IndexOf(path, '/', 11) == -1;
    }
  }

  // ---------------------------------------------------------------- URLs

  predicate IsScheme(scheme: string) {
    scheme != "" && ':' !in scheme && '/' !in scheme && '\\' !in scheme && !(|scheme| == 1 && IsLetter(scheme[0]))
  }

  // The character is the small letter, its capital, or the long s for an s.
  predicate Spells(c: char, letter: char) {
    c == letter || c as int + 32 == letter as int || (letter == 's' && c == '\U{017F}')
  }

  predicate SpelledLike(s: string, word: string) {
    |s| == |word| && forall i :: 0 <= i < |s| ==> Spells(s[i], word[i])
  }

  // How much of the text is a drive letter with a colon, or its escape, and the slash behind it.
  function VolumeLength(tail: string): nat {
    if tail == "" || !IsLetter(tail[0]) then 0
    else
      var rest := tail[1..];
      if rest == ":" then 2
      else if ":/" <= rest then 3
      else if rest == "%3a" || rest == "%3A" then 4
      else if "%3a/" <= rest || "%3A/" <= rest then 5
      else 0
  }

  // The root of a URL ends behind its authority, or behind the volume of a local file.
  lemma UrlRootNamed(path: string, scheme: string, authority: string, tail: string)
    requires IsScheme(scheme) && '/' !in authority && path == scheme + "://" + authority + "/" + tail
    ensures RootLength(path)
      == |scheme| + 3 + |authority| + 1 + if IsLocalFile(scheme, authority) then VolumeLength(tail) else 0
  {
    UrlPlaces(path, scheme, authority, tail);
    UrlRootAt(path, |scheme|, |scheme| + 3 + |authority|);
    UrlVolume(path, scheme, authority, tail);
  }

  lemma UrlPlaces(path: string, scheme: string, authority: string, tail: string)
    requires IsScheme(scheme) && '/' !in authority && path == scheme + "://" + authority + "/" + tail
    ensures RootLength(path) == UrlRoot(path) && IndexOfText(path, "://", 0) == |scheme|
    ensures IndexOf(path, '/', |scheme| + 3) == |scheme| + 3 + |authority|
  {
    GlueUrl(scheme, authority, tail);
    UrlBranch(scheme, authority + "/" + tail);
    PartEnds(scheme + "://", authority, tail);
  }

  lemma UrlVolume(path: string, scheme: string, authority: string, tail: string)
    requires path == scheme + "://" + authority + "/" + tail
    ensures var start, end := |scheme| + 3, |scheme| + 3 + |authority|;
      VolumeRoot(path, |scheme|, start, end)
      == if VolumeLength(tail) != 0 && IsLocalFile(scheme, authority) then end + 1 + VolumeLength(tail) else -1
  {
    UrlParts(path, scheme, authority, tail);
    VolumeNamed(path, |scheme|, |scheme| + 3, |scheme| + 3 + |authority|);
    FoldExact(scheme, "file");
    FoldExact(authority, "localhost");
  }

  lemma UrlRootAt(path: string, schemeEnd: nat, authorityEnd: nat)
    requires IndexOfText(path, "://", 0) == schemeEnd && IndexOf(path, '/', schemeEnd + 3) == authorityEnd
    ensures UrlRoot(path) == var volume := VolumeRoot(path, schemeEnd, schemeEnd + 3, authorityEnd);
      if volume != -1 then volume else authorityEnd + 1
  {
  }

  // The file scheme, in any case, without a host or with the local one.
  predicate IsLocalFile(scheme: string, authority: string) {
    SpelledLike(scheme, "file") && (authority == "" || SpelledLike(authority, "localhost"))
  }

  lemma UrlParts(path: string, scheme: string, authority: string, tail: string)
    requires path == scheme + "://" + authority + "/" + tail
    ensures var start := |scheme| + 3;
      path[..|scheme|] == scheme && path[start..start + |authority|] == authority && path[start + |authority| + 1..] == tail
  {
  }

  // Without a slash behind its authority a URL is all root.
  lemma UrlWithoutPath(scheme: string, authority: string)
    requires IsScheme(scheme) && '/' !in authority
    ensures RootLength(scheme + "://" + authority) == |scheme| + 3 + |authority|
  {
    var path := scheme + "://" + authority;
    UrlBranch(scheme, authority);
    assert forall j :: |scheme| + 3 <= j < |path| ==> path[j] == authority[j - |scheme| - 3] && authority[j - |scheme| - 3] in authority;
    assert IndexOf(path, '/', |scheme| + 3) == -1;
  }

  lemma UrlBranch(scheme: string, rest: string)
    requires IsScheme(scheme)
    ensures var path := scheme + "://" + rest;
      RootLength(path) == UrlRoot(path) && IndexOfText(path, "://", 0) == |scheme|
  {
    SchemeEnds(scheme, rest);
    UrlStart(scheme, rest);
  }

  // A URL's first two characters are those of no other form.
  lemma UrlStart(scheme: string, rest: string)
    requires IsScheme(scheme)
    ensures var path := scheme + "://" + rest;
      path[0] != '/' && path[0] != '\\' && path[1] != '/' && (IsLetter(path[0]) ==> path[1] != ':')
  {
    var path := scheme + "://" + rest;
    assert path[0] == scheme[0] && scheme[0] in scheme;
    if |scheme| > 1 {
      assert path[1] == scheme[1] && scheme[1] in scheme;
    } else {
      assert path[1] == "://"[0] == ':';
    }
  }

  // The lint keeps a URL up to its query or fragment.
  lemma UrlPathPartNamed(scheme: string, rest: string)
    requires IsScheme(scheme) && |scheme| > 1
    ensures UrlPathPart(scheme + "://" + rest) == scheme + "://" + rest[..SuffixStart(rest)]
  {
    var path := scheme + "://" + rest;
    SchemeEnds(scheme, rest);
    UrlStart(scheme, rest);
    assert path[1] == scheme[1] && scheme[1] in scheme;
    assert path[|scheme| + 3..] == rest;
    assert path[..|scheme| + 3 + SuffixStart(rest)] == scheme + "://" + rest[..SuffixStart(rest)];
  }

  lemma SchemeEnds(scheme: string, rest: string)
    requires ':' !in scheme
    ensures IndexOfText(scheme + "://" + rest, "://", 0) == |scheme|
  {
    var path := scheme + "://" + rest;
    assert StandsAt(path, "://", |scheme|);
    forall j: nat | j < |scheme|
      ensures !StandsAt(path, "://", j)
    {
      assert path[j] == scheme[j] && scheme[j] in scheme;
      NoSchemeAt(path, j);
    }
  }

  lemma FoldExact(s: string, word: string)
    requires word == "file" || word == "localhost"
    ensures EqualFold(s, word) <==> SpelledLike(s, word)
  {
    assert forall i :: 0 <= i < |word| ==> 'a' <= word[i] <= 'z' && word[i] != 'k';
    assert forall i :: 0 <= i < |s| == |word| ==> (Fold(s[i]) == word[i] <==> Spells(s[i], word[i]));
  }

  lemma VolumeNamed(path: string, schemeEnd: nat, authorityStart: nat, authorityEnd: nat)
    requires schemeEnd <= authorityStart <= authorityEnd < |path|
    ensures var volume := VolumeLength(path[authorityEnd + 1..]);
      VolumeRoot(path, schemeEnd, authorityStart, authorityEnd)
      == if volume != 0 && EqualFold(path[..schemeEnd], "file")
            && (authorityStart == authorityEnd || EqualFold(path[authorityStart..authorityEnd], "localhost"))
         then authorityEnd + 1 + volume else -1
  {
    var start := authorityEnd + 1;
    assert start < |path| ==> path[start..][0] == path[start];
    if start + 1 < |path| {
      VolumeAt(path, start);
    } else {
      assert |path[start..]| <= 1;
    }
  }

  lemma VolumeAt(path: string, start: nat)
    requires start + 1 < |path|
    ensures var end := FileUrlVolumeSeparatorEnd(path, start + 1);
      VolumeLength(path[start..]) ==
        if !IsLetter(path[start]) || end == -1 then 0
        else if end == |path| then end - start
        else if path[end] == '/' then end + 1 - start
        else 0
  {
    var rest := path[start + 1..];
    assert path[start..][1..] == rest && path[start..][0] == path[start];
    assert forall i :: 0 <= i < |rest| ==> rest[i] == path[start + 1 + i];
    SeparatorNamed(rest);
  }

  lemma SeparatorNamed(rest: string)
    ensures rest == ":" <==> |rest| == 1 && rest[0] == ':'
    ensures ":/" <= rest <==> |rest| > 1 && rest[0] == ':' && rest[1] == '/'
    ensures rest == "%3a" || rest == "%3A" <==>
      |rest| == 3 && rest[0] == '%' && rest[1] == '3' && (rest[2] == 'a' || rest[2] == 'A')
    ensures "%3a/" <= rest || "%3A/" <= rest <==>
      |rest| > 3 && rest[0] == '%' && rest[1] == '3' && (rest[2] == 'a' || rest[2] == 'A') && rest[3] == '/'
  {
  }

  // ---------------------------------------------------------------- accepted paths

  // Names that can stand between slashes in a normal path.
  predicate AreNames(segments: seq<string>) {
    segments != []
    && forall i :: 0 <= i < |segments| ==>
         segments[i] != "" && segments[i] != "." && segments[i] != ".." && '/' !in segments[i] && '\\' !in segments[i]
  }

  // A slash-ended root followed by such names, with no backslash and nothing of a URL cut off, is accepted.
  lemma RootAndNames(path: string, root: string, segments: seq<string>)
    requires AreNames(segments) && root != "" && root[|root| - 1] == '/' && '\\' !in root
    requires path == root + Join(segments, '/') && RootLength(path) == |root| && UrlPathPart(path) == path
    ensures IsRootedNormalized(path)
  {
    assert forall segment :: segment in segments ==> exists i :: 0 <= i < |segments| && segments[i] == segment;
    JoinHasNo(segments, '/', '\\');
    ConcatHasNo(root, Join(segments, '/'), '\\');
    DecomposedIsAccepted(path, root, segments);
  }

  // Below a slash-ended root only such names are accepted, or nothing.
  lemma NamesExact(path: string, root: string)
    requires root <= path && root != "" && root[|root| - 1] == '/' && '\\' !in root
    requires RootLength(path) == |root| && UrlPathPart(path) == path
    ensures IsRootedNormalized(path) <==> path == root || AreNames(Split(path[|root|..], '/'))
  {
    var tail := path[|root|..];
    assert path == root + tail;
    JoinSplit(tail, '/');
    if path == root {
      DecomposedIsAccepted(path, root, []);
    } else if AreNames(Split(tail, '/')) {
      RootAndNames(path, root, Split(tail, '/'));
    } else if IsRootedNormalized(path) {
      AcceptedNames(path, root);
    }
  }

  lemma AcceptedNames(path: string, root: string)
    requires root <= path && path != root && RootLength(path) == |root| && IsRootedNormalized(path)
    ensures AreNames(Split(path[|root|..], '/'))
  {
    var segments := AcceptedDecomposes(path);
    var tail := path[|root|..];
    assert path[..|root|] == root && tail == Join(segments, '/');
    SplitJoin(segments, '/');
    forall i | 0 <= i < |segments|
      ensures '\\' !in segments[i]
    {
      PartOfJoin(segments, '/', i, '\\');
    }
    assert forall i :: 0 <= i < |segments| ==> segments[i] in segments;
  }

  // What a joined text does not hold, no part of it does.
  lemma {:induction false} PartOfJoin(parts: seq<string>, c: char, i: nat, d: char)
    requires i < |parts| && d !in Join(parts, c)
    ensures d !in parts[i]
    decreases i
  {
    var all := Join(parts, c);
    if |parts| > 1 {
      assert all == parts[0] + ([c] + Join(parts[1..], c));
      assert forall e :: e in Join(parts[1..], c) ==> e in all;
      if i > 0 {
        PartOfJoin(parts[1..], c, i - 1, d);
      }
    }
  }

  lemma JoinStartsWithName(segments: seq<string>)
    requires AreNames(segments)
    ensures Join(segments, '/') != "" && Join(segments, '/')[0] == segments[0][0] && segments[0][0] != '/'
  {
    assert segments[0][0] in segments[0];
  }

  lemma LocalPathsAccepted(c: char, host: string, segments: seq<string>)
    requires IsLetter(c) && '/' !in host && '\\' !in host && AreNames(segments)
    ensures IsRootedNormalized([c] + ":/" + Join(segments, '/'))
    ensures IsRootedNormalized("/" + Join(segments, '/'))
    ensures IsRootedNormalized("//" + host + "/" + Join(segments, '/'))
  {
    var tail := Join(segments, '/');
    DriveRoot(c, tail);
    RootAndNames([c] + ":/" + tail, [c] + ":/", segments);
    JoinStartsWithName(segments);
    SeparatorAlone('/', tail);
    assert ['/'] + tail == "/" + tail;
    RootAndNames("/" + tail, "/", segments);
    HostPathAccepted("//" + host + "/" + tail, host, segments);
  }

  lemma HostPathAccepted(path: string, host: string, segments: seq<string>)
    requires '/' !in host && '\\' !in host && AreNames(segments) && path == "//" + host + "/" + Join(segments, '/')
    ensures IsRootedNormalized(path)
  {
    HostRoot('/', host, Join(segments, '/'));
    assert ['/', '/'] + host + ['/'] + Join(segments, '/') == path;
    var root := "//" + host + "/";
    ConcatHasNo("//", host, '\\');
    ConcatHasNo("//" + host, "/", '\\');
    RootAndNames(path, root, segments);
  }

  // No mark of a URL's query or fragment, and no backslash.
  predicate IsBare(s: string) {
    '?' !in s && '#' !in s && '\\' !in s
  }

  lemma BareConcat(a: string, b: string)
    requires IsBare(a) && IsBare(b)
    ensures IsBare(a + b)
  {
  }

  // A URL with an authority, unless it is a local file's.
  lemma UrlPathsAccepted(path: string, scheme: string, authority: string, segments: seq<string>)
    requires IsScheme(scheme) && |scheme| > 1 && AreNames(segments) && !IsLocalFile(scheme, authority)
    requires IsBare(authority) && '/' !in authority && IsBare(Join(segments, '/'))
    requires path == scheme + "://" + authority + "/" + Join(segments, '/')
    ensures IsRootedNormalized(path)
  {
    UrlRootNamed(path, scheme, authority, Join(segments, '/'));
    BareConcat(authority, "/");
    GlueUrl(scheme, authority, Join(segments, '/'));
    UrlPathAccepted(path, scheme, authority + "/", segments);
  }

  lemma GlueUrl(scheme: string, authority: string, tail: string)
    ensures scheme + "://" + authority + "/" + tail == scheme + "://" + (authority + "/" + tail)
  {
  }

  // A local file's URL with a drive.
  lemma FileUrlsAccepted(path: string, scheme: string, authority: string, c: char, segments: seq<string>)
    requires IsScheme(scheme) && |scheme| > 1 && AreNames(segments) && IsLocalFile(scheme, authority) && IsLetter(c)
    requires IsBare(authority) && '/' !in authority && IsBare(Join(segments, '/'))
    requires path == scheme + "://" + authority + "/" + ([c] + ":/" + Join(segments, '/'))
    ensures IsRootedNormalized(path)
  {
    var names := Join(segments, '/');
    VolumeOfDrive(c, names);
    UrlRootNamed(path, scheme, authority, [c] + ":/" + names);
    BareConcat(authority, "/");
    BareConcat(authority + "/", [c] + ":/");
    GlueUrl(scheme, authority, [c] + ":/" + names);
    GlueVolume(authority + "/", [c] + ":/", names);
    UrlPathAccepted(path, scheme, authority + "/" + ([c] + ":/"), segments);
  }

  lemma VolumeOfDrive(c: char, names: string)
    requires IsLetter(c)
    ensures VolumeLength([c] + ":/" + names) == 3
  {
    var tail := [c] + ":/" + names;
    assert tail[1..] == ":/" + names && tail[0] == c;
  }

  lemma GlueVolume(authority: string, volume: string, names: string)
    ensures authority + (volume + names) == authority + volume + names
  {
  }

  lemma UrlPathAccepted(path: string, scheme: string, rest: string, segments: seq<string>)
    requires IsScheme(scheme) && |scheme| > 1 && AreNames(segments)
    requires IsBare(rest) && IsBare(Join(segments, '/')) && rest != "" && rest[|rest| - 1] == '/'
    requires path == scheme + "://" + (rest + Join(segments, '/')) && RootLength(path) == |scheme| + 3 + |rest|
    ensures IsRootedNormalized(path)
  {
    var names := Join(segments, '/');
    BareConcat(rest, names);
    NoSuffix(rest + names);
    UrlPathPartNamed(scheme, rest + names);
    assert (rest + names)[..|rest + names|] == rest + names;
    GlueVolume(scheme + "://", rest, names);
    ConcatHasNo(scheme, "://", '\\');
    ConcatHasNo(scheme + "://", rest, '\\');
    RootAndNames(path, scheme + "://" + rest, segments);
  }
}
