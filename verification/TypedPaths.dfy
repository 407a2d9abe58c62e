// The lint's view of path literals: how long the root of a path is, and which paths are
// rooted and normalised.
module TypedPaths {
  import opened Text

  const DYNAMIC_PREFIX: string := "^/~ts-uri~/"

  predicate IsVolumeCharacter(c: char) {
    'a' <= c <= 'z' || 'A' <= c <= 'Z'
  }

  // The lower-case ASCII letter a character folds to: besides the capitals, the long s and
  // the Kelvin sign fold to ASCII letters.
  function Fold(c: char): char {
    if 'A' <= c <= 'Z' then c + 32 as char
    else if c == '\U{017F}' then 's'
    else if c == '\U{212A}' then 'k'
    else c
  }

  // Equality under simple case folding with a text of lower-case ASCII letters.
  predicate EqualFold(s: string, lower: string) {
    |s| == |lower| && forall i :: 0 <= i < |s| ==> Fold(s[i]) == lower[i]
  }

  // The end of a volume's separator, ":" or its escape, or -1.
  function FileUrlVolumeSeparatorEnd(path: string, start: nat): (end: int)
    ensures end == -1 || start < end <= |path|
  {
    if start >= |path| then -1
    else if path[start] == ':' then start + 1
    else if start + 2 < |path| && path[start] == '%' && path[start + 1] == '3' && (path[start + 2] == 'a' || path[start + 2] == 'A') then start + 3
    else -1
  }

  // The root of a path that starts with a slash or a backslash.
  function SeparatorRoot(path: string): nat
    requires path != ""
  {
    if |path| == 1 || path[1] != path[0] then 1
    else
      var separator := IndexOf(path, path[0], 2);
      if separator != -1 then separator + 1 else |path|
  }

  // The root of a path below "^/": the scheme and the authority of a dynamic name, if it has them.
  function DynamicRoot(path: string): nat {
    if DYNAMIC_PREFIX <= path then
      var schemeEnd := IndexOf(path, '/', |DYNAMIC_PREFIX|);
      if schemeEnd == -1 then 2
      else
        var authorityEnd := IndexOf(path, '/', schemeEnd + 1);
        if authorityEnd != -1 then authorityEnd + 1 else |path|
    else 2
  }

  // The end of the volume of a local file URL, with its slash, or -1.
  function VolumeRoot(path: string, schemeEnd: nat, authorityStart: nat, authorityEnd: nat): int
    requires schemeEnd <= authorityStart <= authorityEnd < |path|
  {
    if EqualFold(path[..schemeEnd], "file")
       && (authorityStart == authorityEnd || EqualFold(path[authorityStart..authorityEnd], "localhost"))
       && authorityEnd + 2 < |path| && IsVolumeCharacter(path[authorityEnd + 1])
    then
      var volumeEnd := FileUrlVolumeSeparatorEnd(path, authorityEnd + 2);
      if volumeEnd == -1 then -1
      else if volumeEnd == |path| then volumeEnd
      else if path[volumeEnd] == '/' then volumeEnd + 1
      else -1
    else -1
  }

  function UrlRoot(path: string): nat {
    var schemeEnd := IndexOfText(path, "://", 0);
    if schemeEnd == -1 then 0
    else
      var authorityStart := schemeEnd + 3;
      var authorityEnd := IndexOf(path, '/', authorityStart);
      if authorityEnd == -1 then |path|
      else
        var volume := VolumeRoot(path, schemeEnd, authorityStart, authorityEnd);
        if volume != -1 then volume else authorityEnd + 1
  }

  function RootLength(path: string): nat {
    if path == "" then 0
    else if path[0] == '/' || path[0] == '\\' then SeparatorRoot(path)
    else if IsVolumeCharacter(path[0]) && |path| > 1 && path[1] == ':' && |path| == 2 then 2
    else if IsVolumeCharacter(path[0]) && |path| > 2 && path[1] == ':' && (path[2] == '/' || path[2] == '\\') then 3
    else if path[0] == '^' && |path| > 1 && path[1] == '/' then DynamicRoot(path)
    else UrlRoot(path)
  }

  // ---------------------------------------------------------------- the root

  lemma UrlRootStable(path: string)
    ensures UrlRoot(path) <= |path|
    ensures 0 < UrlRoot(path) ==> UrlRoot(path[..UrlRoot(path)]) == UrlRoot(path)
  {
    var schemeEnd := IndexOfText(path, "://", 0);
    if schemeEnd != -1 {
      var n := UrlRoot(path);
      var root := path[..n];
      SchemePrefix(path, 0, n);
      IndexOfPrefix(path, '/', schemeEnd + 3, n);
      var authorityEnd := IndexOf(path, '/', schemeEnd + 3);
      if authorityEnd == -1 {
        assert root == path;
      } else {
        assert root[..schemeEnd] == path[..schemeEnd];
        assert root[schemeEnd + 3..authorityEnd] == path[schemeEnd + 3..authorityEnd];
        VolumeRootStable(path, schemeEnd, schemeEnd + 3, authorityEnd, n);
      }
    }
  }

  // Cutting the path after its volume, or after its authority when it has none, changes neither.
  lemma VolumeRootStable(path: string, schemeEnd: nat, authorityStart: nat, authorityEnd: nat, n: nat)
    requires schemeEnd <= authorityStart <= authorityEnd < n <= |path|
    requires var volume := VolumeRoot(path, schemeEnd, authorityStart, authorityEnd); n == if volume != -1 then volume else authorityEnd + 1
    ensures VolumeRoot(path[..n], schemeEnd, authorityStart, authorityEnd) == VolumeRoot(path, schemeEnd, authorityStart, authorityEnd)
  {
    var root := path[..n];
    assert root[..schemeEnd] == path[..schemeEnd];
    assert root[authorityStart..authorityEnd] == path[authorityStart..authorityEnd];
  }

  lemma SeparatorRootStable(path: string)
    requires path != ""
    ensures 0 < SeparatorRoot(path) <= |path|
    ensures SeparatorRoot(path[..SeparatorRoot(path)]) == SeparatorRoot(path)
  {
    var n := SeparatorRoot(path);
    IndexOfPrefix(path, path[0], 2, n);
    assert path[..|path|] == path;
  }

  lemma DynamicRootStable(path: string)
    requires "^/" <= path
    ensures 2 <= DynamicRoot(path) <= |path|
    ensures DynamicRoot(path[..DynamicRoot(path)]) == DynamicRoot(path)
  {
    var n := DynamicRoot(path);
    var root := path[..n];
    if DYNAMIC_PREFIX <= path {
      var schemeEnd := IndexOf(path, '/', |DYNAMIC_PREFIX|);
      if schemeEnd != -1 {
        IndexOfPrefix(path, '/', |DYNAMIC_PREFIX|, n);
        IndexOfPrefix(path, '/', schemeEnd + 1, n);
        assert DYNAMIC_PREFIX <= root;
        assert path[..|path|] == path;
      }
    }
  }

  // The root is part of the path, and is its own root.
  lemma RootIsStable(path: string)
    ensures RootLength(path) <= |path|
    ensures RootLength(path[..RootLength(path)]) == RootLength(path)
  {
    if path != "" {
      if path[0] == '/' || path[0] == '\\' {
        SeparatorRootStable(path);
      } else if path[0] == '^' && |path| > 1 && path[1] == '/' {
        DynamicRootStable(path);
      } else {
        UrlRootStable(path);
      }
    }
  }

  // ---------------------------------------------------------------- rooted, normalised paths

  // A URL without its query and fragment; any other path as it is.
  function UrlPathPart(path: string): string {
    if path == "" || path[0] == '/' || path[0] == '\\' || (|path| > 1 && path[1] == ':') || "^/" <= path then path
    else
      var schemeEnd := IndexOfText(path, "://", 0);
      if schemeEnd == -1 then path
      else path[..schemeEnd + 3 + SuffixStart(path[schemeEnd + 3..])]
  }

  predicate NormalSegment(segment: string) {
    segment != "" && segment != "." && segment != ".."
  }

  // No backslash, no dot segment, no empty segment but the last, and no trailing slash after the root.
  predicate IsNormalized(path: string)
    requires RootLength(path) <= |path|
  {
    '\\' !in path
    && (var segments := Split(path[RootLength(path)..], '/');
        forall i :: 0 <= i < |segments| ==>
          segments[i] != "." && segments[i] != ".." && (segments[i] != "" || i == |segments| - 1))
    && (|path| == RootLength(path) || path[|path| - 1] != '/')
  }

  predicate IsRootedNormalized(path: string) {
    RootIsStable(path);
    UrlPathPart(path) == path && path != "" && RootLength(path) != 0 && '\\' !in path && IsNormalized(path)
    && if |path| == RootLength(path) then path[|path| - 1] == '/' else path[|path| - 1] != '/'
  }

  // A path that is its root alone or normal segments below a root that ends with a slash.
  ghost predicate Decomposes(path: string, root: string, segments: seq<string>) {
    path == root + Join(segments, '/')
    && root != "" && root[|root| - 1] == '/' && RootLength(path) == |root|
    && AreNormal(segments)
  }

  // Only "c:", "/", "//host" and the like, and URLs without a path, are roots without a slash
  // at their end, and then they are the whole path.
  lemma RootEndsWithSlash(path: string)
    requires RootLength(path) < |path| && 0 < RootLength(path) && '\\' !in path
    ensures path[RootLength(path) - 1] == '/'
  {
    if RootLength(path) == UrlRoot(path) {
      UrlRootEndsWithSlash(path);
    }
  }

  lemma UrlRootEndsWithSlash(path: string)
    requires 0 < UrlRoot(path) < |path|
    ensures path[UrlRoot(path) - 1] == '/'
  {
  }

  ghost predicate AreNormal(segments: seq<string>) {
    forall segment :: segment in segments ==> NormalSegment(segment) && '/' !in segment
  }

  // What the check asks of the part below the root.
  predicate NormalTail(tail: string) {
    (forall i :: 0 <= i < |Split(tail, '/')| ==>
       Split(tail, '/')[i] != "." && Split(tail, '/')[i] != ".." && (Split(tail, '/')[i] != "" || i == |Split(tail, '/')| - 1))
    && (tail == "" || tail[|tail| - 1] != '/')
  }

  lemma NormalTailDecomposes(tail: string) returns (segments: seq<string>)
    requires NormalTail(tail)
    ensures AreNormal(segments) && tail == Join(segments, '/')
  {
    segments := if tail == "" then [] else Split(tail, '/');
    JoinSplit(tail, '/');
    if tail != "" {
      LastSegment(tail);
    }
  }

  lemma JoinedTailIsNormal(segments: seq<string>)
    requires AreNormal(segments)
    ensures NormalTail(Join(segments, '/'))
  {
    if segments != [] {
      SplitJoin(segments, '/');
      JoinNonEmpty(segments);
      assert forall i :: 0 <= i < |segments| ==> segments[i] in segments;
    }
  }

  lemma NormalizedBelowRoot(path: string)
    requires RootLength(path) <= |path| && '\\' !in path
    ensures IsNormalized(path) <==> NormalTail(path[RootLength(path)..])
  {
  }

  lemma AcceptedDecomposes(path: string) returns (segments: seq<string>)
    requires IsRootedNormalized(path)
    ensures Decomposes(path, path[..RootLength(path)], segments)
  {
    RootIsStable(path);
    NormalizedBelowRoot(path);
    var n := RootLength(path);
    segments := NormalTailDecomposes(path[n..]);
    assert path == path[..n] + path[n..];
    if n < |path| {
      RootEndsWithSlash(path);
    }
  }

  lemma DecomposedIsAccepted(path: string, root: string, segments: seq<string>)
    requires UrlPathPart(path) == path && '\\' !in path && Decomposes(path, root, segments)
    ensures IsRootedNormalized(path)
  {
    RootIsStable(path);
    NormalizedBelowRoot(path);
    JoinedTailIsNormal(segments);
    assert path[RootLength(path)..] == Join(segments, '/');
  }

  // The accepted paths are exactly those that decompose, without a backslash or a URL's suffix.
  lemma AcceptedExact(path: string)
    ensures IsRootedNormalized(path) <==>
      UrlPathPart(path) == path && '\\' !in path && exists root, segments :: Decomposes(path, root, segments)
  {
    if IsRootedNormalized(path) {
      var segments := AcceptedDecomposes(path);
    }
    if UrlPathPart(path) == path && '\\' !in path && exists root, segments :: Decomposes(path, root, segments) {
      var root, segments :| Decomposes(path, root, segments);
      DecomposedIsAccepted(path, root, segments);
    }
  }

  // A tail that does not end with a slash has no empty last segment.
  lemma {:induction false} LastSegment(tail: string)
    requires tail != ""
    ensures var parts := Split(tail, '/'); parts[|parts| - 1] == "" <==> tail[|tail| - 1] == '/'
    decreases |tail|
  {
    var i := IndexOf(tail, '/', 0);
    if i != -1 {
      if i == |tail| - 1 {
        assert tail[i + 1..] == "";
      } else {
        LastSegment(tail[i + 1..]);
        assert tail[i + 1..][|tail| - i - 2] == tail[|tail| - 1];
      }
    }
  }

  lemma {:induction false} JoinNonEmpty(segments: seq<string>)
    requires segments != [] && forall segment :: segment in segments ==> segment != "" && '/' !in segment
    ensures var s := Join(segments, '/'); s != "" && s[|s| - 1] != '/'
  {
    assert segments[0] in segments;
    if |segments| > 1 {
      assert forall segment :: segment in segments[1..] ==> segment in segments;
      JoinNonEmpty(segments[1..]);
    }
  }

  // A path decomposes in one way only.
  lemma DecompositionUnique(path: string, root: string, segments: seq<string>, root': string, segments': seq<string>)
    requires Decomposes(path, root, segments) && Decomposes(path, root', segments')
    ensures root == root' && segments == segments'
  {
    assert root == path[..RootLength(path)] == root';
    assert Join(segments, '/') == path[RootLength(path)..] == Join(segments', '/');
    JoinedOnce(segments, segments');
  }

  lemma JoinedOnce(a: seq<string>, b: seq<string>)
    requires Join(a, '/') == Join(b, '/')
    requires forall s :: s in a ==> s != "" && '/' !in s
    requires forall s :: s in b ==> s != "" && '/' !in s
    ensures a == b
  {
    if a != [] {
      SplitJoin(a, '/');
      JoinNonEmpty(a);
    }
    if b != [] {
      SplitJoin(b, '/');
      JoinNonEmpty(b);
    }
  }
}
