// Which mount points are paths that the server's lint accepts: exactly those with a folder.
// Without its leading slash it is rooted and normalised, and its root ends with the authority.
module MountPaths {
  import opened Basics
  import opened Text
  import MountPoints
  import TypedPaths

  // The first parts of a dynamic name are its root, whatever follows.
  lemma DynamicRootEndsAfterAuthority(scheme: string, authority: string, tail: string)
    requires '/' !in scheme && '/' !in authority
    ensures var root := TypedPaths.DYNAMIC_PREFIX + scheme + "/" + authority + "/";
      TypedPaths.RootLength(root + tail) == |root|
  {
    var prefix := TypedPaths.DYNAMIC_PREFIX;
    var path := prefix + scheme + "/" + authority + "/" + tail;
    PartEnds(prefix, scheme, authority + "/" + tail);
    assert prefix + scheme + "/" + (authority + "/" + tail) == path;
    PartEnds(prefix + scheme + "/", authority, tail);
    assert prefix <= path;
    DynamicRootBelowPrefix(path);
  }

  lemma DynamicRootBelowPrefix(path: string)
    requires TypedPaths.DYNAMIC_PREFIX <= path
    ensures TypedPaths.RootLength(path) == TypedPaths.DynamicRoot(path)
  {
    assert path[0] == '^' && path[1] == '/';
  }

  lemma JoinHead(scheme: string, authority: string, names: seq<string>)
    requires names != []
    ensures Join([scheme, authority] + names, '/') == scheme + "/" + authority + "/" + Join(names, '/')
  {
    JoinTwo([scheme, authority], names, '/');
    assert Join([authority], '/') == authority;
    JoinCons(scheme, [authority], '/');
    assert [scheme] + [authority] == [scheme, authority];
  }

  lemma NamesArePlain(uri: MountPoints.Uri)
    requires MountPoints.Named(uri)
    ensures MountPoints.PlainName(uri.scheme) && MountPoints.PlainName(MountPoints.AuthorityName(uri.authority))
      && forall name :: name in MountPoints.SegmentNames(MountPoints.Segments(uri.path), true) ==> MountPoints.PlainName(name)
  {
    MountPoints.SegmentNamesRoundTrip(MountPoints.Segments(uri.path), true, false);
    AuthorityIsPlain(uri.authority);
  }

  lemma AuthorityIsPlain(authority: Option<string>)
    requires authority.Some? ==> '\0' !in authority.value && '/' !in authority.value
    ensures MountPoints.PlainName(MountPoints.AuthorityName(authority))
  {
    if authority.Some? {
      MountPoints.AuthorityRoundTrip(authority.value, false);
    }
  }

  function MountRoot(uri: MountPoints.Uri): string {
    TypedPaths.DYNAMIC_PREFIX + uri.scheme + "/" + MountPoints.AuthorityName(uri.authority) + "/"
  }

  function MountNames(uri: MountPoints.Uri): seq<string> {
    MountPoints.SegmentNames(MountPoints.Segments(uri.path), true)
  }

  lemma MountPointBelowRoot(uri: MountPoints.Uri)
    requires MountNames(uri) != []
    ensures MountPoints.MountPointOf(uri) == "/" + (MountRoot(uri) + Join(MountNames(uri), '/'))
  {
    var authority := MountPoints.AuthorityName(uri.authority);
    var tail := Join(MountNames(uri), '/');
    JoinHead(uri.scheme, authority, MountNames(uri));
    RegroupParts(MountPoints.DYNAMIC_PREFIX, uri.scheme, authority, tail);
  }

  // The mount point below its root: the names of the folders, joined.
  lemma MountPointDecomposes(uri: MountPoints.Uri)
    requires MountPoints.Named(uri) && MountNames(uri) != []
    ensures TypedPaths.Decomposes(MountPoints.MountPointOf(uri)[1..], MountRoot(uri), MountNames(uri))
  {
    NamesArePlain(uri);
    MountPointBelowRoot(uri);
    DynamicRootEndsAfterAuthority(uri.scheme, MountPoints.AuthorityName(uri.authority), Join(MountNames(uri), '/'));
  }

  lemma PathHasNoBackslash(uri: MountPoints.Uri)
    requires MountPoints.Named(uri)
    ensures '\\' !in MountRoot(uri) + Join(MountNames(uri), '/') && "^/" <= MountRoot(uri)
  {
    NamesArePlain(uri);
    RootHasNo(uri.scheme, MountPoints.AuthorityName(uri.authority), '\\');
    JoinHasNo(MountNames(uri), '/', '\\');
    ConcatHasNo(MountRoot(uri), Join(MountNames(uri), '/'), '\\');
  }

  // A URI with a folder, given by its parts, is mounted where the lint sees a rooted, normalised path, and its
  // root is the dynamic prefix, the scheme and the authority.
  lemma MountPointIsAccepted(uri: MountPoints.Uri)
    requires MountPoints.Named(uri) && MountPoints.Segments(uri.path) != []
    ensures var path := MountPoints.MountPointOf(uri)[1..];
      MountPoints.MountPointOf(uri) == "/" + path && TypedPaths.IsRootedNormalized(path)
      && TypedPaths.RootLength(path) == |MountRoot(uri)| && MountRoot(uri) <= path
  {
    var path := MountRoot(uri) + Join(MountNames(uri), '/');
    MountPointBelowRoot(uri);
    MountPointDecomposes(uri);
    PathHasNoBackslash(uri);
    TypedPaths.DecomposedIsAccepted(path, MountRoot(uri), MountNames(uri));
  }

  lemma AcceptedExactlyWithFolder(uri: MountPoints.Uri)
    requires MountPoints.Named(uri)
    ensures TypedPaths.IsRootedNormalized(MountPoints.MountPointOf(uri)[1..])
      <==> MountPoints.Segments(uri.path) != []
  {
    if MountNames(uri) == [] {
      NamesArePlain(uri);
      BareMountPoint(uri);
      BareAuthorityIsRefused(uri.scheme, MountPoints.AuthorityName(uri.authority));
    } else {
      MountPointIsAccepted(uri);
    }
  }

  // A URI that is a scheme alone.
  lemma BareSchemeIsRefused()
    ensures MountPoints.IsUriText("m:") && !TypedPaths.IsRootedNormalized(MountPoints.MountPoint("m:")[1..])
  {
    MountPoints.PlainUri("m", "");
    assert "m" + ":" + "" == "m:";
    MountPoints.UriPartsAreNamed("m:");
    AcceptedExactlyWithFolder(MountPoints.ParseUri("m:"));
  }

  lemma RootHasNo(scheme: string, authority: string, c: char)
    requires c !in scheme && c !in authority && c !in TypedPaths.DYNAMIC_PREFIX
    ensures var root := TypedPaths.DYNAMIC_PREFIX + scheme + "/" + authority + "/"; c !in root && "^/" <= root
  {
    var prefix := TypedPaths.DYNAMIC_PREFIX;
    ConcatHasNo(prefix, scheme, c);
    ConcatHasNo(prefix + scheme, "/", c);
    ConcatHasNo(prefix + scheme + "/", authority, c);
    ConcatHasNo(prefix + scheme + "/" + authority, "/", c);
  }

  // Without a folder the name ends in its authority: a root with no slash, which the lint refuses.
  lemma BareAuthorityIsRefused(scheme: string, authority: string)
    requires '/' !in scheme && '/' !in authority && authority != ""
    ensures !TypedPaths.IsRootedNormalized(TypedPaths.DYNAMIC_PREFIX + scheme + "/" + authority)
  {
    var prefix := TypedPaths.DYNAMIC_PREFIX;
    var path := prefix + scheme + "/" + authority;
    PartEnds(prefix, scheme, authority);
    assert forall j :: |prefix| + |scheme| < j < |path| ==> path[j] == authority[j - |prefix| - |scheme| - 1];
    assert IndexOf(path, '/', |prefix| + |scheme| + 1) == -1;
    assert prefix <= path;
    DynamicRootBelowPrefix(path);
    assert path[|path| - 1] == authority[|authority| - 1] && authority[|authority| - 1] in authority;
  }

  lemma BareMountPoint(uri: MountPoints.Uri)
    requires MountNames(uri) == []
    ensures MountPoints.MountPointOf(uri)[1..] == TypedPaths.DYNAMIC_PREFIX + uri.scheme + "/" + MountPoints.AuthorityName(uri.authority)
  {
    var authority := MountPoints.AuthorityName(uri.authority);
    assert [uri.scheme, authority] + [] == [uri.scheme, authority];
    assert [uri.scheme, authority][1..] == [authority];
    assert Join([uri.scheme, authority], '/') == uri.scheme + "/" + authority;
    RegroupBare(MountPoints.DYNAMIC_PREFIX, uri.scheme, authority);
  }
}
