// Names for virtual workspace folders: a URI becomes a path the WASI host can mount, and a
// path below such a mount becomes the URI again.
module MountPoints {
  import opened Basics
  import opened Text
  import Utf8

  const DYNAMIC_PREFIX: string := "^/~ts-uri~/"
  const ESCAPE: string := "~ts-uri-escape~"
  const SPEC: string := "~ts-uri-spec~"
  const NO_PATH: string := "~ts-uri-no-path~"
  const NUL_AUTHORITY: string := "ts-nul-authority"

  // ---------------------------------------------------------------- segments

  predicate IsDriveRoot(s: string) {
    |s| == 2 && ('A' <= s[0] <= 'Z' || 'a' <= s[0] <= 'z') && s[1] == ':'
  }

  predicate NeedsEncoding(s: string) {
    s == "" || s == "." || s == ".." || '\\' in s || ESCAPE <= s || SPEC <= s || NO_PATH <= s
  }

  function Extension(baseName: string): string {
    if EndsWith(baseName, ".d.ts") then ".d.ts"
    else if EndsWith(baseName, ".d.cts") then ".d.cts"
    else if EndsWith(baseName, ".d.mts") then ".d.mts"
    else if EndsWith(baseName, ".ts") && IndexOfText(baseName, ".d.", 0) != -1 then
      baseName[IndexOfText(baseName, ".d.", 0)..]
    else if LastIndexOf(baseName, '.') == -1 then ""
    else baseName[LastIndexOf(baseName, '.')..]
  }

  // The text ends with it, and it starts with a dot.
  predicate EndsInExtension(name: string, ext: string) {
    EndsWith(name, ext) && (ext != "" ==> ext[0] == '.')
  }

  lemma ExtensionEnds(baseName: string)
    ensures EndsInExtension(baseName, Extension(baseName))
  {
    if EndsWith(baseName, ".d.ts") || EndsWith(baseName, ".d.cts") || EndsWith(baseName, ".d.mts") {
    } else if EndsWith(baseName, ".ts") && IndexOfText(baseName, ".d.", 0) != -1 {
      DotFound(baseName, IndexOfText(baseName, ".d.", 0));
    } else if LastIndexOf(baseName, '.') != -1 {
      TailEnds(baseName, LastIndexOf(baseName, '.'));
    }
  }

  lemma DotFound(name: string, at: nat)
    requires StandsAt(name, ".d.", at)
    ensures EndsInExtension(name, name[at..])
  {
    assert name[at..at + 3][0] == '.';
    TailEnds(name, at);
  }

  lemma TailEnds(name: string, at: nat)
    requires at < |name| && name[at] == '.'
    ensures EndsInExtension(name, name[at..])
  {
  }

  function PreservedExtension(segment: string, preserve: bool): (ext: string)
    ensures |ext| <= |segment| && segment[|segment| - |ext|..] == ext && '\\' !in ext
    ensures ext != "" ==> ext[0] == '.'
  {
    if preserve && segment != "." && segment != ".." then
      var base := segment[LastIndexOf(segment, '\\') + 1..];
      var ext := Extension(base);
      ExtensionEnds(base);
      SuffixOfSuffix(segment, LastIndexOf(segment, '\\') + 1, |ext|);
      ext
    else ""
  }

  function ForceEncode(segment: string, preserve: bool): string {
    ForceEncodeWith(segment, PreservedExtension(segment, preserve))
  }

  // The segment escaped but for its extension.
  function ForceEncodeWith(segment: string, ext: string): string
    requires |ext| <= |segment|
  {
    Escaped(Utf8.Hex(Utf8.Encode(segment[..|segment| - |ext|])), ext)
  }

  function Escaped(hex: string, ext: string): string {
    ESCAPE + hex + "~" + ext
  }

  function EncodeSegment(segment: string): string {
    if NeedsEncoding(segment) then ForceEncode(segment, false) else segment
  }

  // The program always drops a byte order mark; keepMark describes a decoder that would not.
  function DecodeSegment(segment: string, keepMark: bool): Option<string> {
    if !(ESCAPE <= segment) then
      if NeedsEncoding(segment) then None else Some(segment)
    else
      var encoded := segment[|ESCAPE|..];
      var end := IndexOf(encoded, '~', 0);
      if end == -1 || !Utf8.IsHex(encoded[..end]) then None
      else match Utf8.Decode(Utf8.ParseHex(encoded[..end]), keepMark)
        case None => None
        case Some(decoded) => if '\0' in decoded then None else Some(decoded + encoded[end + 1..])
  }

  // A segment that is escaped and starts with U+FEFF, which its decoding takes for a byte order mark.
  predicate Marked(segment: string) {
    segment != "" && segment[0] == Utf8.BYTE_ORDER_MARK && '\\' in segment
  }

  function Kept(segment: string, keepMark: bool): string {
    if !keepMark && Marked(segment) then segment[1..] else segment
  }

  lemma HexHasNoTilde(bs: seq<byte>)
    ensures forall c :: c in Utf8.Hex(bs) ==> c != '~' && c != '/' && c != '\\'
  {
    Utf8.ParseHexOfHex(bs);
  }

  lemma EscapedParts(hex: string, ext: string)
    requires forall c :: c in hex ==> c != '~'
    ensures var name := Escaped(hex, ext);
      ESCAPE <= name && IndexOf(name[|ESCAPE|..], '~', 0) == |hex|
      && name[|ESCAPE|..][..|hex|] == hex && name[|ESCAPE|..][|hex| + 1..] == ext
  {
    var encoded := Escaped(hex, ext)[|ESCAPE|..];
    assert encoded == hex + "~" + ext;
    assert forall j :: 0 <= j < |hex| ==> encoded[j] == hex[j] && hex[j] in hex;
    IndexOfIs(encoded, '~', 0, |hex|);
  }

  predicate StartsMarked(s: string) {
    s != "" && s[0] == Utf8.BYTE_ORDER_MARK
  }

  lemma ForceRoundTrip(segment: string, preserve: bool, keepMark: bool)
    requires '\0' !in segment
    ensures DecodeSegment(ForceEncode(segment, preserve), keepMark) ==
      Some(if !keepMark && StartsMarked(segment) then segment[1..] else segment)
  {
    var ext := PreservedExtension(segment, preserve);
    var stem := segment[..|segment| - |ext|];
    assert segment == stem + ext;
    assert '\0' !in stem;
    var bytes := Utf8.Encode(stem);
    HexHasNoTilde(bytes);
    EscapedParts(Utf8.Hex(bytes), ext);
    Utf8.ParseHexOfHex(bytes);
    Utf8.DecodeEncodeText(stem, keepMark);
    MarkIsInStem(stem, ext);
  }

  // An extension starts with a dot, so a mark in front is never part of it.
  lemma MarkIsInStem(stem: string, ext: string)
    requires ext != "" ==> ext[0] == '.'
    ensures StartsMarked(stem + ext) <==> StartsMarked(stem)
    ensures StartsMarked(stem) ==> stem[1..] + ext == (stem + ext)[1..]
  {
    if stem == "" {
      assert stem + ext == ext;
    }
  }

  // Of the parts that get escaped, those that start with the mark contain a backslash.
  lemma MarkedPart(s: string)
    requires NeedsEncoding(s) || IsDriveRoot(s) || s == NUL_AUTHORITY
    ensures StartsMarked(s) <==> Marked(s)
  {
    assert ESCAPE[0] == SPEC[0] == NO_PATH[0] == '~' && NUL_AUTHORITY[0] == 't';
  }

  lemma SegmentRoundTrip(segment: string, keepMark: bool)
    requires '\0' !in segment
    ensures DecodeSegment(EncodeSegment(segment), keepMark) == Some(Kept(segment, keepMark))
  {
    if NeedsEncoding(segment) {
      ForceRoundTrip(segment, false, keepMark);
      MarkedPart(segment);
    } else {
      assert !Marked(segment);
    }
  }

  // A directory entry is named as the server names it; the name decodes to the entry.
  function UriSegmentToWasmName(segment: string, isFile: bool): string {
    if NeedsEncoding(segment) then ForceEncode(segment, isFile) else segment
  }

  lemma WasmNameRoundTrip(segment: string, isFile: bool)
    requires '\0' !in segment
    ensures DecodeSegment(UriSegmentToWasmName(segment, isFile), false) == Some(segment) <==> !Marked(segment)
  {
    if NeedsEncoding(segment) {
      ForceRoundTrip(segment, isFile, false);
      MarkedPart(segment);
    }
  }

  // A name that can stand as one segment of a normalised path.
  predicate PlainName(name: string) {
    name != "" && name != "." && name != ".." && '/' !in name && '\\' !in name
  }

  lemma ForcedIsPlain(segment: string, preserve: bool)
    requires '/' !in segment
    ensures PlainName(ForceEncode(segment, preserve)) && ForceEncode(segment, preserve)[0] == '~'
  {
    ForcedWithIsPlain(segment, PreservedExtension(segment, preserve));
  }

  lemma ForcedWithIsPlain(segment: string, ext: string)
    requires '/' !in segment && |ext| <= |segment| && segment[|segment| - |ext|..] == ext && '\\' !in ext
    ensures PlainName(ForceEncodeWith(segment, ext)) && ForceEncodeWith(segment, ext)[0] == '~'
  {
    SuffixHasNo(segment, |segment| - |ext|, '/');
    EscapedBytesArePlain(Utf8.Encode(segment[..|segment| - |ext|]), ext);
  }

  lemma EscapedBytesArePlain(bytes: seq<byte>, ext: string)
    requires '/' !in ext && '\\' !in ext
    ensures PlainName(Escaped(Utf8.Hex(bytes), ext)) && Escaped(Utf8.Hex(bytes), ext)[0] == '~'
  {
    HexHasNoTilde(bytes);
    EscapedIsPlain(Utf8.Hex(bytes), ext);
  }

  lemma EscapedIsPlain(hex: string, ext: string)
    requires '/' !in hex && '\\' !in hex && '/' !in ext && '\\' !in ext
    ensures PlainName(Escaped(hex, ext)) && Escaped(hex, ext)[0] == '~'
  {
    assert '/' !in ESCAPE && '\\' !in ESCAPE;
  }

  // ---------------------------------------------------------------- URIs

  datatype Uri = Uri(scheme: string, authority: Option<string>, path: string)

  // A URI's text without query and fragment, taken apart; the path of a URI with an
  // authority is what follows the slash after it.
  function ParseUri(text: string): Uri
    requires ':' in text
  {
    var colon := IndexOf(text, ':', 0);
    var all := text[colon + 1..];
    SplitAuthority(text[..colon], all[..SuffixStart(all)])
  }

  function SplitAuthority(scheme: string, path: string): Uri {
    if "//" <= path then
      var slash := IndexOf(path, '/', 2);
      if slash == -1 then Uri(scheme, Some(path[2..]), "")
      else Uri(scheme, Some(path[2..slash]), path[slash + 1..])
    else Uri(scheme, None, path)
  }

  // What every URI text is: a scheme that is a name, then no NUL anywhere.
  predicate IsUriText(text: string) {
    ':' in text && PlainName(text[..IndexOf(text, ':', 0)]) && '\0' !in text
  }

  function TrimSlash(path: string): string {
    if path != "" && path[|path| - 1] == '/' then path[..|path| - 1] else path
  }

  function Segments(path: string): (segments: seq<string>)
    ensures forall segment :: segment in segments ==> '/' !in segment
  {
    if path == "" then [] else Split(TrimSlash(path), '/')
  }

  function Rebuild(scheme: string, authority: Option<string>, segments: seq<string>): string {
    var path := Join(segments, '/');
    match authority
    case None => scheme + ":" + if path != "" then path else if segments != [] then "/" else ""
    case Some(name) => scheme + "://" + name + "/" + path
  }

  // The text that decoding can give back.
  function NormalText(text: string): string
    requires ':' in text
  {
    NormalForm(ParseUri(text))
  }

  function NormalForm(uri: Uri): string {
    Rebuild(uri.scheme, uri.authority, Segments(uri.path))
  }

  // The text without query and fragment.
  function PlainText(text: string): string
    requires ':' in text
  {
    var colon := IndexOf(text, ':', 0);
    var all := text[colon + 1..];
    text[..colon] + ":" + all[..SuffixStart(all)]
  }

  // The text ends with its authority.
  predicate BareAuthority(text: string)
    requires ':' in text
  {
    var uri := ParseUri(text);
    uri.authority.Some? && PlainText(text) == uri.scheme + "://" + uri.authority.value
  }

  // The path ends with a slash that is not the root of a path without an authority.
  predicate TrailingSlash(uri: Uri) {
    uri.path != "" && uri.path[|uri.path| - 1] == '/' && !(uri.authority.None? && uri.path == "/")
  }

  // What decoding can give back is that text, with a slash after a bare authority and without
  // one trailing slash; the root is kept.
  lemma NormalTextIsText(text: string)
    requires ':' in text
    ensures TrailingSlash(ParseUri(text)) ==> NormalText(text) + "/" == PlainText(text)
    ensures BareAuthority(text) ==> NormalText(text) == PlainText(text) + "/"
    ensures !TrailingSlash(ParseUri(text)) && !BareAuthority(text) ==> NormalText(text) == PlainText(text)
  {
    TrimmedForm(ParseUri(text));
    PlainTextForm(text);
  }

  // The parts put together again, with a slash after the authority.
  function FullText(uri: Uri): string {
    Before(uri) + uri.path
  }

  function Before(uri: Uri): string {
    if uri.authority.Some? then uri.scheme + "://" + uri.authority.value + "/" else uri.scheme + ":"
  }

  lemma TrimmedForm(uri: Uri)
    ensures if TrailingSlash(uri) then NormalForm(uri) + "/" == FullText(uri) else NormalForm(uri) == FullText(uri)
  {
    var trimmed, before := TrimSlash(uri.path), Before(uri);
    JoinSplit(trimmed, '/');
    assert Join(Segments(uri.path), '/') == trimmed;
    if uri.path != trimmed {
      assert uri.path == trimmed + "/";
      GlueAuthority(before, trimmed, "");
      assert before + trimmed + "/" + "" == before + trimmed + "/" && trimmed + "/" + "" == uri.path;
    }
  }

  lemma PlainTextForm(text: string)
    requires ':' in text
    ensures var uri := ParseUri(text);
      if BareAuthority(text) then uri.path == "" && FullText(uri) == PlainText(text) + "/" else FullText(uri) == PlainText(text)
  {
    var colon := IndexOf(text, ':', 0);
    var all := text[colon + 1..];
    SplitForm(text[..colon], all[..SuffixStart(all)]);
  }

  lemma SplitForm(scheme: string, path: string)
    ensures var uri, plain := SplitAuthority(scheme, path), scheme + ":" + path;
      if uri.authority.Some? && plain == uri.scheme + "://" + uri.authority.value
      then uri.path == "" && FullText(uri) == plain + "/" else FullText(uri) == plain
  {
    AuthorityForm(scheme, path);
    if "//" <= path && IndexOf(path, '/', 2) == -1 {
      GlueScheme(scheme, path[2..]);
      assert path == "//" + path[2..];
    }
  }

  lemma AuthorityForm(scheme: string, path: string)
    ensures "//" <= path ==>
      var slash := IndexOf(path, '/', 2);
      if slash == -1 then scheme + "://" + path[2..] + "/" + "" == scheme + ":" + path + "/"
      else scheme + "://" + path[2..slash] + "/" + path[slash + 1..] == scheme + ":" + path
  {
    if "//" <= path {
      var slash, rest := IndexOf(path, '/', 2), path[2..];
      assert path == "//" + rest;
      GlueScheme(scheme, rest);
      if slash == -1 {
        assert scheme + "://" + rest + "/" + "" == scheme + "://" + rest + "/";
      } else {
        assert rest == path[2..slash] + "/" + path[slash + 1..];
        GlueAuthority(scheme + "://", path[2..slash], path[slash + 1..]);
      }
    }
  }

  // ---------------------------------------------------------------- mount points

  function AuthorityName(authority: Option<string>): string {
    match authority
    case None => NUL_AUTHORITY
    case Some(raw) =>
      if raw == NUL_AUTHORITY || IsDriveRoot(raw) then ForceEncode(raw, false)
      else if NeedsEncoding(raw) then ForceEncode(raw, true)
      else raw
  }

  function SegmentName(segment: string, first: bool): string {
    if first && IsDriveRoot(EncodeSegment(segment)) then ForceEncode(EncodeSegment(segment), false) else EncodeSegment(segment)
  }

  function SegmentNames(segments: seq<string>, first: bool): (names: seq<string>)
    ensures |names| == |segments|
  {
    if segments == [] then [] else [SegmentName(segments[0], first)] + SegmentNames(segments[1..], false)
  }

  function MountPoint(text: string): string
    requires ':' in text
  {
    MountPointOf(ParseUri(text))
  }

  function MountParts(uri: Uri): seq<string> {
    [uri.scheme, AuthorityName(uri.authority)] + SegmentNames(Segments(uri.path), true)
  }

  function MountPointOf(uri: Uri): string {
    "/" + DYNAMIC_PREFIX + Join(MountParts(uri), '/')
  }

  function DecodeSegments(names: seq<string>, keepMark: bool): Option<seq<string>> {
    if names == [] then Some([])
    else match DecodeSegment(names[0], keepMark)
      case None => None
      case Some(first) =>
        match DecodeSegments(names[1..], keepMark)
        case None => None
        case Some(rest) => Some([first] + rest)
  }

  function UriText(path: string, keepMark: bool): Option<string> {
    var prefix := "/" + DYNAMIC_PREFIX;
    if !(prefix <= path) then None
    else
      var parts := Split(path[|prefix|..], '/');
      if |parts| < 2 || parts[0] == "" then None
      else match DecodeSegments(parts[2..], keepMark)
        case None => None
        case Some(segments) =>
          if parts[1] == NUL_AUTHORITY then Some(Rebuild(parts[0], None, segments))
          else match DecodeSegment(parts[1], keepMark)
            case None => None
            case Some(authority) => Some(Rebuild(parts[0], Some(authority), segments))
  }

  // ---------------------------------------------------------------- the round trip

  function KeptAll(segments: seq<string>, keepMark: bool): (r: seq<string>)
    ensures |r| == |segments|
  {
    if segments == [] then [] else [Kept(segments[0], keepMark)] + KeptAll(segments[1..], keepMark)
  }

  lemma AuthorityRoundTrip(raw: string, keepMark: bool)
    requires '\0' !in raw && '/' !in raw
    ensures DecodeSegment(AuthorityName(Some(raw)), keepMark) == Some(Kept(raw, keepMark))
    ensures AuthorityName(Some(raw)) != NUL_AUTHORITY && PlainName(AuthorityName(Some(raw)))
  {
    if raw == NUL_AUTHORITY || IsDriveRoot(raw) || NeedsEncoding(raw) {
      var preserve := !(raw == NUL_AUTHORITY || IsDriveRoot(raw));
      ForceRoundTrip(raw, preserve, keepMark);
      ForcedIsPlain(raw, preserve);
      MarkedPart(raw);
      assert NUL_AUTHORITY[0] == 't';
    } else {
      SegmentRoundTrip(raw, keepMark);
    }
  }

  lemma SegmentNameRoundTrip(segment: string, first: bool, keepMark: bool)
    requires '\0' !in segment && '/' !in segment
    ensures DecodeSegment(SegmentName(segment, first), keepMark) == Some(Kept(segment, keepMark))
    ensures PlainName(SegmentName(segment, first))
  {
    SegmentRoundTrip(segment, keepMark);
    ForcedIsPlain(segment, false);
    if IsDriveRoot(EncodeSegment(segment)) {
      assert EncodeSegment(segment) == segment;
      ForceRoundTrip(segment, false, keepMark);
      MarkedPart(segment);
    }
  }

  lemma {:induction false} SegmentNamesRoundTrip(segments: seq<string>, first: bool, keepMark: bool)
    requires forall segment :: segment in segments ==> '\0' !in segment && '/' !in segment
    ensures DecodeSegments(SegmentNames(segments, first), keepMark) == Some(KeptAll(segments, keepMark))
    ensures forall name :: name in SegmentNames(segments, first) ==> PlainName(name)
    decreases segments
  {
    if segments != [] {
      assert segments[0] in segments;
      SegmentNameRoundTrip(segments[0], first, keepMark);
      assert forall segment :: segment in segments[1..] ==> segment in segments;
      SegmentNamesRoundTrip(segments[1..], false, keepMark);
      assert SegmentNames(segments, first)[1..] == SegmentNames(segments[1..], false);
    }
  }

  lemma SplitKeepsOut(scheme: string, path: string, c: char)
    requires c !in path
    ensures var uri := SplitAuthority(scheme, path);
      c !in uri.path && (uri.authority.Some? ==> c !in uri.authority.value)
  {
  }

  // The parts of a URI whose mount point can be read back.
  ghost predicate Named(uri: Uri) {
    PlainName(uri.scheme)
    && (uri.authority.Some? ==> '\0' !in uri.authority.value && '/' !in uri.authority.value)
    && forall segment :: segment in Segments(uri.path) ==> '\0' !in segment && '/' !in segment
  }

  lemma UriPartsAreNamed(text: string)
    requires IsUriText(text)
    ensures Named(ParseUri(text))
  {
    var uri := ParseUri(text);
    var all := text[IndexOf(text, ':', 0) + 1..];
    var path := all[..SuffixStart(all)];
    assert forall c :: c in path ==> c in text;
    SplitKeepsOut(uri.scheme, path, '\0');
    JoinHasNoNul(TrimSlash(uri.path), '/');
  }

  // Decoding a mount point gives the URI's parts back, less the marks it drops.
  lemma MountPointDecodes(text: string, keepMark: bool)
    requires IsUriText(text)
    ensures var uri := ParseUri(text);
      UriText(MountPoint(text), keepMark) ==
        Some(Rebuild(uri.scheme, if uri.authority.Some? then Some(Kept(uri.authority.value, keepMark)) else None,
          KeptAll(Segments(uri.path), keepMark)))
  {
    UriPartsAreNamed(text);
    var uri := ParseUri(text);
    PartsDecode(uri, keepMark);
  }

  lemma PartsDecode(uri: Uri, keepMark: bool)
    requires Named(uri)
    ensures UriText(MountPointOf(uri), keepMark) ==
        Some(Rebuild(uri.scheme, if uri.authority.Some? then Some(Kept(uri.authority.value, keepMark)) else None,
          KeptAll(Segments(uri.path), keepMark)))
  {
    if uri.authority.Some? {
      AuthorityRoundTrip(uri.authority.value, keepMark);
    }
    SegmentNamesRoundTrip(Segments(uri.path), true, keepMark);
    PartsHaveNoSlash(uri);
    assert MountParts(uri)[2..] == SegmentNames(Segments(uri.path), true);
    PrefixedPartsRead(MountParts(uri), keepMark);
  }

  // Behind the prefix, joined parts are read one by one.
  lemma PrefixedPartsRead(parts: seq<string>, keepMark: bool)
    requires |parts| >= 2 && parts[0] != "" && forall part :: part in parts ==> '/' !in part
    ensures UriText("/" + DYNAMIC_PREFIX + Join(parts, '/'), keepMark) ==
      match DecodeSegments(parts[2..], keepMark)
      case None => None
      case Some(segments) =>
        if parts[1] == NUL_AUTHORITY then Some(Rebuild(parts[0], None, segments))
        else match DecodeSegment(parts[1], keepMark)
          case None => None
          case Some(authority) => Some(Rebuild(parts[0], Some(authority), segments))
  {
    var prefix := "/" + DYNAMIC_PREFIX;
    assert (prefix + Join(parts, '/'))[|prefix|..] == Join(parts, '/');
    SplitJoin(parts, '/');
  }

  lemma {:induction false} KeptAllIsShorter(segments: seq<string>)
    ensures KeptAll(segments, true) == segments
    ensures (forall segment :: segment in segments ==> !Marked(segment)) ==> KeptAll(segments, false) == segments
    ensures (exists segment :: segment in segments && Marked(segment)) ==>
      0 < |Join(KeptAll(segments, false), '/')| < |Join(segments, '/')|
    ensures |Join(KeptAll(segments, false), '/')| <= |Join(segments, '/')|
    decreases segments
  {
    if segments != [] {
      var rest := segments[1..];
      KeptAllIsShorter(rest);
      assert KeptAll(segments, false)[1..] == KeptAll(rest, false);
      assert forall segment :: segment in segments <==> segment == segments[0] || segment in rest;
    }
  }

  predicate HasMark(uri: Uri) {
    (uri.authority.Some? && Marked(uri.authority.value)) || exists segment | segment in Segments(uri.path) :: Marked(segment)
  }

  // The program's decoder gives back the normal text exactly when no escaped part of the
  // URI starts with U+FEFF.
  lemma MountPointRoundTrip(text: string)
    requires IsUriText(text)
    ensures UriText(MountPoint(text), false) == Some(NormalText(text)) <==> !HasMark(ParseUri(text))
  {
    var uri := ParseUri(text);
    MountPointDecodes(text, false);
    KeptAllIsShorter(Segments(uri.path));
  }

  // Two URIs have the same scheme, authority and path segments.
  predicate SameParts(a: Uri, b: Uri) {
    a.scheme == b.scheme && a.authority == b.authority && Segments(a.path) == Segments(b.path)
  }

  // URIs share a mount point exactly when they do.
  lemma {:induction false} MountPointExact(a: Uri, b: Uri)
    requires Named(a) && Named(b)
    ensures MountPointOf(a) == MountPointOf(b) <==> SameParts(a, b)
  {
    if MountPointOf(a) == MountPointOf(b) {
      var prefix := "/" + DYNAMIC_PREFIX;
      AfterPrefix(prefix, Join(MountParts(a), '/'));
      AfterPrefix(prefix, Join(MountParts(b), '/'));
      PartsSplit(a);
      PartsSplit(b);
      NamesDetermine(a, b);
    }
  }

  lemma {:induction false} NamesDetermine(a: Uri, b: Uri)
    requires Named(a) && Named(b) && MountParts(a) == MountParts(b)
    ensures SameParts(a, b)
  {
    SegmentNamesRoundTrip(Segments(a.path), true, true);
    SegmentNamesRoundTrip(Segments(b.path), true, true);
    KeptAllIsShorter(Segments(a.path));
    KeptAllIsShorter(Segments(b.path));
    var p, q := MountParts(a), MountParts(b);
    assert a.scheme == p[0] && b.scheme == q[0];
    assert AuthorityName(a.authority) == p[1] == q[1] == AuthorityName(b.authority);
    assert SegmentNames(Segments(a.path), true) == p[2..] == q[2..] == SegmentNames(Segments(b.path), true);
    if a.authority.Some? {
      AuthorityRoundTrip(a.authority.value, true);
    }
    if b.authority.Some? {
      AuthorityRoundTrip(b.authority.value, true);
    }
  }

  // The joined names split into the names again.
  lemma {:induction false} PartsSplit(uri: Uri)
    requires Named(uri)
    ensures Split(Join(MountParts(uri), '/'), '/') == MountParts(uri)
  {
    PartsHaveNoSlash(uri);
    SplitJoin(MountParts(uri), '/');
  }

  lemma PartsHaveNoSlash(uri: Uri)
    requires Named(uri)
    ensures forall part :: part in MountParts(uri) ==> '/' !in part
  {
    if uri.authority.Some? {
      AuthorityRoundTrip(uri.authority.value, true);
    }
    SegmentNamesRoundTrip(Segments(uri.path), true, true);
  }

  // So they share it only if they are the same normal text.
  lemma MountPointInjective(a: Uri, b: Uri)
    requires Named(a) && Named(b) && MountPointOf(a) == MountPointOf(b)
    ensures NormalForm(a) == NormalForm(b)
  {
    MountPointExact(a, b);
  }

  const MARKED_FOLDER: string := [Utf8.BYTE_ORDER_MARK, '\\']

  // A folder named by U+FEFF and a backslash comes back without the mark.
  lemma MarkIsLost()
    ensures ParseUri("m:" + MARKED_FOLDER) == Uri("m", None, MARKED_FOLDER) && IsUriText("m:" + MARKED_FOLDER)
    ensures UriText(MountPointOf(Uri("m", None, MARKED_FOLDER)), false) == Some("m:" + "\\")
  {
    PlainUri("m", MARKED_FOLDER);
    assert "m" + ":" + MARKED_FOLDER == "m:" + MARKED_FOLDER;
    var uri := Uri("m", None, MARKED_FOLDER);
    SingleSegment(MARKED_FOLDER);
    UriPartsAreNamed("m:" + MARKED_FOLDER);
    PartsDecode(uri, false);
    MarkedFolderKept();
  }

  lemma MarkedFolderKept()
    ensures KeptAll([MARKED_FOLDER], false) == ["\\"]
  {
    assert Marked(MARKED_FOLDER) && MARKED_FOLDER[1..] == "\\";
    assert [MARKED_FOLDER][1..] == [];
  }

  lemma SingleSegment(folder: string)
    requires folder != "" && '/' !in folder
    ensures Segments(folder) == [folder]
  {
    assert folder[|folder| - 1] in folder;
    assert TrimSlash(folder) == folder;
  }

  lemma PlainUri(scheme: string, path: string)
    requires PlainName(scheme) && ':' !in scheme && '\0' !in scheme
    requires '?' !in path && '#' !in path && '\0' !in path && '/' !in path
    ensures var text := scheme + ":" + path; IsUriText(text) && ParseUri(text) == Uri(scheme, None, path)
  {
    var text := scheme + ":" + path;
    IndexOfIs(text, ':', 0, |scheme|);
    assert text[..|scheme|] == scheme && text[|scheme| + 1..] == path;
    NoSuffix(path);
  }

  // ---------------------------------------------------------------- the program's own form

  // A folder's URI: its parts, and its text.
  datatype FolderUri = FolderUri(scheme: string, authority: string, path: string, text: string)

  // The server's name for a file's folder; `lower` is the library's lower-casing.
  function FileName(authority: string, path: string, lower: string -> string): string {
    if authority != "" then "//" + lower(authority) + path
    else if |path| >= 3 && path[0] == '/' && IsDriveRoot(path[1..3]) then [LowerLetter(path[1])] + path[2..]
    else path
  }

  function Rooted(fileName: string): string {
    if "/" <= fileName then fileName else "/" + fileName
  }

  // A local or shared folder keeps its path.
  function FileMountPoint(authority: string, path: string, lower: string -> string): string {
    Rooted(FileName(authority, path, lower))
  }

  function LowerLetter(c: char): char {
    if 'A' <= c <= 'Z' then c + 32 as char else c
  }

  // A file's folder is mounted among the virtual ones exactly when its path imitates their prefix.
  lemma FilesAreMountedApart(authority: string, path: string, lower: string -> string)
    ensures "/" + DYNAMIC_PREFIX <= FileMountPoint(authority, path, lower)
      <==> authority == "" && ("/" + DYNAMIC_PREFIX <= path || DYNAMIC_PREFIX <= path)
  {
    var fileName := FileName(authority, path, lower);
    RootedPrefix(fileName);
    if authority != "" {
      assert fileName[0] == '/' && fileName[1] == '/';
    } else if fileName != path {
      assert fileName[0] == LowerLetter(path[1]) && path[0] == '/' && path[1] != '^';
    }
  }

  // A folder of a drive keeps its whole path but for the letter's case, a shared one its path
  // behind its lower-cased host, and any other rooted path is the mount point itself.
  lemma FileMountPointsNamed(letter: char, rest: string, host: string, path: string, lower: string -> string)
    requires 'a' <= letter <= 'z' || 'A' <= letter <= 'Z'
    requires host != "" && "/" <= path && !(|path| > 2 && path[2] == ':' && ('a' <= path[1] <= 'z' || 'A' <= path[1] <= 'Z'))
    ensures FileMountPoint("", "/" + [letter] + ":" + rest, lower)
      == "/" + [if 'A' <= letter <= 'Z' then (letter as int + 32) as char else letter] + ":" + rest
    ensures FileMountPoint(host, path, lower) == "//" + lower(host) + path
    ensures FileMountPoint("", path, lower) == path
  {
    DriveMountPoint(letter, rest, lower);
    var shared := "//" + lower(host) + path;
    assert shared[..1] == "/";
  }

  lemma DriveMountPoint(letter: char, rest: string, lower: string -> string)
    requires 'a' <= letter <= 'z' || 'A' <= letter <= 'Z'
    ensures FileMountPoint("", "/" + [letter] + ":" + rest, lower)
      == "/" + [if 'A' <= letter <= 'Z' then (letter as int + 32) as char else letter] + ":" + rest
  {
    var path := "/" + [letter] + ":" + rest;
    assert path[1..3] == [letter] + ":" && path[2..] == ":" + rest;
    var fileName := [LowerLetter(letter)] + (":" + rest);
    assert FileName("", path, lower) == fileName && fileName[0] != '/';
    assert "/" + fileName == "/" + [LowerLetter(letter)] + ":" + rest;
  }

  // The paths are the same, or differ in the case of a drive letter alone.
  predicate SameButDriveCase(path: string, other: string) {
    path == other
    || (|path| == |other| && |path| > 2 && path[2] == ':' && (forall i :: 0 <= i < |path| && i != 1 ==> path[i] == other[i])
        && (('A' <= path[1] <= 'Z' && path[1] as int + 32 == other[1] as int)
            || ('A' <= other[1] <= 'Z' && other[1] as int + 32 == path[1] as int)))
  }

  // Local folders share a mount point exactly when their paths agree but for that.
  lemma LocalFoldersApart(path: string, other: string, lower: string -> string)
    requires "/" <= path && "/" <= other
    ensures FileMountPoint("", path, lower) == FileMountPoint("", other, lower) <==> SameButDriveCase(path, other)
  {
    LocalMountPoint(path, lower);
    LocalMountPoint(other, lower);
    SmallDriveExact(path, other);
  }

  // The path with a small drive letter.
  function SmallDrive(path: string): string {
    if |path| > 2 && path[2] == ':' && 'A' <= path[1] <= 'Z' then path[1 := (path[1] as int + 32) as char] else path
  }

  lemma SmallDriveExact(path: string, other: string)
    requires "/" <= path && "/" <= other
    ensures SmallDrive(path) == SmallDrive(other) <==> SameButDriveCase(path, other)
  {
    var m, n := SmallDrive(path), SmallDrive(other);
    assert forall i :: 0 <= i < |path| && i != 1 ==> m[i] == path[i];
    assert forall i :: 0 <= i < |other| && i != 1 ==> n[i] == other[i];
    if SameButDriveCase(path, other) {
      assert |m| == |n| && forall i :: 0 <= i < |m| ==> m[i] == n[i];
    }
    if m == n {
      forall i | 0 <= i < |path| && i != 1
        ensures path[i] == other[i]
      {
        assert m[i] == n[i];
      }
      if |path| == 1 || path[1] == other[1] {
        assert forall i :: 0 <= i < |path| ==> path[i] == other[i];
      } else {
        assert m[1] == n[1];
      }
    }
  }

  lemma LocalMountPoint(path: string, lower: string -> string)
    requires "/" <= path
    ensures FileMountPoint("", path, lower) == SmallDrive(path)
  {
    if |path| > 2 && path[2] == ':' && ('A' <= path[1] <= 'Z' || 'a' <= path[1] <= 'z') {
      assert path == "/" + [path[1]] + ":" + path[3..];
      DriveMountPoint(path[1], path[3..], lower);
    } else if |path| > 2 {
      assert path[1..3][1] == path[2] && path[1..3][0] == path[1];
    }
  }

  lemma RootedPrefix(fileName: string)
    ensures "/" + DYNAMIC_PREFIX <= Rooted(fileName) <==> "/" + DYNAMIC_PREFIX <= fileName || DYNAMIC_PREFIX <= fileName
    ensures "/" + DYNAMIC_PREFIX <= fileName ==> |fileName| > 1 && fileName[0] == '/' && fileName[1] == '^'
    ensures DYNAMIC_PREFIX <= fileName ==> |fileName| > 1 && fileName[0] == '^'
  {
    var prefix, rooted := "/" + DYNAMIC_PREFIX, Rooted(fileName);
    assert prefix[0] == '/' && prefix[1] == '^' && DYNAMIC_PREFIX[0] == '^' && prefix[1..] == DYNAMIC_PREFIX;
    if rooted != fileName {
      assert rooted[1..] == fileName;
      assert DYNAMIC_PREFIX <= fileName ==> rooted[..|prefix|] == prefix;
    }
  }

  method UriToWasmMountPoint(uri: FolderUri, lower: string -> string) returns (mountPoint: string)
    requires uri.scheme == "file" || IsUriText(uri.text)
    ensures mountPoint == if uri.scheme == "file" then FileMountPoint(uri.authority, uri.path, lower) else MountPoint(uri.text)
  {
    if uri.scheme == "file" {
      var fileName;
      if uri.authority != "" {
        fileName := "//" + lower(uri.authority) + uri.path;
      } else {
        fileName := if |uri.path| >= 3 && uri.path[0] == '/' && IsDriveRoot(uri.path[1..3])
                    then [LowerLetter(uri.path[1])] + uri.path[2..] else uri.path;
      }
      assert fileName == FileName(uri.authority, uri.path, lower);
      mountPoint := if "/" <= fileName then fileName else "/" + fileName;
      return;
    }
    mountPoint := VirtualMountPoint(uri.text);
  }

  method VirtualMountPoint(text: string) returns (mountPoint: string)
    requires IsUriText(text)
    ensures mountPoint == MountPoint(text)
  {
    var colon := IndexOf(text, ':', 0);
    var scheme := text[..colon];
    var path := text[colon + 1..];
    path := path[..SuffixStart(path)];
    ghost var uri := SplitAuthority(scheme, path);
    assert uri == ParseUri(text);
    var authority;
    authority, path := TakeAuthority(scheme, path);
    var segments := NameSegments(path);
    mountPoint := "/" + DYNAMIC_PREFIX + Join([scheme, authority] + segments, '/');
    assert mountPoint == MountPointOf(uri);
  }

  // The authority's name and the path after it.
  method TakeAuthority(scheme: string, path: string) returns (authority: string, rest: string)
    ensures var uri := SplitAuthority(scheme, path); authority == AuthorityName(uri.authority) && rest == uri.path
  {
    authority, rest := NUL_AUTHORITY, path;
    if "//" <= path {
      var slash := IndexOf(path, '/', 2);
      var rawAuthority := if slash == -1 then path[2..] else path[2..slash];
      authority := NameAuthority(rawAuthority);
      rest := if slash == -1 then "" else path[slash + 1..];
    }
  }

  method NameAuthority(rawAuthority: string) returns (authority: string)
    ensures authority == AuthorityName(Some(rawAuthority))
  {
    authority := if rawAuthority == NUL_AUTHORITY || IsDriveRoot(rawAuthority) then ForceEncode(rawAuthority, false)
                 else if NeedsEncoding(rawAuthority) then ForceEncode(rawAuthority, true) else rawAuthority;
  }

  method NameSegments(path: string) returns (segments: seq<string>)
    ensures segments == SegmentNames(Segments(path), true)
  {
    var parts := SplitSegments(path);
    segments := EncodeEach(parts);
    NamesFromEncoded(parts);
    if segments != [] && IsDriveRoot(segments[0]) {
      segments := segments[0 := ForceEncode(segments[0], false)];
    }
  }

  // The path is closed with a slash, split, and rid of the empty last part.
  method SplitSegments(path: string) returns (parts: seq<string>)
    ensures parts == Segments(path)
  {
    if path == "" {
      return [];
    }
    var closed := if path[|path| - 1] == '/' then path else path + "/";
    ClosedIsTrimmed(path);
    SplitAppend(TrimSlash(path), '/');
    parts := Split(closed, '/');
    parts := parts[..|parts| - 1];
  }

  lemma ClosedIsTrimmed(path: string)
    requires path != ""
    ensures (if path[|path| - 1] == '/' then path else path + "/") == TrimSlash(path) + ['/']
  {
  }

  function Encoded(segments: seq<string>): (r: seq<string>)
    ensures |r| == |segments| && forall i :: 0 <= i < |r| ==> r[i] == EncodeSegment(segments[i])
  {
    seq(|segments|, i requires 0 <= i < |segments| => EncodeSegment(segments[i]))
  }

  method EncodeEach(segments: seq<string>) returns (r: seq<string>)
    ensures r == Encoded(segments)
  {
    r := [];
    for i := 0 to |segments|
      invariant |r| == i && forall j :: 0 <= j < i ==> r[j] == EncodeSegment(segments[j])
    {
      r := r + [EncodeSegment(segments[i])];
    }
  }

  lemma {:induction false} NamesAreEncoded(segments: seq<string>, i: nat)
    requires i < |segments|
    ensures SegmentNames(segments, false)[i] == EncodeSegment(segments[i])
    decreases i
  {
    if i > 0 {
      NamesAreEncoded(segments[1..], i - 1);
    }
  }

  // Encoding each segment and then the first one again if it is a drive root.
  lemma NamesFromEncoded(segments: seq<string>)
    ensures var encoded := Encoded(segments);
      SegmentNames(segments, true) ==
        if encoded != [] && IsDriveRoot(encoded[0]) then encoded[0 := ForceEncode(encoded[0], false)] else encoded
  {
    if segments != [] {
      EncodedCons(segments);
    }
  }

  lemma EncodedCons(segments: seq<string>)
    requires segments != []
    ensures Encoded(segments) == [EncodeSegment(segments[0])] + SegmentNames(segments[1..], false)
  {
    var rest := segments[1..];
    forall i | 0 <= i < |rest|
      ensures SegmentNames(rest, false)[i] == Encoded(segments)[i + 1]
    {
      NamesAreEncoded(rest, i);
    }
  }

  // The segments decoded one by one and joined, unless one of them is malformed.
  method DecodeEach(segments: seq<string>) returns (uriPath: Option<string>)
    ensures uriPath == match DecodeSegments(segments, false) case None => None case Some(decoded) => Some(Join(decoded, '/'))
  {
    var path := "";
    ghost var decoded: seq<string> := [];
    for i := 0 to |segments|
      invariant |decoded| == i && path == Join(decoded, '/')
      invariant DecodeSegments(segments, false) == DecodedAfter(decoded, segments, i)
    {
      DecodeNext(decoded, segments, i);
      var segment := DecodeSegment(segments[i], false);
      if segment.None? {
        return None;
      }
      path := path + if i == 0 then segment.value else "/" + segment.value;
      JoinOneMore(decoded, segment.value);
      decoded := decoded + [segment.value];
    }
    return Some(path);
  }

  // What the segments decode to once the first i of them have been.
  function DecodedAfter(decoded: seq<string>, segments: seq<string>, i: nat): (r: Option<seq<string>>)
    requires i <= |segments|
    ensures i == 0 && decoded == [] ==> r == DecodeSegments(segments, false)
    ensures i == |segments| ==> r == Some(decoded)
  {
    assert i == 0 ==> segments[i..] == segments;
    assert i == |segments| ==> segments[i..] == [];
    match DecodeSegments(segments[i..], false)
    case None => None
    case Some(rest) =>
      assert decoded == [] ==> decoded + rest == rest;
      assert rest == [] ==> decoded + rest == decoded;
      Some(decoded + rest)
  }

  lemma DecodeNext(decoded: seq<string>, segments: seq<string>, i: nat)
    requires i < |segments|
    ensures DecodedAfter(decoded, segments, i) == match DecodeSegment(segments[i], false)
      case None => None
      case Some(segment) => DecodedAfter(decoded + [segment], segments, i + 1)
  {
    assert segments[i..][0] == segments[i] && segments[i..][1..] == segments[i + 1..];
    var segment, rest := DecodeSegment(segments[i], false), DecodeSegments(segments[i + 1..], false);
    if segment.Some? && rest.Some? {
      assert decoded + ([segment.value] + rest.value) == decoded + [segment.value] + rest.value;
    }
  }

  method WasmPathToUriText(path: string) returns (text: Option<string>)
    ensures text == UriText(path, false)
  {
    var prefix := "/" + DYNAMIC_PREFIX;
    if !(prefix <= path) {
      return None;
    }
    var parts := Split(path[|prefix|..], '/');
    if parts[0] == "" || |parts| < 2 {
      return None;
    }
    var scheme, authority, segments := parts[0], parts[1], parts[2..];
    var uriPath := DecodeEach(segments);
    if uriPath.None? {
      return None;
    }
    if authority == NUL_AUTHORITY {
      return Some(scheme + ":" + if uriPath.value != "" then uriPath.value else if |segments| != 0 then "/" else "");
    }
    var decodedAuthority := DecodeSegment(authority, false);
    if decodedAuthority.None? {
      return None;
    }
    return Some(scheme + "://" + decodedAuthority.value + "/" + uriPath.value);
  }
}
