// The names mount points are made of, spelled out: which parts stand as they are and how the others are escaped.
module MountNames {
  import opened Basics
  import opened Text
  import opened MountPoints
  import Utf8

  // Which parts of a URI can name a folder as they are.
  predicate StandsAsIs(s: string) {
    s != "" && s != "." && s != ".." && '\\' !in s
    && !("~ts-uri-escape~" <= s) && !("~ts-uri-spec~" <= s) && !("~ts-uri-no-path~" <= s)
  }

  predicate IsDrive(s: string) {
    |s| == 2 && s[1] == ':' && ('a' <= s[0] <= 'z' || 'A' <= s[0] <= 'Z')
  }

  // The bytes of the text in small hexadecimal digits, between the marks.
  predicate IsEscapeOf(name: string, stem: string, ext: string) {
    var bytes := Utf8.Encode(stem);
    |name| == 15 + 2 * |bytes| + 1 + |ext| && name[..15] == "~ts-uri-escape~"
    && (forall i :: 0 <= i < |bytes| ==>
          name[15 + 2 * i] == SmallDigit(bytes[i] as int / 16) && name[16 + 2 * i] == SmallDigit(bytes[i] as int % 16))
    && name[15 + 2 * |bytes|] == '~' && name[16 + 2 * |bytes|..] == ext
  }

  function SmallDigit(n: int): char
    requires 0 <= n < 16
  {
    "0123456789abcdef"[n]
  }

  lemma {:induction false} HexDigits(bytes: seq<byte>, i: nat)
    requires i < |bytes|
    ensures Utf8.Hex(bytes)[2 * i] == SmallDigit(bytes[i] as int / 16)
    ensures Utf8.Hex(bytes)[2 * i + 1] == SmallDigit(bytes[i] as int % 16)
    decreases i
  {
    if i > 0 {
      HexDigits(bytes[1..], i - 1);
    } else {
      DigitsAre(bytes[0] as int / 16);
      DigitsAre(bytes[0] as int % 16);
    }
  }

  lemma DigitsAre(n: int)
    requires 0 <= n < 16
    ensures Utf8.HexDigit(n) == SmallDigit(n)
  {
  }

  // Digits are read in either case.
  lemma DigitsRead(n: int)
    requires 0 <= n < 16
    ensures Utf8.IsHexDigit("0123456789abcdef"[n]) && Utf8.HexValue("0123456789abcdef"[n]) == n
    ensures Utf8.IsHexDigit("0123456789ABCDEF"[n]) && Utf8.HexValue("0123456789ABCDEF"[n]) == n
  {
  }

  // A pair of them for each byte.
  lemma {:induction false} PairsRead(hex: string, i: nat)
    requires Utf8.IsHex(hex) && 2 * i + 1 < |hex|
    ensures |Utf8.ParseHex(hex)| == |hex| / 2
    ensures Utf8.ParseHex(hex)[i] as int == Utf8.HexValue(hex[2 * i]) * 16 + Utf8.HexValue(hex[2 * i + 1])
    decreases i
  {
    HexLength(hex);
    if i > 0 {
      PairsRead(hex[2..], i - 1);
    }
  }

  lemma {:induction false} HexLength(hex: string)
    requires Utf8.IsHex(hex)
    ensures |Utf8.ParseHex(hex)| == |hex| / 2
    decreases |hex|
  {
    if hex != "" {
      HexLength(hex[2..]);
    }
  }

  lemma EscapedNamed(segment: string, ext: string)
    requires |ext| <= |segment|
    ensures IsEscapeOf(ForceEncodeWith(segment, ext), segment[..|segment| - |ext|], ext)
  {
    var bytes := Utf8.Encode(segment[..|segment| - |ext|]);
    var name := ForceEncodeWith(segment, ext);
    EscapedBytes(name, Utf8.Hex(bytes), ext);
    forall i | 0 <= i < |bytes|
      ensures name[15 + 2 * i] == SmallDigit(bytes[i] as int / 16) && name[16 + 2 * i] == SmallDigit(bytes[i] as int % 16)
    {
      HexDigits(bytes, i);
    }
  }

  lemma EscapedBytes(name: string, hex: string, ext: string)
    requires name == Escaped(hex, ext)
    ensures |name| == 15 + |hex| + 1 + |ext| && name[..15] == "~ts-uri-escape~"
    ensures forall i :: 0 <= i < |hex| ==> name[15 + i] == hex[i]
    ensures name[15 + |hex|] == '~' && name[16 + |hex|..] == ext
  {
    assert |ESCAPE| == 15;
  }

  lemma {:induction false} BytesAtLeast(s: string)
    ensures |s| <= |Utf8.Encode(s)|
  {
    if s != "" {
      BytesAtLeast(s[1..]);
    }
  }

  // What escaping a part amounts to: its extension stays, if it is to.
  lemma ForceEncodeNamed(segment: string, preserve: bool)
    ensures var ext := PreservedExtension(segment, preserve);
      IsEscapeOf(ForceEncode(segment, preserve), segment[..|segment| - |ext|], ext)
  {
    EscapedNamed(segment, PreservedExtension(segment, preserve));
  }

  lemma EscapedIsLonger(segment: string)
    ensures |segment| < |ForceEncode(segment, false)|
  {
    BytesAtLeast(segment);
    assert segment[..|segment| - 0] == segment;
  }

  // A segment stands as it is or is escaped whole.
  lemma SegmentNamed(segment: string)
    ensures EncodeSegment(segment) == segment <==> StandsAsIs(segment)
    ensures !StandsAsIs(segment) ==> EncodeSegment(segment) == ForceEncode(segment, false)
  {
    EscapedIsLonger(segment);
  }

  // So does a folder's entry; a file's keeps its extension.
  lemma EntryNamed(segment: string, isFile: bool)
    ensures StandsAsIs(segment) ==> UriSegmentToWasmName(segment, isFile) == segment
    ensures !StandsAsIs(segment) ==> UriSegmentToWasmName(segment, isFile) == ForceEncode(segment, isFile)
  {
  }

  // An authority too, but one that is a drive or the word for none is escaped whole.
  lemma AuthorityNamed(raw: string)
    ensures AuthorityName(None) == "ts-nul-authority"
    ensures raw == "ts-nul-authority" || IsDrive(raw) ==> AuthorityName(Some(raw)) == ForceEncode(raw, false)
    ensures StandsAsIs(raw) && raw != "ts-nul-authority" && !IsDrive(raw) ==> AuthorityName(Some(raw)) == raw
    ensures !StandsAsIs(raw) && !IsDrive(raw) ==> AuthorityName(Some(raw)) == ForceEncode(raw, true)
  {
    StandsExact(raw);
    NulStands();
    AuthorityChosen(raw);
  }

  lemma StandsExact(s: string)
    ensures NeedsEncoding(s) <==> !StandsAsIs(s)
    ensures IsDriveRoot(s) <==> IsDrive(s)
  {
  }

  lemma AuthorityChosen(raw: string)
    ensures raw == NUL_AUTHORITY || IsDriveRoot(raw) ==> AuthorityName(Some(raw)) == ForceEncode(raw, false)
    ensures raw != NUL_AUTHORITY && !IsDriveRoot(raw) ==>
      AuthorityName(Some(raw)) == if NeedsEncoding(raw) then ForceEncode(raw, true) else raw
  {
  }

  lemma NulStands()
    ensures StandsAsIs("ts-nul-authority")
  {
    assert "ts-nul-authority"[0] == 't';
  }

  // ---------------------------------------------------------------- extensions

  // What is kept is the extension of the part behind the last backslash.
  lemma ExtensionIsKept(folder: string, base: string)
    requires '\\' !in base
    ensures PreservedExtension(folder + "\\" + base, true) == Extension(base)
    ensures base != "." && base != ".." ==> PreservedExtension(base, true) == Extension(base)
    ensures PreservedExtension(base, false) == "" && PreservedExtension(".", true) == "" && PreservedExtension("..", true) == ""
  {
    var name := folder + "\\" + base;
    LastBackslash(name, folder, base);
    assert name[|folder| + 1..] == base;
    assert LastIndexOf(base, '\\') == -1;
    assert base[0..] == base;
    assert name[|folder|] == '\\' && name != "." && name != "..";
  }

  lemma LastBackslash(name: string, folder: string, base: string)
    requires '\\' !in base && name == folder + "\\" + base
    ensures LastIndexOf(name, '\\') == |folder|
  {
    assert name[|folder|] == '\\';
    assert forall j :: |folder| < j < |name| ==> name[j] == base[j - |folder| - 1] && base[j - |folder| - 1] in base;
  }

  // An ending that starts with a dot ends the text exactly if its last part and what is before
  // that do.
  lemma EndingParts(name: string, stem: string, tail: string, suffix: string, front: string, word: string)
    requires name == stem + ("." + tail) && '.' !in tail
    requires suffix == front + ("." + word) && '.' !in word
    ensures EndsWith(name, suffix) <==> tail == word && EndsWith(stem, front)
  {
    if EndsWith(name, suffix) {
      DotsMeet(name, stem, tail, suffix, front, word);
    }
    if tail == word && EndsWith(stem, front) {
      assert stem == stem[..|stem| - |front|] + front;
      assert name == stem[..|stem| - |front|] + suffix;
    }
  }

  lemma DotsMeet(name: string, stem: string, tail: string, suffix: string, front: string, word: string)
    requires name == stem + ("." + tail) && '.' !in tail
    requires suffix == front + ("." + word) && '.' !in word && EndsWith(name, suffix)
    ensures tail == word && EndsWith(stem, front)
  {
    LastDot(name, stem, tail);
    LastDot(suffix, front, word);
    SameLastDot(name, suffix);
    var at := |name| - |suffix|;
    assert name[at..][|front|..] == name[|stem|..];
    SameFront(".", tail, word);
    assert name == name[..at] + suffix;
    assert stem == name[..|stem|] == name[..at] + front;
  }

  lemma SameLastDot(name: string, suffix: string)
    requires EndsWith(name, suffix) && LastIndexOf(suffix, '.') != -1
    ensures LastIndexOf(name, '.') == |name| - |suffix| + LastIndexOf(suffix, '.')
  {
    assert forall j :: 0 <= j < |suffix| ==> name[|name| - |suffix| + j] == suffix[j];
  }

  lemma LastDot(name: string, stem: string, tail: string)
    requires '.' !in tail && name == stem + ("." + tail)
    ensures LastIndexOf(name, '.') == |stem| && name[|stem|] == '.' && name[|stem|..] == "." + tail
  {
    assert name[|stem|] == '.' && name[|stem|..] == "." + tail;
    assert forall j :: |stem| < j < |name| ==> name[j] == tail[j - |stem| - 1] && tail[j - |stem| - 1] in tail;
  }

  predicate IsTypeScriptWord(word: string) {
    word == "ts" || word == "cts" || word == "mts"
  }

  lemma EndingsNamed(name: string, stem: string, tail: string)
    requires name == stem + ("." + tail) && '.' !in tail
    ensures EndsWith(name, ".d.ts") <==> tail == "ts" && EndsWith(stem, ".d")
    ensures EndsWith(name, ".d.cts") <==> tail == "cts" && EndsWith(stem, ".d")
    ensures EndsWith(name, ".d.mts") <==> tail == "mts" && EndsWith(stem, ".d")
    ensures EndsWith(name, ".ts") <==> tail == "ts"
  {
    assert ".d" + ("." + "ts") == ".d.ts" && ".d" + ("." + "cts") == ".d.cts" && ".d" + ("." + "mts") == ".d.mts";
    assert "" + ("." + "ts") == ".ts" && EndsWith(stem, "");
    EndingParts(name, stem, tail, ".d.ts", ".d", "ts");
    EndingParts(name, stem, tail, ".d.cts", ".d", "cts");
    EndingParts(name, stem, tail, ".d.mts", ".d", "mts");
    EndingParts(name, stem, tail, ".ts", "", "ts");
  }

  // One of a TypeScript file that ends in ".d" before its last dot keeps both parts.
  lemma DeclarationExtension(name: string, stem: string, tail: string)
    requires name == stem + ("." + tail) && IsTypeScriptWord(tail) && EndsWith(stem, ".d")
    ensures Extension(name) == ".d." + tail
  {
    EndingsNamed(name, stem, tail);
    DeclarationEnds(name);
    assert ".d." + "ts" == ".d.ts" && ".d." + "cts" == ".d.cts" && ".d." + "mts" == ".d.mts";
  }

  // Any other ".ts" file with ".d." in its name keeps all from there.
  lemma InnerDeclarationExtension(name: string, stem: string)
    requires name == stem + ("." + "ts") && !EndsWith(stem, ".d") && IndexOfText(name, ".d.", 0) != -1
    ensures Extension(name) == name[IndexOfText(name, ".d.", 0)..]
  {
    EndingsNamed(name, stem, "ts");
  }

  // Otherwise it is what starts at the last dot, or nothing.
  lemma PlainExtension(name: string, stem: string, tail: string)
    requires name == stem + ("." + tail) && '.' !in tail
    requires !(IsTypeScriptWord(tail) && EndsWith(stem, ".d")) && (tail != "ts" || IndexOfText(name, ".d.", 0) == -1)
    ensures Extension(name) == "." + tail
  {
    EndingsNamed(name, stem, tail);
    PlainEnds(name);
    LastDot(name, stem, tail);
  }

  lemma DeclarationEnds(name: string)
    ensures EndsWith(name, ".d.ts") ==> Extension(name) == ".d.ts"
    ensures EndsWith(name, ".d.cts") && !EndsWith(name, ".d.ts") ==> Extension(name) == ".d.cts"
    ensures EndsWith(name, ".d.mts") && !EndsWith(name, ".d.ts") && !EndsWith(name, ".d.cts") ==> Extension(name) == ".d.mts"
  {
  }

  lemma PlainEnds(name: string)
    requires !EndsWith(name, ".d.ts") && !EndsWith(name, ".d.cts") && !EndsWith(name, ".d.mts")
    requires !EndsWith(name, ".ts") || IndexOfText(name, ".d.", 0) == -1
    ensures Extension(name) == if LastIndexOf(name, '.') == -1 then "" else name[LastIndexOf(name, '.')..]
  {
  }

  lemma NoDotNoExtension(tail: string)
    requires '.' !in tail
    ensures Extension(tail) == ""
  {
    DotInEnding(tail, ".d.ts");
    DotInEnding(tail, ".d.cts");
    DotInEnding(tail, ".d.mts");
    DotInEnding(tail, ".ts");
    assert LastIndexOf(tail, '.') == -1;
    PlainEnds(tail);
  }

  lemma DotInEnding(name: string, suffix: string)
    requires suffix != "" && suffix[0] == '.'
    ensures EndsWith(name, suffix) ==> '.' in name
  {
    if EndsWith(name, suffix) {
      assert name[|name| - |suffix|..][0] == name[|name| - |suffix|];
    }
  }

  // ---------------------------------------------------------------- the parts of a URI

  // No mark of a query or fragment.
  predicate IsPlainPart(s: string) {
    '?' !in s && '#' !in s
  }

  // The text from a URI's query or fragment on, or nothing.
  predicate IsSuffix(s: string) {
    s == "" || s[0] == '?' || s[0] == '#'
  }

  lemma UriTakenApart(text: string, scheme: string, all: string, suffix: string)
    requires ':' !in scheme && IsPlainPart(all) && IsSuffix(suffix) && text == scheme + (":" + (all + suffix))
    ensures ':' in text && ParseUri(text) == SplitAuthority(scheme, all)
  {
    assert text[|scheme|] == ':';
    assert forall j :: 0 <= j < |scheme| ==> text[j] == scheme[j] && scheme[j] in scheme;
    IndexOfIs(text, ':', 0, |scheme|);
    assert text[..|scheme|] == scheme && text[|scheme| + 1..] == all + suffix;
    SuffixBehind(all, suffix);
    assert (all + suffix)[..|all|] == all;
  }

  // Two slashes are followed by the authority, up to the next slash or the end; the path is what
  // is behind that slash.
  lemma AuthorityTakenApart(scheme: string, host: string, path: string)
    requires '/' !in host
    ensures SplitAuthority(scheme, "//" + host + "/" + path) == Uri(scheme, Some(host), path)
    ensures SplitAuthority(scheme, "//" + host) == Uri(scheme, Some(host), "")
    ensures !("//" <= path) ==> SplitAuthority(scheme, path) == Uri(scheme, None, path)
  {
    var all, bare := "//" + host + "/" + path, "//" + host;
    PartEnds("//", host, path);
    assert all[2..2 + |host|] == host && all[2 + |host| + 1..] == path && bare[2..] == host;
    assert forall j :: 2 <= j < |bare| ==> bare[j] == host[j - 2] && host[j - 2] in host;
    assert IndexOf(bare, '/', 2) == -1;
  }

  // The text of a folder's URI and the parts of its mount point: with an authority, and without.
  lemma FolderTextMounted(text: string, scheme: string, host: string, names: seq<string>, suffix: string)
    requires ':' !in scheme && '/' !in host && AreFolders(names) && IsSuffix(suffix)
    requires StandsAsIs(host) && !IsDrive(host) && host != "ts-nul-authority"
    requires IsPlainPart("//" + host + "/" + Join(names, '/')) && text == scheme + (":" + ("//" + host + "/" + Join(names, '/') + suffix))
    ensures ':' in text && MountPoint(text) == "/^/~ts-uri~/" + Join([scheme, host] + names, '/')
  {
    UriTakenApart(text, scheme, "//" + host + "/" + Join(names, '/'), suffix);
    AuthorityTakenApart(scheme, host, Join(names, '/'));
    FolderMountPoint(Uri(scheme, Some(host), Join(names, '/')), names, [scheme, host] + names);
  }

  lemma BareFolderTextMounted(text: string, scheme: string, names: seq<string>, suffix: string)
    requires ':' !in scheme && AreFolders(names) && IsPlainPart(Join(names, '/')) && IsSuffix(suffix)
    requires text == scheme + (":" + (Join(names, '/') + suffix))
    ensures ':' in text && MountPoint(text) == "/^/~ts-uri~/" + Join([scheme, "ts-nul-authority"] + names, '/')
  {
    UriTakenApart(text, scheme, Join(names, '/'), suffix);
    FirstNameFirst(names);
    AuthorityTakenApart(scheme, "", Join(names, '/'));
    FolderMountPoint(Uri(scheme, None, Join(names, '/')), names, [scheme, "ts-nul-authority"] + names);
  }

  lemma FirstNameFirst(names: seq<string>)
    requires AreFolders(names)
    ensures !("//" <= Join(names, '/'))
  {
    assert StandsAsIs(names[0]) && names[0][0] in names[0];
    assert Join(names, '/')[0] == names[0][0] && "//"[0] == '/';
  }

  // ---------------------------------------------------------------- mount points

  // Names without a slash that can all stand as they are; the first is no drive.
  predicate AreFolders(names: seq<string>) {
    names != [] && (forall i :: 0 <= i < |names| ==> StandsAsIs(names[i]) && '/' !in names[i]) && !IsDrive(names[0])
  }

  lemma {:induction false} FoldersStand(names: seq<string>, first: bool)
    requires forall i :: 0 <= i < |names| ==> StandsAsIs(names[i])
    requires first && names != [] ==> !IsDrive(names[0])
    ensures SegmentNames(names, first) == names
    decreases names
  {
    if names != [] {
      SegmentNamed(names[0]);
      FoldersStand(names[1..], false);
      assert [names[0]] + names[1..] == names;
    }
  }

  // A workspace folder whose names all stand as they are is mounted below its scheme and its
  // authority, or the word for none, under those names.
  lemma FolderMountPoint(uri: Uri, names: seq<string>, parts: seq<string>)
    requires AreFolders(names) && uri.path == Join(names, '/')
    requires uri.authority.Some? ==> StandsAsIs(uri.authority.value) && !IsDrive(uri.authority.value) && uri.authority.value != "ts-nul-authority"
    requires parts == [uri.scheme, if uri.authority.Some? then uri.authority.value else "ts-nul-authority"] + names
    ensures MountPointOf(uri) == "/^/~ts-uri~/" + Join(parts, '/')
  {
    FoldersSplit(names);
    FoldersStand(names, true);
    AuthorityNamed(if uri.authority.Some? then uri.authority.value else "");
    assert MountParts(uri) == parts;
    PrefixNamed();
  }

  lemma PrefixNamed()
    ensures "/" + DYNAMIC_PREFIX == "/^/~ts-uri~/"
  {
  }

  lemma FoldersSplit(names: seq<string>)
    requires AreFolders(names)
    ensures Segments(Join(names, '/')) == names
  {
    assert forall name :: name in names ==> exists i :: 0 <= i < |names| && names[i] == name;
    JoinEnd(names);
    SplitJoin(names, '/');
  }

  // A slash at the end changes nothing; a path that is a slash alone is one empty segment.
  lemma SlashAtEnd(names: seq<string>)
    requires AreFolders(names)
    ensures Segments(Join(names, '/') + "/") == names && Segments("/") == [""] && Segments("") == []
  {
    FoldersSplit(names);
    JoinEnd(names);
    assert TrimSlash(Join(names, '/') + "/") == Join(names, '/') == TrimSlash(Join(names, '/'));
    assert TrimSlash("/") == "";
    SplitWhole("", '/');
  }

  lemma {:induction false} JoinEnd(names: seq<string>)
    requires names != [] && forall i :: 0 <= i < |names| ==> names[i] != "" && '/' !in names[i]
    ensures Join(names, '/') != "" && Join(names, '/')[|Join(names, '/')| - 1] != '/'
    decreases names
  {
    if |names| > 1 {
      JoinEnd(names[1..]);
    } else {
      assert names[0][|names[0]| - 1] in names[0];
    }
  }

  // A drive is escaped where it comes first, and nowhere else.
  lemma {:induction false} DriveIsEscapedFirst(names: seq<string>, i: nat)
    requires i < |names| && IsDrive(names[i])
    ensures SegmentNames(names, true)[i] == if i == 0 then ForceEncode(names[0], false) else names[i]
  {
    DriveNamed(names[i]);
    if i > 0 {
      NamesAreEncoded(names[1..], i - 1);
    }
  }

  lemma DriveNamed(drive: string)
    requires IsDrive(drive)
    ensures SegmentName(drive, true) == ForceEncode(drive, false) && EncodeSegment(drive) == drive
  {
    DriveStands(drive);
  }

  lemma DriveStands(drive: string)
    requires IsDrive(drive)
    ensures EncodeSegment(drive) == drive && IsDriveRoot(drive)
  {
    assert '\\' !in drive;
    SegmentNamed(drive);
  }

  // ---------------------------------------------------------------- reading names

  // What a name decodes to: itself if it stands as it is, or its bytes between the marks with
  // its extension, and never a NUL; any other name is refused.
  lemma DecodeExact(name: string, keepMark: bool, text: string)
    ensures DecodeSegment(name, keepMark) == Some(text) <==>
      (StandsAsIs(name) && text == name)
      || exists hex: string, ext: string, stem: string :: IsReading(name, keepMark, text, hex, ext, stem)
  {
    if ESCAPE <= name {
      var encoded := name[|ESCAPE|..];
      var end := IndexOf(encoded, '~', 0);
      if end != -1 {
        Between(name, encoded, end);
      }
      forall hex: string, ext: string, stem: string | IsReading(name, keepMark, text, hex, ext, stem)
        ensures DecodeSegment(name, keepMark) == Some(text)
      {
        EscapedParts(hex, ext);
        assert name == Escaped(hex, ext);
      }
      if DecodeSegment(name, keepMark) == Some(text) {
        var hex := encoded[..end];
        var stem := Utf8.Decode(Utf8.ParseHex(hex), keepMark).value;
        assert IsReading(name, keepMark, text, hex, encoded[end + 1..], stem);
      }
    }
  }

  lemma Between(name: string, encoded: string, end: nat)
    requires ESCAPE <= name && encoded == name[|ESCAPE|..] && end < |encoded| && end == IndexOf(encoded, '~', 0)
    ensures name == "~ts-uri-escape~" + encoded[..end] + "~" + encoded[end + 1..] && '~' !in encoded[..end]
  {
    GlueReading(ESCAPE, encoded, encoded[..end], encoded[end + 1..]);
  }

  lemma GlueReading(front: string, encoded: string, hex: string, ext: string)
    requires |hex| + 1 + |ext| == |encoded| && encoded[..|hex|] == hex && encoded[|hex|] == '~' && encoded[|hex| + 1..] == ext
    ensures front + hex + "~" + ext == front + encoded
  {
  }

  predicate IsReading(name: string, keepMark: bool, text: string, hex: string, ext: string, stem: string) {
    name == "~ts-uri-escape~" + hex + "~" + ext && '~' !in hex && |hex| % 2 == 0
    && (forall c :: c in hex ==> '0' <= c <= '9' || 'a' <= c <= 'f' || 'A' <= c <= 'F')
    && Utf8.IsHex(hex) && Utf8.Decode(Utf8.ParseHex(hex), keepMark) == Some(stem) && '\0' !in stem && text == stem + ext
  }

  // Which paths are read: the prefix, a scheme and an authority, and readable names.
  lemma MountPathRead(scheme: string, authority: string, names: seq<string>, path: string)
    requires '/' !in scheme && '/' !in authority && forall name :: name in names ==> '/' !in name
    requires path == "/^/~ts-uri~/" + Join([scheme, authority] + names, '/')
    ensures UriText(path, false) ==
      if scheme == "" then None
      else match DecodeSegments(names, false)
        case None => None
        case Some(segments) =>
          if authority == "ts-nul-authority" then Some(Rebuild(scheme, None, segments))
          else match DecodeSegment(authority, false)
            case None => None
            case Some(host) => Some(Rebuild(scheme, Some(host), segments))
  {
    var parts := [scheme, authority] + names;
    assert parts[2..] == names;
    PrefixNamed();
    if scheme != "" {
      PrefixedPartsRead(parts, false);
    } else {
      AfterPrefix("/^/~ts-uri~/", Join(parts, '/'));
      SplitJoin(parts, '/');
    }
  }

  lemma OtherPathsAreRefused(path: string, rest: string)
    ensures !("/^/~ts-uri~/" <= path) ==> UriText(path, false) == None
    ensures '/' !in rest ==> UriText("/^/~ts-uri~/" + rest, false) == None
  {
    var prefix := "/" + DYNAMIC_PREFIX;
    PrefixNamed();
    AfterPrefix(prefix, rest);
  }
}
