/** The pure string functions of the file service: reading the media type out of a `data:`
    URL (section 2 of RFC 2397), deriving the storage key, and decoding the base64 body. */
module Payload {
  import opened Entities
  import opened Text
  import opened Base64

  const DATA_SCHEME: string := "data:"
  const BASE64_MARKER: string := ";base64,"

  /** The folder every upload is stored under. */
  const FOLDER: string := "file-manager"

  /** `[a-zA-Z0-9]` */
  predicate IsAlnum(c: char) {
    'a' <= c <= 'z' || 'A' <= c <= 'Z' || '0' <= c <= '9'
  }

  /** `\w` */
  predicate IsWordChar(c: char) {
    IsAlnum(c) || c == '_'
  }

  /** `[a-zA-Z0-9-.+]` */
  predicate IsSubtypeChar(c: char) {
    IsAlnum(c) || c == '-' || c == '.' || c == '+'
  }

  /** The characters `.` does not match in a JavaScript regular expression. */
  predicate IsLineTerminator(c: char) {
    c == '\n' || c == '\r' || c == '\U{2028}' || c == '\U{2029}'
  }

  // ---------------------------------------------------------------- folder and key

  predicate EndsWithSlash(folder: string) {
    |folder| > 0 && folder[|folder| - 1] == '/'
  }

  /** Removes one trailing `/`, and only one; any other folder is returned as it is. */
  function SanitizeFolder(folder: string): (r: string)
    ensures folder == r || folder == r + "/"
    ensures r == folder <==> !EndsWithSlash(folder)
  {
    if EndsWithSlash(folder) then folder[..|folder| - 1] else folder
  }

  lemma SanitizeFolderStripsOneSlash(folder: string)
    ensures SanitizeFolder(folder + "/") == folder
  {
    var r := SanitizeFolder(folder + "/");
    assert EndsWithSlash(folder + "/");
    assert r == (folder + "/")[..|folder|];
  }

  /** The storage key `folder/token.extension` for the sanitized folder. `token` stands for
      the uuid the source derives from the file name under a fresh random namespace. */
  function GenerateFilePath(folder: string, token: string, extension: string): (path: string)
    ensures var dir := SanitizeFolder(folder);
      && |path| == |dir| + |token| + |extension| + 2
      && path[..|dir| + 1] == dir + "/"
      && path[|dir| + 1..|dir| + 1 + |token|] == token
      && path[|dir| + 1 + |token|..] == "." + extension
  {
    SanitizeFolder(folder) + "/" + token + "." + extension
  }

  /** Keys for the same folder and extension are equal only when their tokens are. */
  lemma GeneratedKeysDistinct(folder: string, extension: string, t1: string, t2: string)
    requires GenerateFilePath(folder, t1, extension) == GenerateFilePath(folder, t2, extension)
    ensures t1 == t2
  {
    var path := GenerateFilePath(folder, t1, extension);
    var n := |SanitizeFolder(folder)| + 1;
    assert |t1| == |t2|;
    assert t1 == path[n..n + |t1|] == t2;
  }

  /** With the service's fixed folder every key is `file-manager/<token>.<extension>`. */
  lemma UploadKeyShape(token: string, extension: string)
    ensures var path := GenerateFilePath(FOLDER, token, extension);
      && path[..|FOLDER| + 1] == "file-manager/"
      && path[|path| - |extension| - 1..] == "." + extension
  {
    assert !EndsWithSlash(FOLDER);
  }

  // ---------------------------------------------------------------- media type

  /** `m` is `t/u` with a non-empty alphanumeric type and a non-empty subtype of `[a-zA-Z0-9-.+]`. */
  predicate MimetypeParts(m: string, t: string, u: string) {
    && m == t + "/" + u
    && |t| > 0 && |u| > 0
    && (forall k :: 0 <= k < |t| ==> IsAlnum(t[k]))
    && (forall k :: 0 <= k < |u| ==> IsSubtypeChar(u[k]))
  }

  /** Such a media type has exactly one `/`: splitting at it gives the type and the subtype. */
  lemma MimetypeSplit(m: string, t: string, u: string)
    requires MimetypeParts(m, t, u)
    ensures Split(m, '/') == [t, u]
  {
    assert forall k :: 0 <= k < |t| ==> t[k] != '/';
    assert forall k :: 0 <= k < |u| ==> u[k] != '/';
    SplitAtOnlySeparator(t, u, '/');
  }

  /** What `.*,` can match from `i`: a `,` later on with no line terminator before it. */
  function CommaAhead(s: string, i: nat): (b: bool)
    requires i <= |s|
    ensures b <==> exists k :: i <= k < |s| && s[k] == ',' && forall j :: i <= j < k ==> !IsLineTerminator(s[j])
    decreases |s| - i
  {
    if i == |s| then false
    else if s[i] == ',' then true
    else if IsLineTerminator(s[i]) then false
    else CommaAhead(s, i + 1)
  }

  /** The first group of `data:([a-zA-Z0-9]+\/[a-zA-Z0-9-.+]+).*,.*` when a match starts at
      `p`. Both classes are greedy, and neither contains the character that follows it in the
      pattern, so backtracking cannot produce a different match. */
  function MimetypeAt(s: string, p: nat): (r: Option<string>)
    requires p <= |s|
    ensures r.Some? ==> exists t, u :: MimetypeParts(r.value, t, u)
  {
    if !(DATA_SCHEME <= s[p..]) then None
    else
      var typeEnd := RunEnd(s, p + 5, IsAlnum);
      if typeEnd == p + 5 || typeEnd == |s| || s[typeEnd] != '/' then None
      else
        var subEnd := RunEnd(s, typeEnd + 1, IsSubtypeChar);
        if subEnd == typeEnd + 1 || !CommaAhead(s, subEnd) then None
        else
          var m := s[p + 5..subEnd];
          assert m == s[p + 5..typeEnd] + "/" + s[typeEnd + 1..subEnd];
          assert MimetypeParts(m, s[p + 5..typeEnd], s[typeEnd + 1..subEnd]);
          Some(m)
  }

  /** A media type found at `p` is the text right after `data:` there, it stops at the first
      character outside the subtype class, and a `,` follows on the same line. */
  lemma MimetypeAtLocates(s: string, p: nat)
    requires p <= |s|
    ensures MimetypeAt(s, p).Some? ==>
      var m := MimetypeAt(s, p).value;
      && DATA_SCHEME <= s[p..] && p + 5 + |m| < |s|
      && s[p + 5..p + 5 + |m|] == m
      && !IsSubtypeChar(s[p + 5 + |m|])
      && CommaAhead(s, p + 5 + |m|)
  {
  }

  /** The converse: wherever the text after `data:` is an alphanumeric type, a `/` and a
      subtype, with a `,` ahead on the same line, the pattern matches there. The subtype `u`
      need not be the whole run, as backtracking would allow. */
  lemma MimetypeAtMatches(s: string, p: nat, t: string, u: string)
    requires p + 6 + |t| + |u| <= |s| && s[p..p + 5] == DATA_SCHEME
    requires s[p + 5..p + 5 + |t|] == t && s[p + 5 + |t|] == '/'
    requires s[p + 6 + |t|..p + 6 + |t| + |u|] == u
    requires |t| > 0 && forall k :: 0 <= k < |t| ==> IsAlnum(t[k])
    requires |u| > 0 && forall k :: 0 <= k < |u| ==> IsSubtypeChar(u[k])
    requires CommaAhead(s, p + 6 + |t| + |u|)
    ensures MimetypeAt(s, p).Some?
  {
    var typeEnd := p + 5 + |t|;
    assert RunEnd(s, p + 5, IsAlnum) == typeEnd by {
      RunOver(s, p + 5, IsAlnum, t);
    }
    assert typeEnd + 1 + |u| <= RunEnd(s, typeEnd + 1, IsSubtypeChar) by {
      RunCoversSlice(s, typeEnd + 1, IsSubtypeChar, u);
    }
    MimetypeAtSpans(s, p, typeEnd, typeEnd + 1 + |u|);
  }

  /** The pattern matches at `p` when the type run is followed by `/`, the subtype run reaches
      at least to `j`, and a `,` is ahead of `j` on the same line. */
  lemma MimetypeAtSpans(s: string, p: nat, typeEnd: nat, j: nat)
    requires p + 5 <= |s| && s[p..p + 5] == DATA_SCHEME
    requires typeEnd == RunEnd(s, p + 5, IsAlnum) && p + 5 < typeEnd < |s| && s[typeEnd] == '/'
    requires typeEnd + 1 < j <= RunEnd(s, typeEnd + 1, IsSubtypeChar) && CommaAhead(s, j)
    ensures MimetypeAt(s, p).Some?
  {
    assert DATA_SCHEME <= s[p..];
    CommaAheadAtRunEnd(s, typeEnd + 1, j);
    MimetypeAtFrom(s, p, typeEnd, RunEnd(s, typeEnd + 1, IsSubtypeChar));
  }

  /** A `,` ahead of a point inside a subtype run is still ahead where the run ends, since
      neither `,` nor a line terminator is a subtype character. */
  lemma CommaAheadAtRunEnd(s: string, i: nat, j: nat)
    requires i <= |s| && i <= j <= RunEnd(s, i, IsSubtypeChar) && CommaAhead(s, j)
    ensures CommaAhead(s, RunEnd(s, i, IsSubtypeChar))
  {
    var e := RunEnd(s, i, IsSubtypeChar);
    var c :| j <= c < |s| && s[c] == ',' && forall k :: j <= k < c ==> !IsLineTerminator(s[k]);
    assert e <= c;
  }

  /** The match at `p`, from where its two greedy runs end. */
  lemma MimetypeAtFrom(s: string, p: nat, typeEnd: nat, subEnd: nat)
    requires p <= |s| && DATA_SCHEME <= s[p..]
    requires typeEnd == RunEnd(s, p + 5, IsAlnum) && p + 5 < typeEnd < |s| && s[typeEnd] == '/'
    requires subEnd == RunEnd(s, typeEnd + 1, IsSubtypeChar) && typeEnd + 1 < subEnd
    requires CommaAhead(s, subEnd)
    ensures MimetypeAt(s, p) == Some(s[p + 5..subEnd])
  {
  }

  /** Where `exec` finds its match: it tries the start positions from `p` on, in order,
      and stops at the first one that matches. */
  function FirstMatchFrom(s: string, p: nat): (q: Option<nat>)
    requires p <= |s|
    ensures q.None? <==> forall i :: p <= i <= |s| ==> MimetypeAt(s, i).None?
    ensures q.Some? ==> p <= q.value <= |s| && MimetypeAt(s, q.value).Some?
    ensures q.Some? ==> forall i :: p <= i < q.value ==> MimetypeAt(s, i).None?
    decreases |s| - p
  {
    if MimetypeAt(s, p).Some? then Some(p)
    else if p == |s| then None
    else
      var q := FirstMatchFrom(s, p + 1);
      assert forall i :: p <= i <= |s| && MimetypeAt(s, i).Some? ==> p + 1 <= i;
      q
  }

  /** The media type named by the payload: the group of the first match. `None` where `exec`
      returns null, so that indexing its result throws. */
  function MimetypeFromBase64(content: string): (r: Option<string>)
    ensures r.None? <==> forall i :: 0 <= i <= |content| ==> MimetypeAt(content, i).None?
    ensures r.Some? ==> exists t, u :: MimetypeParts(r.value, t, u)
  {
    match FirstMatchFrom(content, 0)
    case None => None
    case Some(q) => MimetypeAt(content, q)
  }

  /** The file extension: the second part of the media type split at `/`, i.e. its subtype. */
  function FileExtension(content: string): (r: Option<string>)
    ensures r.Some? <==> MimetypeFromBase64(content).Some?
    ensures r.Some? ==> exists t :: MimetypeParts(MimetypeFromBase64(content).value, t, r.value)
  {
    match MimetypeFromBase64(content)
    case None => None
    case Some(m) =>
      var parts := Split(m, '/');
      assert |parts| == 2 && MimetypeParts(m, parts[0], parts[1]) by {
        var t, u :| MimetypeParts(m, t, u);
        MimetypeSplit(m, t, u);
      }
      Some(parts[1])
  }

  /** Where the parts of `data:t/u;base64,body` sit. */
  lemma DataUrlLayout(t: string, u: string, body: string)
    ensures var s := DATA_SCHEME + t + "/" + u + BASE64_MARKER + body;
      && |s| == |t| + |u| + |body| + 14
      && DATA_SCHEME <= s
      && s[5..5 + |t|] == t && s[5 + |t|] == '/'
      && s[6 + |t|..6 + |t| + |u|] == u
      && BASE64_MARKER <= s[6 + |t| + |u|..]
      && s[14 + |t| + |u|..] == body
  {
    var s := DATA_SCHEME + t + "/" + u + BASE64_MARKER + body;
    var a := |t| + |u| + 6;
    assert s[..a] == DATA_SCHEME + t + "/" + u;
    assert s[a..] == BASE64_MARKER + body;
  }

  /** The `;base64,` marker supplies the `,` that `.*,` needs. */
  lemma MarkerHasComma(s: string, i: nat)
    requires i <= |s| && BASE64_MARKER <= s[i..]
    ensures CommaAhead(s, i)
  {
    assert s[i + 7] == s[i..][7] == ',';
    forall j | i <= j < i + 7
      ensures !IsLineTerminator(s[j])
    {
      assert s[j] == s[i..][j - i] == BASE64_MARKER[j - i];
    }
  }

  /** The match at the start of `s`, from where its two greedy runs end. */
  lemma MimetypeAtStart(s: string, typeEnd: nat, subEnd: nat)
    requires DATA_SCHEME <= s
    requires typeEnd == RunEnd(s, 5, IsAlnum) && 5 < typeEnd < |s| && s[typeEnd] == '/'
    requires subEnd == RunEnd(s, typeEnd + 1, IsSubtypeChar) && typeEnd + 1 < subEnd
    requires CommaAhead(s, subEnd)
    ensures MimetypeAt(s, 0) == Some(s[5..subEnd])
  {
    assert s[0..] == s;
  }

  /** A match of the media-type pattern starts at the very beginning of a data URL. */
  lemma DataUrlMatchesAtStart(t: string, u: string, body: string)
    requires |t| > 0 && forall k :: 0 <= k < |t| ==> IsAlnum(t[k])
    requires |u| > 0 && forall k :: 0 <= k < |u| ==> IsSubtypeChar(u[k])
    ensures MimetypeAt(DATA_SCHEME + t + "/" + u + BASE64_MARKER + body, 0) == Some(t + "/" + u)
  {
    var s := DATA_SCHEME + t + "/" + u + BASE64_MARKER + body;
    var typeEnd := 5 + |t|;
    var subEnd := typeEnd + 1 + |u|;
    assert && DATA_SCHEME <= s
           && typeEnd == RunEnd(s, 5, IsAlnum) && typeEnd < |s| && s[typeEnd] == '/'
           && subEnd == RunEnd(s, typeEnd + 1, IsSubtypeChar)
           && CommaAhead(s, subEnd)
           && s[5..subEnd] == t + "/" + u
    by {
      DataUrlLayout(t, u, body);
      assert s[subEnd] == s[subEnd..][0] == ';';
      RunOver(s, 5, IsAlnum, t);
      RunOver(s, typeEnd + 1, IsSubtypeChar, u);
      MarkerHasComma(s, subEnd);
      SliceAround(s, 5, typeEnd, subEnd);
    }
    MimetypeAtStart(s, typeEnd, subEnd);
  }

  /** A data URL `data:t/u;base64,...` names exactly the media type `t/u`, and its
      extension is `u`. */
  lemma DataUrlMimetype(t: string, u: string, body: string)
    requires |t| > 0 && forall k :: 0 <= k < |t| ==> IsAlnum(t[k])
    requires |u| > 0 && forall k :: 0 <= k < |u| ==> IsSubtypeChar(u[k])
    ensures var content := DATA_SCHEME + t + "/" + u + BASE64_MARKER + body;
      && MimetypeFromBase64(content) == Some(t + "/" + u)
      && FileExtension(content) == Some(u)
  {
    var s := DATA_SCHEME + t + "/" + u + BASE64_MARKER + body;
    DataUrlMatchesAtStart(t, u, body);
    assert FirstMatchFrom(s, 0) == Some(0);
    MimetypeSplit(t + "/" + u, t, u);
  }

  lemma PngPrefix()
    ensures DATA_SCHEME + "image" + "/" + "png" + BASE64_MARKER == "data:image/png;base64,"
  {
  }

  lemma PngExtension(body: string)
    ensures FileExtension("data:image/png;base64," + body) == Some("png")
  {
    DataUrlMimetype("image", "png", body);
    PngPrefix();
    var prefix := DATA_SCHEME + "image" + "/" + "png" + BASE64_MARKER;
    assert prefix + body == "data:image/png;base64," + body;
  }

  // ---------------------------------------------------------------- body

  /** `pre` is `data:<t>/<w>;base64,` with an alphanumeric, possibly empty, type `t` and a
      non-empty `\w` subtype `w`, which meet at the `/` at position `slash`: a whole match of
      the prefix pattern below. */
  ghost predicate DataPrefixShape(pre: string) {
    && |pre| >= |DATA_SCHEME| + 2 + |BASE64_MARKER|
    && pre[..|DATA_SCHEME|] == DATA_SCHEME
    && pre[|pre| - |BASE64_MARKER|..] == BASE64_MARKER
    && exists slash ::
      && |DATA_SCHEME| <= slash < |pre| - |BASE64_MARKER| - 1 && pre[slash] == '/'
      && (forall k :: |DATA_SCHEME| <= k < slash ==> IsAlnum(pre[k]))
      && (forall k :: slash < k < |pre| - |BASE64_MARKER| ==> IsWordChar(pre[k]))
  }

  /** Length of the prefix matched by `^data:([a-zA-Z0-9]*)\/\w+;base64,`, if it matches. */
  function DataPrefixLength(content: string): (n: Option<nat>)
    ensures n.Some? ==> n.value <= |content|
  {
    if !(DATA_SCHEME <= content) then None
    else
      var typeEnd := RunEnd(content, 5, IsAlnum);
      if typeEnd == |content| || content[typeEnd] != '/' then None
      else
        var markerStart := RunEnd(content, typeEnd + 1, IsWordChar);
        if markerStart == typeEnd + 1 || !(BASE64_MARKER <= content[markerStart..]) then None
        else Some(markerStart + |BASE64_MARKER|)
  }

  /** The layout `DataPrefixLength` checks position by position makes a whole prefix match. */
  lemma PrefixShapeAt(content: string, typeEnd: nat, markerStart: nat)
    requires 5 <= typeEnd < markerStart - 1 && markerStart + |BASE64_MARKER| <= |content|
    requires DATA_SCHEME <= content && content[typeEnd] == '/'
    requires BASE64_MARKER <= content[markerStart..]
    requires forall k :: 5 <= k < typeEnd ==> IsAlnum(content[k])
    requires forall k :: typeEnd + 1 <= k < markerStart ==> IsWordChar(content[k])
    ensures DataPrefixShape(content[..markerStart + |BASE64_MARKER|])
  {
    var pre := content[..markerStart + |BASE64_MARKER|];
    assert pre[..5] == content[..5] == DATA_SCHEME;
    assert pre[markerStart..] == content[markerStart..][..|BASE64_MARKER|] == BASE64_MARKER;
    assert pre[typeEnd] == '/';
  }

  /** `content.replace(/^data:([a-zA-Z0-9]*)\/\w+;base64,/, '')`: what is left is a suffix
      of the content, and content that does not start with `data:` is left alone. */
  function StripDataPrefix(content: string): (r: string)
    ensures |r| <= |content| && r == content[|content| - |r|..]
    ensures !(DATA_SCHEME <= content) ==> r == content
  {
    match DataPrefixLength(content)
    case None => content
    case Some(n) => content[n..]
  }

  /** Whatever the replace removes is one whole match of the prefix pattern. */
  lemma StrippedPrefixIsMatch(content: string)
    ensures |StripDataPrefix(content)| < |content| ==>
      DataPrefixShape(content[..|content| - |StripDataPrefix(content)|])
  {
    if DataPrefixLength(content).Some? {
      var typeEnd := RunEnd(content, 5, IsAlnum);
      var markerStart := RunEnd(content, typeEnd + 1, IsWordChar);
      assert |content[markerStart..]| >= |BASE64_MARKER|;
      PrefixShapeAt(content, typeEnd, markerStart);
      assert |content| - |StripDataPrefix(content)| == markerStart + |BASE64_MARKER|;
    }
  }

  /** The prefix pattern matches through `;base64,` when the `\w` run after the `/` is
      non-empty and followed by that marker. */
  lemma PrefixMatchedAt(content: string, typeEnd: nat, markerStart: nat)
    requires DATA_SCHEME <= content
    requires typeEnd == RunEnd(content, 5, IsAlnum) && typeEnd < |content| && content[typeEnd] == '/'
    requires markerStart == RunEnd(content, typeEnd + 1, IsWordChar) && typeEnd + 1 < markerStart
    requires BASE64_MARKER <= content[markerStart..]
    ensures DataPrefixLength(content) == Some(markerStart + |BASE64_MARKER|)
  {
  }

  /** The prefix pattern fails where the `\w` run after the `/` is followed by anything but
      the `;` of `;base64,`. */
  lemma PrefixUnmatchedAt(content: string, typeEnd: nat, markerStart: nat)
    requires DATA_SCHEME <= content
    requires typeEnd == RunEnd(content, 5, IsAlnum) && typeEnd < |content| && content[typeEnd] == '/'
    requires markerStart == RunEnd(content, typeEnd + 1, IsWordChar)
    requires markerStart < |content| && content[markerStart] != ';'
    ensures DataPrefixLength(content).None?
  {
    assert content[markerStart..][0] != BASE64_MARKER[0];
  }

  /** A data URL whose media type is followed by `,` rather than `;base64,` is not base64
      by its own account, and the replace leaves it whole. */
  lemma PlainDataUrlNotStripped(t: string, w: string, body: string)
    requires forall k :: 0 <= k < |t| ==> IsAlnum(t[k])
    requires |w| > 0 && forall k :: 0 <= k < |w| ==> IsWordChar(w[k])
    ensures var content := DATA_SCHEME + t + "/" + w + "," + body;
      StripDataPrefix(content) == content
  {
    var s := DATA_SCHEME + t + "/" + w + "," + body;
    var typeEnd := 5 + |t|;
    var markerStart := typeEnd + 1 + |w|;
    assert && DATA_SCHEME <= s
           && typeEnd == RunEnd(s, 5, IsAlnum) && typeEnd < |s| && s[typeEnd] == '/'
           && markerStart == RunEnd(s, typeEnd + 1, IsWordChar)
           && markerStart < |s| && s[markerStart] == ','
    by {
      assert s[..markerStart] == DATA_SCHEME + t + "/" + w;
      assert s[markerStart..] == "," + body;
      assert s[..markerStart][..5] == DATA_SCHEME;
      assert s[5..typeEnd] == s[..markerStart][5..typeEnd] == t;
      assert s[typeEnd + 1..markerStart] == s[..markerStart][typeEnd + 1..] == w;
      RunOver(s, 5, IsAlnum, t);
      RunOver(s, typeEnd + 1, IsWordChar, w);
    }
    PrefixUnmatchedAt(s, typeEnd, markerStart);
  }

  /** A prefix with an alphanumeric (possibly empty) type and a `\w` subtype is removed. */
  lemma StripWordSubtype(t: string, w: string, body: string)
    requires forall k :: 0 <= k < |t| ==> IsAlnum(t[k])
    requires |w| > 0 && forall k :: 0 <= k < |w| ==> IsWordChar(w[k])
    ensures StripDataPrefix(DATA_SCHEME + t + "/" + w + BASE64_MARKER + body) == body
  {
    var s := DATA_SCHEME + t + "/" + w + BASE64_MARKER + body;
    var typeEnd := 5 + |t|;
    var markerStart := typeEnd + 1 + |w|;
    assert && DATA_SCHEME <= s
           && typeEnd == RunEnd(s, 5, IsAlnum) && typeEnd < |s| && s[typeEnd] == '/'
           && markerStart == RunEnd(s, typeEnd + 1, IsWordChar)
           && BASE64_MARKER <= s[markerStart..]
           && s[markerStart + |BASE64_MARKER|..] == body
    by {
      DataUrlLayout(t, w, body);
      assert s[markerStart] == s[markerStart..][0] == ';';
      RunOver(s, 5, IsAlnum, t);
      RunOver(s, typeEnd + 1, IsWordChar, w);
    }
    PrefixMatchedAt(s, typeEnd, markerStart);
  }

  /** The strip pattern's `\w+` stops at or before the first non-word character of the
      subtype, and what stops it is not the `;` the pattern needs next. */
  lemma SymbolSubtypeKeepsPrefix(t: string, u: string, body: string, k: nat)
    requires forall j :: 0 <= j < |t| ==> IsAlnum(t[j])
    requires forall j :: 0 <= j < |u| ==> IsSubtypeChar(u[j])
    requires k < |u| && !IsWordChar(u[k])
    ensures var content := DATA_SCHEME + t + "/" + u + BASE64_MARKER + body;
      DataPrefixLength(content).None?
  {
    var s := DATA_SCHEME + t + "/" + u + BASE64_MARKER + body;
    var typeEnd := 5 + |t|;
    var stop := RunEnd(s, typeEnd + 1, IsWordChar);
    assert && DATA_SCHEME <= s
           && typeEnd == RunEnd(s, 5, IsAlnum) && typeEnd < |s| && s[typeEnd] == '/'
           && stop < |s| && s[stop] != ';'
    by {
      DataUrlLayout(t, u, body);
      RunOver(s, 5, IsAlnum, t);
      var w := stop - typeEnd - 1;
      assert s[typeEnd + 1 + k] == u[k];
      assert w <= k;
      assert s[stop] == u[w] && IsSubtypeChar(u[w]);
    }
    PrefixUnmatchedAt(s, typeEnd, stop);
  }

  /** A subtype holding `-`, `.` or `+` is accepted by the media-type pattern but stops the
      strip pattern, so such a payload keeps its whole `data:` prefix. */
  lemma SymbolSubtypeNotStripped(t: string, u: string, body: string, k: nat)
    requires |t| > 0 && forall j :: 0 <= j < |t| ==> IsAlnum(t[j])
    requires |u| > 0 && forall j :: 0 <= j < |u| ==> IsSubtypeChar(u[j])
    requires k < |u| && !IsWordChar(u[k])
    ensures var content := DATA_SCHEME + t + "/" + u + BASE64_MARKER + body;
      && StripDataPrefix(content) == content
      && MimetypeFromBase64(content) == Some(t + "/" + u)
  {
    SymbolSubtypeKeepsPrefix(t, u, body, k);
    DataUrlMimetype(t, u, body);
  }

  lemma SvgPrefix()
    ensures DATA_SCHEME + "image" + "/" + "svg+xml" + BASE64_MARKER == "data:image/svg+xml;base64,"
    ensures "image" + "/" + "svg+xml" == "image/svg+xml"
  {
  }

  lemma SvgPrefixNotStripped(body: string)
    ensures var content := "data:image/svg+xml;base64," + body;
      && StripDataPrefix(content) == content
      && MimetypeFromBase64(content) == Some("image/svg+xml")
  {
    var c := DATA_SCHEME + "image" + "/" + "svg+xml" + BASE64_MARKER + body;
    SymbolSubtypeNotStripped("image", "svg+xml", body, 3);
    assert StripDataPrefix(c) == c && MimetypeFromBase64(c) == Some("image" + "/" + "svg+xml");
    SvgPrefix();
    assert c == "data:image/svg+xml;base64," + body;
  }

  /** The bytes of the upload and their count. */
  datatype ReadableFile = ReadableFile(bytes: seq<byte>, bufferSize: nat)

  /** `Buffer.from(text, 'base64')`. Canonical text decodes as RFC 4648 says; `lenient` stands
      for Node's decoding of any other text, which the model leaves abstract. */
  function BufferFromBase64(text: string, lenient: string -> seq<byte>): (b: seq<byte>)
    ensures Decode(text).Some? ==> Encode(b) == text
  {
    match Decode(text)
    case Some(b) => EncodeDecode(text, b); b
    case None => lenient(text)
  }

  /** Strips the `data:` prefix, decodes the rest and counts the bytes. */
  function ConvertBase64FileToReadableStream(content: string, lenient: string -> seq<byte>): (f: ReadableFile)
    ensures f.bufferSize == |f.bytes|
    ensures Decode(StripDataPrefix(content)).Some? ==> Encode(f.bytes) == StripDataPrefix(content)
  {
    var bytes := BufferFromBase64(StripDataPrefix(content), lenient);
    ReadableFile(bytes, |bytes|)
  }

  /** A payload with a strippable prefix and a canonical base64 body decodes to exactly the
      bytes that were encoded, and its size is their count. */
  lemma DataUrlDecodes(t: string, w: string, b: seq<byte>, lenient: string -> seq<byte>)
    requires forall k :: 0 <= k < |t| ==> IsAlnum(t[k])
    requires |w| > 0 && forall k :: 0 <= k < |w| ==> IsWordChar(w[k])
    ensures ConvertBase64FileToReadableStream(DATA_SCHEME + t + "/" + w + BASE64_MARKER + Encode(b), lenient)
      == ReadableFile(b, |b|)
  {
    StripWordSubtype(t, w, Encode(b));
    DecodeEncode(b);
  }
}
