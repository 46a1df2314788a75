/**
 * The text-scan metadata extraction of main.js: a record of defaults whose
 * fields are overwritten by the first match of the size, version and
 * texture-file-name patterns in the raw plist text.
 */
module MetadataScan {
  import opened Results
  import opened Text
  import opened Markup

  datatype Metadata = Metadata(size: string, version: string, textureFileName: string)

  const DefaultSize: string := "{2048, 2048}"
  const DefaultVersion: string := "1.5.5"
  const DefaultTextureFileName: string := "atlas"

  /** The class `[\d,\s]` of the size capture. */
  predicate IsSizeChar(c: char) {
    IsDigit(c) || c == ',' || IsSpace(c)
  }

  /** The class `[\d.]` of the version capture. */
  predicate IsVersionChar(c: char) {
    IsDigit(c) || c == '.'
  }

  /** What the size group can capture: `{`, at least one digit, comma or space, `}`. */
  predicate IsSizeText(v: string) {
    3 <= |v| && v[0] == '{' && v[|v| - 1] == '}' && forall j :: 0 < j < |v| - 1 ==> IsSizeChar(v[j])
  }

  /** What the version group can capture: at least one digit or dot. */
  predicate IsVersionText(v: string) {
    v != [] && forall j :: 0 <= j < |v| ==> IsVersionChar(v[j])
  }

  /**
   * `<key>K</key>\s*<string>` anchored at `p`, case-insensitively: where the
   * string's contents start.
   */
  function EntryStart(s: string, p: nat, key: string): (r: Option<nat>)
    ensures r.Some? ==> r.value <= |s|
  {
    if !LitAt(s, p, KeyTag(key), true) then None
    else
      var o := SkipSpaces(s, p + |KeyTag(key)|);
      if LitAt(s, o, "<string>", true) then Some(o + 8) else None
  }

  /** `(\{[\d,\s]+\})</string>` anchored at `b`; the greedy run can only stop before the `}`. */
  function SizeCapture(s: string, b: nat): Option<string>
    requires b <= |s|
  {
    if b < |s| && s[b] == '{' then
      var e := RunEnd(s, b + 1, IsSizeChar);
      if b + 1 < e < |s| && s[e] == '}' && LitAt(s, e + 1, "</string>", true) then Some(s[b..e + 1]) else None
    else None
  }

  /** `([\d.]+)</string>` anchored at `b`. */
  function VersionCapture(s: string, b: nat): Option<string>
    requires b <= |s|
  {
    var e := RunEnd(s, b, IsVersionChar);
    if b < e && LitAt(s, e, "</string>", true) then Some(s[b..e]) else None
  }

  /** The size pattern anchored at `p`. */
  function SizeAt(s: string, p: nat): Option<string> {
    match EntryStart(s, p, "size")
    case None => None
    case Some(b) => SizeCapture(s, b)
  }

  /** The version pattern anchored at `p`. */
  function VersionAt(s: string, p: nat): Option<string> {
    match EntryStart(s, p, "version")
    case None => None
    case Some(b) => VersionCapture(s, b)
  }

  function SizeMatcher(s: string): nat -> Option<string> {
    (p: nat) => SizeAt(s, p)
  }

  function VersionMatcher(s: string): nat -> Option<string> {
    (p: nat) => VersionAt(s, p)
  }

  /** The size the scan settles on: the first match's capture, or the default. */
  function SizeField(s: string): string {
    match Leftmost(SizeMatcher(s), 0, |s|)
    case None => DefaultSize
    case Some(f) => f.value
  }

  /** The version the scan settles on: the first match's capture, or the default. */
  function VersionField(s: string): string {
    match Leftmost(VersionMatcher(s), 0, |s|)
    case None => DefaultVersion
    case Some(f) => f.value
  }

  /**
   * The texture file name the scan settles on: inside the body of the first
   * `<key>target</key> <dict>…</dict>`, the trimmed first `textureFileName`
   * string; the default when either is missing.
   */
  function TextureFileNameField(s: string): string {
    match FirstKeyed(s, "target", "<dict>", "</dict>")
    case None => DefaultTextureFileName
    case Some(t) => TargetBodyName(s, t.value)
  }

  /**
   * `extractMetadataFromXmlText`: start from the defaults and overwrite a
   * field only where its pattern matches.
   */
  method ExtractMetadata(s: string) returns (metadata: Metadata)
    ensures metadata == Metadata(SizeField(s), VersionField(s), TextureFileNameField(s))
  {
    metadata := Metadata(DefaultSize, DefaultVersion, DefaultTextureFileName);
    var sizeMatch := Leftmost(SizeMatcher(s), 0, |s|);
    if sizeMatch.Some? {
      metadata := metadata.(size := sizeMatch.value.value);
    }
    assert metadata.size == SizeField(s);
    var versionMatch := Leftmost(VersionMatcher(s), 0, |s|);
    if versionMatch.Some? {
      metadata := metadata.(version := versionMatch.value.value);
    }
    assert metadata.version == VersionField(s);
    var targetMatch := FirstKeyed(s, "target", "<dict>", "</dict>");
    if targetMatch.Some? {
      var t := targetMatch.value.value;
      var tfMatch := KeyedString(s[t.start..t.end], "textureFileName");
      if tfMatch.Some? {
        metadata := metadata.(textureFileName := tfMatch.value);
      }
    }
  }

  /** A size capture is a braced run of digits, commas and whitespace. */
  lemma SizeCaptureSound(s: string, b: nat)
    requires b <= |s| && SizeCapture(s, b).Some?
    ensures IsSizeText(SizeCapture(s, b).value)
  {
    RunEndStops(s, b + 1, IsSizeChar);
    BracedRun(s, b, RunEnd(s, b + 1, IsSizeChar));
  }

  lemma BracedRun(s: string, b: nat, e: nat)
    requires b + 1 < e < |s| && s[b] == '{' && s[e] == '}'
    requires forall j :: b + 1 <= j < e ==> IsSizeChar(s[j])
    ensures IsSizeText(s[b..e + 1])
  {
    var v := s[b..e + 1];
    forall j | 0 < j < |v| - 1 ensures IsSizeChar(v[j]) {
      assert v[j] == s[b + j];
    }
  }

  /** A version capture is a non-empty run of digits and dots. */
  lemma VersionCaptureSound(s: string, b: nat)
    requires b <= |s| && VersionCapture(s, b).Some?
    ensures IsVersionText(VersionCapture(s, b).value)
  {
    RunEndStops(s, b, IsVersionChar);
    var e := RunEnd(s, b, IsVersionChar);
    var v := s[b..e];
    forall j | 0 <= j < |v| ensures IsVersionChar(v[j]) {
      assert v[j] == s[b + j];
    }
  }

  /**
   * The size is the default exactly when the pattern matches nowhere;
   * otherwise it is the capture of the leftmost match, a braced run of
   * digits, commas and whitespace.
   */
  lemma SizeFieldSound(s: string)
    ensures (forall j: nat :: j <= |s| ==> SizeAt(s, j).None?) ==> SizeField(s) == DefaultSize
    ensures (exists j: nat :: j <= |s| && SizeAt(s, j).Some?) ==>
              exists p: nat :: p <= |s| && SizeAt(s, p) == Some(SizeField(s))
                && (forall j: nat :: j < p ==> SizeAt(s, j).None?)
    ensures SizeField(s) == DefaultSize || IsSizeText(SizeField(s))
  {
    var at := SizeMatcher(s);
    LeftmostSound(at, 0, |s|);
    assert forall j: nat :: at(j) == SizeAt(s, j);
    var m := Leftmost(at, 0, |s|);
    if m.Some? {
      var p := m.value.pos;
      var b := EntryStart(s, p, "size").value;
      SizeCaptureSound(s, b);
    }
  }

  /**
   * The version is the default exactly when the pattern matches nowhere;
   * otherwise it is the capture of the leftmost match, so it is only ever
   * replaced by digits and dots.
   */
  lemma VersionFieldSound(s: string)
    ensures (forall j: nat :: j <= |s| ==> VersionAt(s, j).None?) ==> VersionField(s) == DefaultVersion
    ensures (exists j: nat :: j <= |s| && VersionAt(s, j).Some?) ==>
              exists p: nat :: p <= |s| && VersionAt(s, p) == Some(VersionField(s))
                && (forall j: nat :: j < p ==> VersionAt(s, j).None?)
    ensures VersionField(s) == DefaultVersion || IsVersionText(VersionField(s))
  {
    var at := VersionMatcher(s);
    LeftmostSound(at, 0, |s|);
    assert forall j: nat :: at(j) == VersionAt(s, j);
    var m := Leftmost(at, 0, |s|);
    if m.Some? {
      var p := m.value.pos;
      var b := EntryStart(s, p, "version").value;
      VersionCaptureSound(s, b);
    }
  }

  /**
   * The texture file name is the default when there is no target dict, and
   * otherwise the trimmed value read from the first target dict's body, the
   * default only when that body has no `textureFileName` string entry.
   */
  lemma TextureFileNameFieldSound(s: string)
    ensures (forall j: nat :: j <= |s| ==> KeyedAt(s, j, "target", "<dict>", "</dict>").None?) ==>
              TextureFileNameField(s) == DefaultTextureFileName
    ensures (exists j: nat :: j <= |s| && KeyedAt(s, j, "target", "<dict>", "</dict>").Some?) ==>
              exists p: nat :: p <= |s| && KeyedAt(s, p, "target", "<dict>", "</dict>").Some?
                && (forall j: nat :: j < p ==> KeyedAt(s, j, "target", "<dict>", "</dict>").None?)
                && TextureFileNameField(s) == TargetBodyName(s, KeyedAt(s, p, "target", "<dict>", "</dict>").value)
    ensures TextureFileNameField(s) == DefaultTextureFileName || IsTrimmed(TextureFileNameField(s))
  {
    FirstKeyedSound(s, "target", "<dict>", "</dict>");
    var t := FirstKeyed(s, "target", "<dict>", "</dict>");
    if t.Some? {
      KeyedStringSound(s[t.value.value.start..t.value.value.end], "textureFileName");
      assert t.value.pos <= |s|;
    }
  }

  /** The name read from a target dict body: its trimmed `textureFileName` string, or the default. */
  function TargetBodyName(s: string, c: Capture): string
    requires Fits(s, c)
  {
    KeyedString(s[c.start..c.end], "textureFileName").GetOr(DefaultTextureFileName)
  }

  /**
   * `<key>K</key>`, spaces and `<string>v</string>` after a prefix: the
   * contents start right after the opening tag, hold `v`, and are followed
   * by the closing tag.
   */
  lemma EntryStartReads(pre: string, key: string, pad: string, v: string, rest: string)
    requires AllSpaces(pad)
    ensures var s := pre + (KeyTag(key) + (pad + ("<string>" + (v + ("</string>" + rest)))));
      var b := |pre| + |KeyTag(key)| + |pad| + 8;
      && EntryStart(s, |pre|, key) == Some(b)
      && b + |v| <= |s| && s[b..b + |v|] == v
      && LitAt(s, b + |v|, "</string>", true)
  {
    var tail := pad + ("<string>" + (v + ("</string>" + rest)));
    ConcatAssoc(pre, KeyTag(key), tail);
    LitAtAfter(pre, KeyTag(key), tail, true);
    EntryAfterKey(pre + (KeyTag(key) + tail), pre + KeyTag(key), |pre|, key, pad, v, rest);
  }

  lemma EntryAfterKey(s: string, kt: string, p: nat, key: string, pad: string, v: string, rest: string)
    requires AllSpaces(pad)
    requires s == kt + (pad + ("<string>" + (v + ("</string>" + rest))))
    requires p + |KeyTag(key)| == |kt| && LitAt(s, p, KeyTag(key), true)
    ensures var b := |kt| + |pad| + 8;
      && EntryStart(s, p, key) == Some(b)
      && b + |v| <= |s| && s[b..b + |v|] == v
      && LitAt(s, b + |v|, "</string>", true)
  {
    var o := |kt| + |pad|;
    var e := o + 8 + |v|;
    EntrySpaces(kt, pad, v, rest, s, o);
    EntryOpenTag(kt, pad, v, rest, s, o);
    EntryValue(kt, pad, v, rest, s, o, e);
    EntryCloseTag(kt, pad, v, rest, s, o, e);
  }

  /** A version entry with no match of the version pattern before it is what the scan settles on. */
  lemma VersionFieldReads(pre: string, pad: string, v: string, rest: string)
    requires AllSpaces(pad) && IsVersionText(v)
    requires forall j: nat :: j < |pre| ==>
      VersionAt(pre + (KeyTag("version") + (pad + ("<string>" + (v + ("</string>" + rest))))), j).None?
    ensures VersionField(pre + (KeyTag("version") + (pad + ("<string>" + (v + ("</string>" + rest)))))) == v
  {
    EntryStartReads(pre, "version", pad, v, rest);
    VersionFieldAt(pre + (KeyTag("version") + (pad + ("<string>" + (v + ("</string>" + rest))))), |pre|,
      |pre| + |KeyTag("version")| + |pad| + 8, v);
  }

  /** An entry whose contents `v` start at `b`, with no match before `p`, is what the scan settles on. */
  lemma VersionFieldAt(s: string, p: nat, b: nat, v: string)
    requires IsVersionText(v) && p <= |s| && EntryStart(s, p, "version") == Some(b)
    requires b + |v| <= |s| && s[b..b + |v|] == v && LitAt(s, b + |v|, "</string>", true)
    requires forall j: nat :: j < p ==> VersionAt(s, j).None?
    ensures VersionField(s) == v
  {
    VersionCaptureReads(s, b, v);
    assert VersionAt(s, p) == Some(v);
    var at := VersionMatcher(s);
    assert forall j: nat :: at(j) == VersionAt(s, j);
    LeftmostFirst(at, 0, |s|, p);
  }

  /** A run of digits and dots followed by `</string>` is captured whole. */
  lemma VersionCaptureReads(s: string, b: nat, v: string)
    requires IsVersionText(v) && b + |v| <= |s| && s[b..b + |v|] == v
    requires LitAt(s, b + |v|, "</string>", true)
    ensures VersionCapture(s, b) == Some(v)
  {
    var e := b + |v|;
    assert "</string>"[0] == '<';
    assert CharEq(s[e + 0], "</string>"[0], true);
    forall j | b <= j < e ensures IsVersionChar(s[j]) {
      assert s[j] == v[j - b];
    }
    RunEndAt(s, b, e, IsVersionChar);
  }

  /** A braced size text followed by `</string>` is captured whole. */
  lemma SizeCaptureReads(s: string, b: nat, v: string)
    requires IsSizeText(v) && b + |v| <= |s| && s[b..b + |v|] == v
    requires LitAt(s, b + |v|, "</string>", true)
    ensures SizeCapture(s, b) == Some(v)
  {
    var e := b + |v|;
    assert s[b] == v[0] && s[e - 1] == v[|v| - 1];
    forall j | b + 1 <= j < e - 1 ensures IsSizeChar(s[j]) {
      assert s[j] == v[j - b];
    }
    RunEndAt(s, b + 1, e - 1, IsSizeChar);
  }

  /** A size entry with no match of the size pattern before it is what the scan settles on. */
  lemma SizeFieldReads(pre: string, pad: string, v: string, rest: string)
    requires AllSpaces(pad) && IsSizeText(v)
    requires forall j: nat :: j < |pre| ==>
      SizeAt(pre + (KeyTag("size") + (pad + ("<string>" + (v + ("</string>" + rest))))), j).None?
    ensures SizeField(pre + (KeyTag("size") + (pad + ("<string>" + (v + ("</string>" + rest)))))) == v
  {
    EntryStartReads(pre, "size", pad, v, rest);
    SizeFieldAt(pre + (KeyTag("size") + (pad + ("<string>" + (v + ("</string>" + rest))))), |pre|,
      |pre| + |KeyTag("size")| + |pad| + 8, v);
  }

  /** An entry whose contents `v` start at `b`, with no match before `p`, is what the scan settles on. */
  lemma SizeFieldAt(s: string, p: nat, b: nat, v: string)
    requires IsSizeText(v) && p <= |s| && EntryStart(s, p, "size") == Some(b)
    requires b + |v| <= |s| && s[b..b + |v|] == v && LitAt(s, b + |v|, "</string>", true)
    requires forall j: nat :: j < p ==> SizeAt(s, j).None?
    ensures SizeField(s) == v
  {
    SizeCaptureReads(s, b, v);
    assert SizeAt(s, p) == Some(v);
    var at := SizeMatcher(s);
    assert forall j: nat :: at(j) == SizeAt(s, j);
    LeftmostFirst(at, 0, |s|, p);
  }

  /**
   * With a target dict written after a prefix where the target pattern
   * matches nowhere, the texture file name is read from that dict's body.
   */
  lemma TargetDictReads(pre: string, pad: string, inner: string, rest: string)
    requires AllSpaces(pad)
    requires CloseFree(inner, "</dict>")
    requires forall j: nat :: j < |pre| ==>
      KeyedAt(pre + (KeyTag("target") + (pad + ("<dict>" + (inner + ("</dict>" + rest))))), j, "target", "<dict>", "</dict>").None?
    ensures TextureFileNameField(pre + (KeyTag("target") + (pad + ("<dict>" + (inner + ("</dict>" + rest))))))
         == KeyedString(inner, "textureFileName").GetOr(DefaultTextureFileName)
  {
    var tail := pad + ("<dict>" + (inner + ("</dict>" + rest)));
    ConcatAssoc(pre, KeyTag("target"), tail);
    LitAtAfter(pre, KeyTag("target"), tail, true);
    TargetAfterKey(pre + (KeyTag("target") + tail), pre + KeyTag("target"), |pre|, pad, inner, rest);
    FirstKeyedAt(pre + (KeyTag("target") + tail), "target", "<dict>", "</dict>", |pre|);
  }

  lemma TargetAfterKey(s: string, kt: string, p: nat, pad: string, inner: string, rest: string)
    requires AllSpaces(pad)
    requires CloseFree(inner, "</dict>")
    requires s == kt + (pad + ("<dict>" + (inner + ("</dict>" + rest))))
    requires p + |KeyTag("target")| == |kt| && LitAt(s, p, KeyTag("target"), true)
    ensures KeyedAt(s, p, "target", "<dict>", "</dict>").Some?
    ensures var c := KeyedAt(s, p, "target", "<dict>", "</dict>").value; s[c.start..c.end] == inner
  {
    var o := |kt| + |pad|;
    var e := o + 6 + |inner|;
    WrittenTagBody(kt, pad, "<dict>", inner, "</dict>", rest, s);
    KeyedBody(s, p, |kt|, "target", "<dict>", "</dict>", Capture(o, o + 6, e, e + 7), inner);
  }

  /**
   * A `textureFileName` string entry written inside such a target dict is
   * the texture file name, trimmed.
   */
  lemma TextureFileNameReads(pre: string, pad: string, inner: string, rest: string,
                             innerPre: string, namePad: string, name: string, innerRest: string)
    requires AllSpaces(pad) && AllSpaces(namePad) && '<' !in name
    requires inner == innerPre + (KeyTag("textureFileName") + (namePad + ("<string>" + (name + ("</string>" + innerRest)))))
    requires forall j: nat :: j < |innerPre| ==> KeyedAt(inner, j, "textureFileName", "<string>", "</string>").None?
    requires CloseFree(inner, "</dict>")
    requires forall j: nat :: j < |pre| ==>
      KeyedAt(pre + (KeyTag("target") + (pad + ("<dict>" + (inner + ("</dict>" + rest))))), j, "target", "<dict>", "</dict>").None?
    ensures TextureFileNameField(pre + (KeyTag("target") + (pad + ("<dict>" + (inner + ("</dict>" + rest)))))) == Trim(name)
  {
    TargetDictReads(pre, pad, inner, rest);
    ReadsWrittenEntry(innerPre, "textureFileName", namePad, name, innerRest, inner);
  }
}
