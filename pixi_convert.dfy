/**
 * `convertPlistToPixi` of main.js: normalise the line endings of the plist
 * text, scan it for frames and metadata, turn every frame whose three
 * geometry strings are present and well formed into a PixiJS frame, and
 * assemble the atlas, failing when there are no frames or no valid ones.
 */
module PixiConvert {
  import opened Results
  import opened Text
  import opened Geometry
  import opened PointScan
  import opened FrameScan
  import opened MetadataScan
  import opened Markup
  import Decimal

  /** Why a frame is left out of the atlas (the two warnings of the source). */
  datatype SkipReason = MissingField | Malformed

  /** One entry of the PixiJS `frames` object. */
  datatype PixiFrame = PixiFrame(
    frame: Rect<int>,
    sourceSize: Size<int>,
    spriteSourceSize: Rect<int>,
    rotated: bool,
    trimmed: bool)

  datatype PixiMeta = PixiMeta(image: string, format: string, size: Size<int>, scale: string, version: string)

  datatype PixiAtlas = PixiAtlas(frames: map<string, PixiFrame>, meta: PixiMeta)

  /** The two ways the conversion gives up. */
  datatype ConvertError = NoFrames | NoValidFrames

  const DefaultAtlasSize: Size<int> := Size(2048, 2048)

  /** `replace(/\r\n/g, '\n')`: every CR LF pair, scanned left to right, becomes LF. */
  function NormalizeNewlines(s: string): (r: string)
    ensures |r| <= |s|
  {
    if s == [] then []
    else if |s| >= 2 && s[0] == '\r' && s[1] == '\n' then "\n" + NormalizeNewlines(s[2..])
    else [s[0]] + NormalizeNewlines(s[1..])
  }

  /** The text a Windows editor would save: every LF preceded by CR. */
  function WithCrLf(s: string): string {
    if s == [] then []
    else if s[0] == '\n' then "\r\n" + WithCrLf(s[1..])
    else [s[0]] + WithCrLf(s[1..])
  }

  /** Text without CR is left alone. */
  lemma {:induction false} NormalizeWithoutCr(s: string)
    requires '\r' !in s
    ensures NormalizeNewlines(s) == s
  {
    if s != [] {
      assert '\r' !in s[1..] by {
        forall c | c in s[1..] ensures c != '\r' {
          assert c in s;
        }
      }
      NormalizeWithoutCr(s[1..]);
    }
  }

  /** Normalising undoes the CR LF endings of a text that had none of its own CRs. */
  lemma {:induction false} NormalizeUndoesCrLf(s: string)
    requires '\r' !in s
    ensures NormalizeNewlines(WithCrLf(s)) == s
  {
    if s != [] {
      assert '\r' !in s[1..] by {
        forall c | c in s[1..] ensures c != '\r' {
          assert c in s;
        }
      }
      NormalizeUndoesCrLf(s[1..]);
      var w := WithCrLf(s);
      if s[0] == '\n' {
        assert w[2..] == WithCrLf(s[1..]);
      } else {
        assert w[1..] == WithCrLf(s[1..]);
      }
      assert s == [s[0]] + s[1..];
    }
  }

  /** The atlas size: the first `{w, h}` in the metadata size string, or 2048 by 2048. */
  function AtlasSize(size: string): (r: Size<int>)
  {
    match FindPoint(size, false)
    case Some(p) => Size(p.x, p.y)
    case None => DefaultAtlasSize
  }

  /** The atlas size is never negative. */
  lemma AtlasSizeNonNegative(size: string)
    ensures AtlasSize(size).w >= 0 && AtlasSize(size).h >= 0
  {
    FindPointUnsigned(size);
  }

  /** A printed size is read back. */
  lemma AtlasSizeReads(w: nat, h: nat, pad: string)
    requires AllSpaces(pad)
    ensures AtlasSize(FormatPoint(w, h, pad)) == Size(w as int, h as int)
  {
    FindPointReads(w, h, pad, false);
  }

  /** The default metadata size string gives the default atlas size. */
  lemma AtlasSizeOfDefault()
    ensures AtlasSize(DefaultSize) == DefaultAtlasSize
  {
    assert Decimal.IntStr(2048) == "2048";
    assert DefaultSize == FormatPoint(2048, 2048, " ");
    assert AllSpaces(" ");
    AtlasSizeReads(2048, 2048, " ");
  }

  /** A size printed from two naturals is text the metadata size pattern captures. */
  lemma PrintedSizeIsSizeText(w: nat, h: nat, pad: string)
    requires AllSpaces(pad)
    ensures IsSizeText(FormatPoint(w, h, pad))
  {
    var a := Decimal.IntStr(w);
    var b := Decimal.IntStr(h);
    var v := FormatPoint(w, h, pad);
    assert v == "{" + a + "," + pad + b + "}";
    forall j | 0 < j < |v| - 1 ensures IsSizeChar(v[j]) {
      if j <= |a| {
        assert v[j] == a[j - 1];
      } else if j == |a| + 1 {
        assert v[j] == ',';
      } else if j <= |a| + 1 + |pad| {
        assert v[j] == pad[j - |a| - 2];
      } else {
        assert v[j] == b[j - |a| - 2 - |pad|];
      }
    }
  }

  /** A size entry written after a prefix where the size pattern matches nowhere sets the atlas size. */
  lemma AtlasSizeFromEntry(pre: string, w: nat, h: nat, pad: string, valuePad: string, rest: string)
    requires AllSpaces(pad) && AllSpaces(valuePad)
    requires forall j: nat :: j < |pre| ==>
      SizeAt(pre + (KeyTag("size") + (pad + ("<string>" + (FormatPoint(w, h, valuePad) + ("</string>" + rest))))), j).None?
    ensures var s := pre + (KeyTag("size") + (pad + ("<string>" + (FormatPoint(w, h, valuePad) + ("</string>" + rest)))));
      AtlasSize(SizeField(s)) == Size(w as int, h as int)
  {
    PrintedSizeIsSizeText(w, h, valuePad);
    SizeFieldReads(pre, pad, FormatPoint(w, h, valuePad), rest);
    AtlasSizeReads(w, h, valuePad);
  }

  /**
   * One frame: skipped as `MissingField` when any of the three geometry
   * strings is empty, as `Malformed` when any fails its pattern, and
   * otherwise built from the rectangle, the source size and the offset.
   */
  function ParseFrame(f: ScannedFrame): (r: Result<PixiFrame, SkipReason>)
  {
    if f.textureRect == [] || f.spriteSourceSize == [] || f.spriteOffset == [] then Failure(MissingField)
    else
      var rect := FindRect(f.textureRect);
      var size := FindPoint(f.spriteSourceSize, false);
      var offset := FindPoint(f.spriteOffset, true);
      if rect.None? || size.None? || offset.None? then Failure(Malformed)
      else
        Success(PixiFrame(
          rect.value,
          Size(size.value.x, size.value.y),
          Rect(offset.value.x, offset.value.y, size.value.x, size.value.y),
          f.textureRotated,
          f.spriteTrimmed))
  }

  /** A frame is kept exactly when its three strings are present and each matches its pattern. */
  lemma ParseFrameKept(f: ScannedFrame)
    ensures ParseFrame(f).Success? <==>
              f.textureRect != [] && f.spriteSourceSize != [] && f.spriteOffset != []
              && FindRect(f.textureRect).Some? && FindPoint(f.spriteSourceSize, false).Some?
              && FindPoint(f.spriteOffset, true).Some?
    ensures ParseFrame(f) == Failure(MissingField) <==>
              f.textureRect == [] || f.spriteSourceSize == [] || f.spriteOffset == []
  {
    if f.textureRect != [] && f.spriteSourceSize != [] && f.spriteOffset != [] {
      var rect := FindRect(f.textureRect);
      var size := FindPoint(f.spriteSourceSize, false);
      var offset := FindPoint(f.spriteOffset, true);
      if rect.None? || size.None? || offset.None? {
        assert ParseFrame(f) == Failure(Malformed);
      } else {
        assert ParseFrame(f).Success?;
      }
    }
  }

  /**
   * A kept frame: the rectangle and the source size are non-negative, the
   * trim box has the source size and starts at the offset, and the flags
   * are the scanned ones.
   */
  lemma ParseFrameShape(f: ScannedFrame)
    requires ParseFrame(f).Success?
    ensures var p := ParseFrame(f).value;
      && p.frame == FindRect(f.textureRect).value
      && p.frame.x >= 0 && p.frame.y >= 0 && p.frame.w >= 0 && p.frame.h >= 0
      && p.sourceSize == Size(FindPoint(f.spriteSourceSize, false).value.x, FindPoint(f.spriteSourceSize, false).value.y)
      && p.sourceSize.w >= 0 && p.sourceSize.h >= 0
      && p.spriteSourceSize.w == p.sourceSize.w && p.spriteSourceSize.h == p.sourceSize.h
      && Point(p.spriteSourceSize.x, p.spriteSourceSize.y) == FindPoint(f.spriteOffset, true).value
      && p.rotated == f.textureRotated && p.trimmed == f.spriteTrimmed
  {
    FindRectUnsigned(f.textureRect);
    FindPointUnsigned(f.spriteSourceSize);
  }

  /** The geometry a texture packer prints is read back exactly. */
  lemma ParseFrameReads(x: nat, y: nat, w: nat, h: nat, sw: nat, sh: nat, ox: int, oy: int, pad: string,
                        trimmed: bool, rotated: bool)
    requires AllSpaces(pad)
    ensures ParseFrame(ScannedFrame(FormatRect(x, y, w, h, pad), FormatPoint(sw, sh, pad), FormatPoint(ox, oy, pad), trimmed, rotated))
         == Success(PixiFrame(Rect(x as int, y as int, w as int, h as int), Size(sw as int, sh as int),
                              Rect(ox, oy, sw as int, sh as int), rotated, trimmed))
  {
    FindRectReads(x, y, w, h, pad);
    FindPointReads(sw, sh, pad, false);
    FindPointReads(ox, oy, pad, true);
  }

  /** The frames kept, under the names they were scanned under. */
  function ValidFrames(frames: map<string, ScannedFrame>): map<string, PixiFrame> {
    map k | k in frames && ParseFrame(frames[k]).Success? :: ParseFrame(frames[k]).value
  }

  /** The frames skipped, each with the reason its warning gives. */
  function SkippedFrames(frames: map<string, ScannedFrame>): map<string, SkipReason> {
    map k | k in frames && ParseFrame(frames[k]).Failure? :: ParseFrame(frames[k]).error
  }

  /** Every scanned frame is either kept or skipped, never both. */
  lemma FramesPartitioned(frames: map<string, ScannedFrame>)
    ensures ValidFrames(frames).Keys + SkippedFrames(frames).Keys == frames.Keys
    ensures ValidFrames(frames).Keys * SkippedFrames(frames).Keys == {}
  {
  }

  /** Every scanned frame with what parsing it gives. */
  ghost function Parsed(frames: map<string, ScannedFrame>): map<string, Result<PixiFrame, SkipReason>> {
    map k | k in frames :: ParseFrame(frames[k])
  }

  /** The successes among the names in `done`. */
  ghost function KeptAmong(parsed: map<string, Result<PixiFrame, SkipReason>>, done: set<string>): map<string, PixiFrame> {
    map k | k in parsed && k in done && parsed[k].Success? :: parsed[k].value
  }

  /** The failures among the names in `done`. */
  ghost function SkippedAmong(parsed: map<string, Result<PixiFrame, SkipReason>>, done: set<string>): map<string, SkipReason> {
    map k | k in parsed && k in done && parsed[k].Failure? :: parsed[k].error
  }

  /**
   * The `forEach` over the frame names: each frame is checked for missing
   * fields, then matched, and recorded as kept or skipped.
   */
  method BuildPixiFrames(frames: map<string, ScannedFrame>) returns (pixiFrames: map<string, PixiFrame>, skipped: map<string, SkipReason>)
    ensures pixiFrames == ValidFrames(frames)
    ensures skipped == SkippedFrames(frames)
  {
    ghost var parsed := Parsed(frames);
    pixiFrames := map[];
    skipped := map[];
    var todo := frames.Keys;
    while todo != {}
      invariant todo <= frames.Keys
      invariant pixiFrames == KeptAmong(parsed, frames.Keys - todo)
      invariant skipped == SkippedAmong(parsed, frames.Keys - todo)
      decreases |todo|
    {
      var frameName :| frameName in todo;
      var frame := frames[frameName];
      ghost var done := frames.Keys - todo;
      todo := todo - {frameName};
      assert frames.Keys - todo == done + {frameName};
      if frame.textureRect == [] || frame.spriteSourceSize == [] || frame.spriteOffset == [] {
        assert parsed[frameName] == Failure(MissingField);
        skipped := skipped[frameName := MissingField];
        SkipStep(parsed, done, frameName);
        KeepUnchanged(parsed, done, frameName);
      } else {
        var rectMatch := FindRect(frame.textureRect);
        var sourceSizeMatch := FindPoint(frame.spriteSourceSize, false);
        var offsetMatch := FindPoint(frame.spriteOffset, true);
        if rectMatch.None? || sourceSizeMatch.None? || offsetMatch.None? {
          assert parsed[frameName] == Failure(Malformed);
          skipped := skipped[frameName := Malformed];
          SkipStep(parsed, done, frameName);
          KeepUnchanged(parsed, done, frameName);
        } else {
          var rect, size, offset := rectMatch.value, sourceSizeMatch.value, offsetMatch.value;
          var kept := PixiFrame(
            rect,
            Size(size.x, size.y),
            Rect(offset.x, offset.y, size.x, size.y),
            frame.textureRotated,
            frame.spriteTrimmed);
          assert parsed[frameName] == Success(kept);
          pixiFrames := pixiFrames[frameName := kept];
          KeepStep(parsed, done, frameName);
          SkipUnchanged(parsed, done, frameName);
        }
      }
    }
    assert frames.Keys - todo == frames.Keys;
    AmongAll(frames);
  }

  /** Over every name, the successes and failures are the kept and skipped frames. */
  lemma AmongAll(frames: map<string, ScannedFrame>)
    ensures KeptAmong(Parsed(frames), frames.Keys) == ValidFrames(frames)
    ensures SkippedAmong(Parsed(frames), frames.Keys) == SkippedFrames(frames)
  {
  }

  lemma KeepStep(parsed: map<string, Result<PixiFrame, SkipReason>>, done: set<string>, k: string)
    requires k in parsed && parsed[k].Success?
    ensures KeptAmong(parsed, done + {k}) == KeptAmong(parsed, done)[k := parsed[k].value]
  {
  }

  lemma KeepUnchanged(parsed: map<string, Result<PixiFrame, SkipReason>>, done: set<string>, k: string)
    requires k in parsed && parsed[k].Failure?
    ensures KeptAmong(parsed, done + {k}) == KeptAmong(parsed, done)
  {
  }

  lemma SkipStep(parsed: map<string, Result<PixiFrame, SkipReason>>, done: set<string>, k: string)
    requires k in parsed && parsed[k].Failure?
    ensures SkippedAmong(parsed, done + {k}) == SkippedAmong(parsed, done)[k := parsed[k].error]
  {
  }

  lemma SkipUnchanged(parsed: map<string, Result<PixiFrame, SkipReason>>, done: set<string>, k: string)
    requires k in parsed && parsed[k].Success?
    ensures SkippedAmong(parsed, done + {k}) == SkippedAmong(parsed, done)
  {
  }

  /** The `meta` object: image file, fixed format and scale, atlas size and version. */
  function PixiMetaOf(m: Metadata): PixiMeta {
    PixiMeta(m.textureFileName + ".png", "RGBA8888", AtlasSize(m.size), "1", m.version)
  }

  /**
   * With none of the metadata patterns matching, `meta` is built from the
   * defaults: `atlas.png`, 2048 by 2048, version `1.5.5`.
   */
  lemma PixiMetaOfDefaults()
    ensures PixiMetaOf(Metadata(DefaultSize, DefaultVersion, DefaultTextureFileName))
         == PixiMeta(DefaultTextureFileName + ".png", "RGBA8888", DefaultAtlasSize, "1", DefaultVersion)
  {
    AtlasSizeOfDefault();
  }

  /** No frames are recorded exactly when the frame pattern matches nowhere. */
  lemma NoFramesIff(s: string)
    ensures Collect(FrameBlocks(s), ScanFrame) == map[] <==> forall j: nat :: j <= |s| ==> BlockAt(s, j).None?
  {
    var r := FrameBlocks(s);
    CollectKeys(r, ScanFrame);
    FrameBlocksComplete(s);
    if r != [] {
      FrameBlocksSound(s);
      assert Trim(r[0].value.rawName) in Collect(r, ScanFrame).Keys;
      assert BlockAt(s, r[0].pos).Some?;
    }
  }

  /**
   * The whole conversion of a plist file's text: `NoFrames` exactly when the
   * scan finds no frame, `NoValidFrames` exactly when it finds some but none
   * survives, and otherwise the kept frames and the metadata-derived `meta`.
   */
  method ConvertPlistToPixi(fileText: string) returns (r: Result<PixiAtlas, ConvertError>)
    ensures var s := NormalizeNewlines(fileText);
            var frames := Collect(FrameBlocks(s), ScanFrame);
      && (r == Failure(NoFrames) <==> frames == map[])
      && (r == Failure(NoValidFrames) <==> frames != map[] && ValidFrames(frames) == map[])
      && (r.Success? ==> r.value == PixiAtlas(ValidFrames(frames),
                                              PixiMetaOf(Metadata(SizeField(s), VersionField(s), TextureFileNameField(s)))))
  {
    var plistText := NormalizeNewlines(fileText);
    var frames := ExtractFrames(plistText);
    var metadata := ExtractMetadata(plistText);
    if frames == map[] {
      return Failure(NoFrames);
    }
    var atlasSize := AtlasSize(metadata.size);
    var pixiFrames, skipped := BuildPixiFrames(frames);
    if pixiFrames == map[] {
      return Failure(NoValidFrames);
    }
    var meta := PixiMeta(metadata.textureFileName + ".png", "RGBA8888", atlasSize, "1", metadata.version);
    r := Success(PixiAtlas(pixiFrames, meta));
  }
}
