/**
 * `convertPlistToPhaserAtlas` of phaser.js: every decoded frame becomes a
 * Phaser atlas frame, read with the lenient `parseRectangle`/`parsePoint`;
 * a missing geometry string or a missing `target` or `size` throws.
 */
module PhaserAtlas {
  import opened Results
  import opened Geometry
  import opened JsNumber
  import opened DecodedPlist
  import Text

  datatype PhaserFrame = PhaserFrame(
    frame: Rect<Num>,
    sourceSize: Size<Num>,
    spriteSourceSize: Rect<Num>,
    offset: Point<Num>,
    rotated: Option<bool>,
    trimmed: Option<bool>)

  /** `scale` is the number 1. */
  datatype PhaserMeta = PhaserMeta(image: string, format: string, size: Size<Num>, scale: int)

  datatype Atlas = Atlas(frames: map<string, PhaserFrame>, meta: PhaserMeta)

  /** The four strings the loop body parses, `spriteSize` among them although it is never used. */
  predicate FrameReady(f: DecodedFrame) {
    f.textureRect.Some? && f.spriteSize.Some? && f.spriteOffset.Some? && f.spriteSourceSize.Some?
  }

  /** Everything the conversion reads is there. */
  predicate PlistReady(p: Plist) {
    p.metadata.target.Some? && p.metadata.size.Some? && forall k :: k in p.frames ==> FrameReady(p.frames[k])
  }

  /** One frame: the texture rectangle, the source size twice, the origin at 0 and the offset apart. */
  function FrameOf(f: DecodedFrame): PhaserFrame
    requires FrameReady(f)
  {
    var textureRect := ParseRectangle(f.textureRect.value);
    var spriteOffset := ParsePoint(f.spriteOffset.value);
    var spriteSourceSize := ParsePoint(f.spriteSourceSize.value);
    PhaserFrame(
      Rect(textureRect.x, textureRect.y, textureRect.w, textureRect.h),
      Size(spriteSourceSize.x, spriteSourceSize.y),
      Rect(Int(0), Int(0), spriteSourceSize.x, spriteSourceSize.y),
      Point(spriteOffset.x, spriteOffset.y),
      f.textureRotated,
      f.spriteTrimmed)
  }

  function MetaOf(m: DecodedMetadata): PhaserMeta
    requires m.target.Some? && m.size.Some?
  {
    var size := ParsePoint(m.size.value);
    PhaserMeta(TextureName(m.target.value), "RGBA8888", Size(size.x, size.y), 1)
  }

  /** The frames recorded for the names already visited. */
  ghost function FramesSoFar(frames: map<string, DecodedFrame>, done: set<string>): map<string, PhaserFrame>
    requires forall k :: k in frames && k in done ==> FrameReady(frames[k])
  {
    map k | k in frames && k in done :: FrameOf(frames[k])
  }

  /**
   * The conversion: `MissingEntry` exactly when something it reads is
   * missing; otherwise one frame per decoded frame, under the same name.
   */
  method ConvertPlistToPhaserAtlas(plist: Plist) returns (r: Result<Atlas, DecodeError>)
    ensures r.Failure? <==> !PlistReady(plist)
    ensures r.Success? ==> r.value.frames.Keys == plist.frames.Keys
    ensures r.Success? ==> forall k :: k in plist.frames ==> r.value.frames[k] == FrameOf(plist.frames[k])
    ensures r.Success? ==> r.value.meta == MetaOf(plist.metadata)
  {
    if plist.metadata.target.None? {
      return Failure(MissingEntry);
    }
    var textureName := TextureName(plist.metadata.target.value);
    if plist.metadata.size.None? {
      return Failure(MissingEntry);
    }
    var size := ParsePoint(plist.metadata.size.value);
    var meta := PhaserMeta(textureName, "RGBA8888", Size(size.x, size.y), 1);
    var frames := ConvertFrames(plist.frames);
    if frames.None? {
      return Failure(MissingEntry);
    }
    r := Success(Atlas(frames.value, meta));
  }

  /** The `for…of` loop over the decoded frames: `None` when one of them lacks a string the body parses. */
  method ConvertFrames(decoded: map<string, DecodedFrame>) returns (r: Option<map<string, PhaserFrame>>)
    ensures r.None? <==> exists k :: k in decoded && !FrameReady(decoded[k])
    ensures r.Some? ==> r.value.Keys == decoded.Keys
    ensures r.Some? ==> forall k :: k in decoded ==> r.value[k] == FrameOf(decoded[k])
  {
    var frames: map<string, PhaserFrame> := map[];
    var todo := decoded.Keys;
    while todo != {}
      invariant todo <= decoded.Keys
      invariant forall k :: k in decoded && k !in todo ==> FrameReady(decoded[k])
      invariant frames == FramesSoFar(decoded, decoded.Keys - todo)
      decreases |todo|
    {
      var frameKey :| frameKey in todo;
      var frameData := decoded[frameKey];
      if frameData.textureRect.None? || frameData.spriteSize.None? || frameData.spriteOffset.None? || frameData.spriteSourceSize.None? {
        return None;
      }
      var textureRect := ParseRectangle(frameData.textureRect.value);
      var spriteSize := ParsePoint(frameData.spriteSize.value);
      var spriteOffset := ParsePoint(frameData.spriteOffset.value);
      var spriteSourceSize := ParsePoint(frameData.spriteSourceSize.value);
      ghost var done := decoded.Keys - todo;
      frames := frames[frameKey := PhaserFrame(
        Rect(textureRect.x, textureRect.y, textureRect.w, textureRect.h),
        Size(spriteSourceSize.x, spriteSourceSize.y),
        Rect(Int(0), Int(0), spriteSourceSize.x, spriteSourceSize.y),
        Point(spriteOffset.x, spriteOffset.y),
        frameData.textureRotated,
        frameData.spriteTrimmed)];
      todo := todo - {frameKey};
      assert decoded.Keys - todo == done + {frameKey};
      FramesStep(decoded, done, frameKey);
    }
    assert decoded.Keys - todo == decoded.Keys;
    r := Some(frames);
  }

  lemma FramesStep(frames: map<string, DecodedFrame>, done: set<string>, k: string)
    requires k in frames && FrameReady(frames[k])
    requires forall j :: j in frames && j in done ==> FrameReady(frames[j])
    ensures FramesSoFar(frames, done + {k}) == FramesSoFar(frames, done)[k := FrameOf(frames[k])]
  {
  }

  /**
   * Whatever the strings hold: the frame is the parsed rectangle, the
   * offset the parsed offset with its sign, the source size and the trim
   * box both have the parsed `spriteSourceSize`, the trim box starts at the
   * origin, and the flags are copied.
   */
  lemma FrameShape(f: DecodedFrame)
    requires FrameReady(f)
    ensures var p := FrameOf(f); var rect := ParseRectangle(f.textureRect.value);
      && p.frame == Rect(rect.x, rect.y, rect.w, rect.h)
      && p.offset == ParsePoint(f.spriteOffset.value)
      && Point(p.sourceSize.w, p.sourceSize.h) == ParsePoint(f.spriteSourceSize.value)
      && p.spriteSourceSize.x == Int(0) && p.spriteSourceSize.y == Int(0)
      && p.spriteSourceSize.w == p.sourceSize.w && p.spriteSourceSize.h == p.sourceSize.h
      && p.rotated == f.textureRotated && p.trimmed == f.spriteTrimmed
  {
  }

  /** A frame printed from integers is read back: rectangle, source size and signed offset. */
  lemma FrameReads(x: int, y: int, w: int, h: int, sw: int, sh: int, ox: int, oy: int, pad: string,
                   spriteSize: string, rotated: Option<bool>, trimmed: Option<bool>)
    requires Text.AllSpaces(pad)
    ensures var f := DecodedFrame(Some(FormatRect(x, y, w, h, pad)), Some(spriteSize), Some(FormatPoint(ox, oy, pad)),
                                  Some(FormatPoint(sw, sh, pad)), rotated, trimmed);
      FrameOf(f) == PhaserFrame(Rect(Int(x), Int(y), Int(w), Int(h)), Size(Int(sw), Int(sh)),
                                Rect(Int(0), Int(0), Int(sw), Int(sh)), Point(Int(ox), Int(oy)), rotated, trimmed)
  {
    ParseRectangleReads(x, y, w, h, pad);
    ParsePointReads(ox, oy, pad);
    ParsePointReads(sw, sh, pad);
  }

  /** A printed atlas size is read back into `meta.size`. */
  lemma MetaReads(w: int, h: int, pad: string, target: Target)
    requires Text.AllSpaces(pad)
    ensures MetaOf(DecodedMetadata(Some(FormatPoint(w, h, pad)), Some(target)))
         == PhaserMeta(target.textureFileName + target.textureFileExtension, "RGBA8888", Size(Int(w), Int(h)), 1)
  {
    ParsePointReads(w, h, pad);
  }
}
