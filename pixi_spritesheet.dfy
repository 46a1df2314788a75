/**
 * `convertPlistToPixiSpritesheet` of pixijs.js: every decoded frame becomes
 * a PixiJS spritesheet frame, sized from `spriteSize` and placed at the
 * offset, read with the lenient `parseRectangle`/`parsePoint`; a missing
 * geometry string or a missing `target` or `size` throws.
 */
module PixiSpritesheet {
  import opened Results
  import opened Geometry
  import opened JsNumber
  import opened DecodedPlist
  import Text

  datatype SheetFrame = SheetFrame(
    frame: Rect<Num>,
    sourceSize: Size<Num>,
    spriteSourceSize: Rect<Num>,
    rotated: Option<bool>,
    trimmed: Option<bool>)

  /** `size` is `parsePoint`'s result as it is, so its keys are `x` and `y`. */
  datatype SheetMeta = SheetMeta(app: string, version: string, image: string, format: string, size: Point<Num>, scale: string)

  datatype Spritesheet = Spritesheet(frames: map<string, SheetFrame>, meta: SheetMeta)

  /** The three strings the loop body parses; `spriteSourceSize` is not read. */
  predicate FrameReady(f: DecodedFrame) {
    f.textureRect.Some? && f.spriteSize.Some? && f.spriteOffset.Some?
  }

  predicate PlistReady(p: Plist) {
    p.metadata.target.Some? && p.metadata.size.Some? && forall k :: k in p.frames ==> FrameReady(p.frames[k])
  }

  /** One frame: the texture rectangle, the sprite size, and the trim box at the offset with the sprite size. */
  function FrameOf(f: DecodedFrame): SheetFrame
    requires FrameReady(f)
  {
    var textureRect := ParseRectangle(f.textureRect.value);
    var spriteSize := ParsePoint(f.spriteSize.value);
    var spriteOffset := ParsePoint(f.spriteOffset.value);
    SheetFrame(
      Rect(textureRect.x, textureRect.y, textureRect.w, textureRect.h),
      Size(spriteSize.x, spriteSize.y),
      Rect(spriteOffset.x, spriteOffset.y, spriteSize.x, spriteSize.y),
      f.textureRotated,
      f.spriteTrimmed)
  }

  function MetaOf(m: DecodedMetadata): SheetMeta
    requires m.target.Some? && m.size.Some?
  {
    SheetMeta("PixiJS", "1.0.0", TextureName(m.target.value), "RGBA8888", ParsePoint(m.size.value), "1")
  }

  ghost function FramesSoFar(frames: map<string, DecodedFrame>, done: set<string>): map<string, SheetFrame>
    requires forall k :: k in frames && k in done ==> FrameReady(frames[k])
  {
    map k | k in frames && k in done :: FrameOf(frames[k])
  }

  /**
   * The conversion: `MissingEntry` exactly when something it reads is
   * missing; otherwise one frame per decoded frame, under the same name.
   */
  method ConvertPlistToPixiSpritesheet(plist: Plist) returns (r: Result<Spritesheet, DecodeError>)
    ensures r.Failure? <==> !PlistReady(plist)
    ensures r.Success? ==> r.value.frames.Keys == plist.frames.Keys
    ensures r.Success? ==> forall k :: k in plist.frames ==> r.value.frames[k] == FrameOf(plist.frames[k])
    ensures r.Success? ==> r.value.meta == MetaOf(plist.metadata)
  {
    if plist.metadata.target.None? {
      return Failure(MissingEntry);
    }
    var textureName := TextureName(plist.metadata.target.value);
    if plist.metadata.size.None? {
      return Failure(MissingEntry);
    }
    var meta := SheetMeta("PixiJS", "1.0.0", textureName, "RGBA8888", ParsePoint(plist.metadata.size.value), "1");
    var frames := ConvertFrames(plist.frames);
    if frames.None? {
      return Failure(MissingEntry);
    }
    r := Success(Spritesheet(frames.value, meta));
  }

  /** The `for…of` loop over the decoded frames: `None` when one of them lacks a string the body parses. */
  method ConvertFrames(decoded: map<string, DecodedFrame>) returns (r: Option<map<string, SheetFrame>>)
    ensures r.None? <==> exists k :: k in decoded && !FrameReady(decoded[k])
    ensures r.Some? ==> r.value.Keys == decoded.Keys
    ensures r.Some? ==> forall k :: k in decoded ==> r.value[k] == FrameOf(decoded[k])
  {
    var frames: map<string, SheetFrame> := map[];
    var todo := decoded.Keys;
    while todo != {}
      invariant todo <= decoded.Keys
      invariant forall k :: k in decoded && k !in todo ==> FrameReady(decoded[k])
      invariant frames == FramesSoFar(decoded, decoded.Keys - todo)
      decreases |todo|
    {
      var frameKey :| frameKey in todo;
      var frameData := decoded[frameKey];
      if frameData.textureRect.None? || frameData.spriteSize.None? || frameData.spriteOffset.None? {
        return None;
      }
      var textureRect := ParseRectangle(frameData.textureRect.value);
      var spriteSize := ParsePoint(frameData.spriteSize.value);
      var spriteOffset := ParsePoint(frameData.spriteOffset.value);
      ghost var done := decoded.Keys - todo;
      frames := frames[frameKey := SheetFrame(
        Rect(textureRect.x, textureRect.y, textureRect.w, textureRect.h),
        Size(spriteSize.x, spriteSize.y),
        Rect(spriteOffset.x, spriteOffset.y, spriteSize.x, spriteSize.y),
        frameData.textureRotated,
        frameData.spriteTrimmed)];
      todo := todo - {frameKey};
      assert decoded.Keys - todo == done + {frameKey};
      FramesStep(decoded, done, frameKey);
    }
    assert decoded.Keys - todo == decoded.Keys;
    r := Some(frames);
  }

  lemma FramesStep(frames: map<string, DecodedFrame>, done: set<string>, k: string)
    requires k in frames && FrameReady(frames[k])
    requires forall j :: j in frames && j in done ==> FrameReady(frames[j])
    ensures FramesSoFar(frames, done + {k}) == FramesSoFar(frames, done)[k := FrameOf(frames[k])]
  {
  }

  /**
   * Whatever the strings hold: the frame is the parsed rectangle, the
   * source size is the parsed `spriteSize`, the trim box has that size and
   * starts at the parsed offset, and the flags are copied.
   */
  lemma FrameShape(f: DecodedFrame)
    requires FrameReady(f)
    ensures var p := FrameOf(f); var rect := ParseRectangle(f.textureRect.value);
      && p.frame == Rect(rect.x, rect.y, rect.w, rect.h)
      && Point(p.sourceSize.w, p.sourceSize.h) == ParsePoint(f.spriteSize.value)
      && p.spriteSourceSize.w == p.sourceSize.w && p.spriteSourceSize.h == p.sourceSize.h
      && Point(p.spriteSourceSize.x, p.spriteSourceSize.y) == ParsePoint(f.spriteOffset.value)
      && p.rotated == f.textureRotated && p.trimmed == f.spriteTrimmed
  {
  }

  /** A frame printed from integers is read back; `spriteSourceSize` plays no part. */
  lemma FrameReads(x: int, y: int, w: int, h: int, sw: int, sh: int, ox: int, oy: int, pad: string,
                   spriteSourceSize: Option<string>, rotated: Option<bool>, trimmed: Option<bool>)
    requires Text.AllSpaces(pad)
    ensures var f := DecodedFrame(Some(FormatRect(x, y, w, h, pad)), Some(FormatPoint(sw, sh, pad)), Some(FormatPoint(ox, oy, pad)),
                                  spriteSourceSize, rotated, trimmed);
      FrameOf(f) == SheetFrame(Rect(Int(x), Int(y), Int(w), Int(h)), Size(Int(sw), Int(sh)),
                               Rect(Int(ox), Int(oy), Int(sw), Int(sh)), rotated, trimmed)
  {
    ParseRectangleReads(x, y, w, h, pad);
    ParsePointReads(ox, oy, pad);
    ParsePointReads(sw, sh, pad);
  }

  /** A printed atlas size is read back into `meta.size`, under the keys `x` and `y`. */
  lemma MetaReads(w: int, h: int, pad: string, target: Target)
    requires Text.AllSpaces(pad)
    ensures MetaOf(DecodedMetadata(Some(FormatPoint(w, h, pad)), Some(target)))
         == SheetMeta("PixiJS", "1.0.0", target.textureFileName + target.textureFileExtension, "RGBA8888", Point(Int(w), Int(h)), "1")
  {
    ParsePointReads(w, h, pad);
  }
}
