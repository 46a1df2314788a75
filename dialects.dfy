/**
 * How the three converters relate: the two plist-library scripts agree on
 * everything but the source size, and on well-formed integer geometry the
 * text-scanning converter of main.js and the PixiJS spritesheet script
 * produce the same frame.
 */
module Dialects {
  import opened Results
  import opened Text
  import opened Geometry
  import opened JsNumber
  import opened DecodedPlist
  import FrameScan
  import PixiConvert
  import PhaserAtlas
  import PixiSpritesheet

  /** Whenever the Phaser conversion has what it needs, so does the PixiJS one. */
  lemma PhaserReadyIsSheetReady(p: Plist)
    ensures PhaserAtlas.PlistReady(p) ==> PixiSpritesheet.PlistReady(p)
  {
  }

  /**
   * Per frame, the two scripts agree on the texture rectangle, the Phaser
   * offset is the PixiJS trim-box origin, and the source sizes agree
   * when `spriteSize` and `spriteSourceSize` hold the same text.
   */
  lemma FramesAgree(f: DecodedFrame)
    requires PhaserAtlas.FrameReady(f)
    ensures var ph := PhaserAtlas.FrameOf(f); var px := PixiSpritesheet.FrameOf(f);
      && ph.frame == px.frame
      && ph.offset == Point(px.spriteSourceSize.x, px.spriteSourceSize.y)
      && (f.spriteSize == f.spriteSourceSize ==> ph.sourceSize == px.sourceSize)
  {
  }

  /** A text-scanned PixiJS frame in the number and flag form of the spritesheet script. */
  function Lift(p: PixiConvert.PixiFrame): (r: PixiSpritesheet.SheetFrame)
    ensures r.rotated == Some(p.rotated) && r.trimmed == Some(p.trimmed)
  {
    PixiSpritesheet.SheetFrame(
      Rect(Int(p.frame.x), Int(p.frame.y), Int(p.frame.w), Int(p.frame.h)),
      Size(Int(p.sourceSize.w), Int(p.sourceSize.h)),
      Rect(Int(p.spriteSourceSize.x), Int(p.spriteSourceSize.y), Int(p.spriteSourceSize.w), Int(p.spriteSourceSize.h)),
      Some(p.rotated),
      Some(p.trimmed))
  }

  /**
   * On a frame printed from integers, the strict patterns of main.js and the
   * lenient parse of pixijs.js give the same PixiJS frame, taking the
   * source size from the same `{w,h}` text.
   */
  lemma TextScanAgreesWithSpritesheet(x: nat, y: nat, w: nat, h: nat, sw: nat, sh: nat, ox: int, oy: int, pad: string,
                                      trimmed: bool, rotated: bool)
    requires AllSpaces(pad)
    ensures var rect, size, offset := FormatRect(x, y, w, h, pad), FormatPoint(sw, sh, pad), FormatPoint(ox, oy, pad);
      var scanned := PixiConvert.ParseFrame(FrameScan.ScannedFrame(rect, size, offset, trimmed, rotated));
      var decoded := DecodedFrame(Some(rect), Some(size), Some(offset), Some(size), Some(rotated), Some(trimmed));
      scanned.Success? && PixiSpritesheet.FrameOf(decoded) == Lift(scanned.value)
  {
    PixiConvert.ParseFrameReads(x, y, w, h, sw, sh, ox, oy, pad, trimmed, rotated);
    PixiSpritesheet.FrameReads(x, y, w, h, sw, sh, ox, oy, pad, Some(FormatPoint(sw, sh, pad)), Some(rotated), Some(trimmed));
  }
}
