/**
 * The tree the `plist` library hands to phaser.js and pixijs.js: a `frames`
 * dictionary of per-frame dictionaries and a `metadata` dictionary. An entry
 * the file does not have is `undefined` in JavaScript, `None` here.
 */
module DecodedPlist {
  import opened Results

  datatype DecodedFrame = DecodedFrame(
    textureRect: Option<string>,
    spriteSize: Option<string>,
    spriteOffset: Option<string>,
    spriteSourceSize: Option<string>,
    textureRotated: Option<bool>,
    spriteTrimmed: Option<bool>)

  /** `metadata.target`: the texture file's name and extension. */
  datatype Target = Target(textureFileName: string, textureFileExtension: string)

  datatype DecodedMetadata = DecodedMetadata(size: Option<string>, target: Option<Target>)

  datatype Plist = Plist(frames: map<string, DecodedFrame>, metadata: DecodedMetadata)

  /**
   * The `TypeError` a script dies with when it calls `replace` on a missing
   * string or reads a property of a missing `target`.
   */
  datatype DecodeError = MissingEntry

  /** `target.textureFileName + target.textureFileExtension`. */
  function TextureName(t: Target): string {
    t.textureFileName + t.textureFileExtension
  }
}
