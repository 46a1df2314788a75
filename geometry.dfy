/**
 * Atlas geometry values and the way a texture packer prints them into a
 * plist: points and sizes as `{a,b}`, rectangles as `{{x,y},{w,h}}`.
 */
module Geometry {
  import opened Text
  import opened Decimal

  datatype Point<N> = Point(x: N, y: N)
  datatype Size<N> = Size(w: N, h: N)
  datatype Rect<N> = Rect(x: N, y: N, w: N, h: N)

  /** `{a,b}` with `pad` (whitespace, possibly none) after the comma. */
  function FormatPoint(a: int, b: int, pad: string): string {
    "{" + IntStr(a) + "," + pad + IntStr(b) + "}"
  }

  /** `{{x,y},{w,h}}` with `pad` after each comma. */
  function FormatRect(x: int, y: int, w: int, h: int, pad: string): string {
    "{" + FormatPoint(x, y, pad) + "," + pad + FormatPoint(w, h, pad) + "}"
  }
}
