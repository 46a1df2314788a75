/**
 * The geometry patterns main.js matches against the extracted strings:
 * `\{(\d+),\s*(\d+)\}` for sizes, `\{(-?\d+),\s*(-?\d+)\}` for offsets and
 * `\{\{(\d+),\s*(\d+)\},\s*\{\s*(\d+),\s*(\d+)\}\}` for texture rectangles.
 * Each is a prefix reader returning the captured integers and the text
 * after the match; `String.prototype.match` is the leftmost position where
 * the reader succeeds.
 */
module PointScan {
  import opened Results
  import opened Text
  import opened Decimal
  import opened Geometry

  /** One literal character at the start of `t`, and the text after it. */
  function Char(t: string, c: char): (r: Option<string>)
    ensures r.Some? ==> |r.value| < |t|
  {
    if t != [] && t[0] == c then Some(t[1..]) else None
  }

  /** Greedy `\s*` at the start of `t`: the text after it. */
  function Spaces(t: string): (r: string)
    ensures |r| <= |t|
  {
    t[SkipSpaces(t, 0)..]
  }

  /** `\d+` or, when `signed`, `-?\d+` at the start of `t`, read with `parseInt`. */
  function Number(t: string, signed: bool): (r: Option<(int, string)>)
    ensures r.Some? && !signed ==> r.value.0 >= 0
  {
    if signed then SInt(t)
    else match UInt(t)
      case None => None
      case Some((v, rest)) => Some((v as int, rest))
  }

  /** `\{(N),\s*(N)\}` at the start of `t`, with `N` signed or not. */
  function PointPrefix(t: string, signed: bool): Option<(Point<int>, string)> {
    match Char(t, '{')
    case None => None
    case Some(t1) =>
      match Number(t1, signed)
      case None => None
      case Some((a, t2)) =>
        match Char(t2, ',')
        case None => None
        case Some(t3) =>
          match Number(Spaces(t3), signed)
          case None => None
          case Some((b, t4)) =>
            match Char(t4, '}')
            case None => None
            case Some(t5) => Some((Point(a, b), t5))
  }

  /** `\{\{(\d+),\s*(\d+)\},\s*\{\s*(\d+),\s*(\d+)\}\}` at the start of `t`. */
  function RectPrefix(t: string): Option<(Rect<int>, string)> {
    match Char(t, '{')
    case None => None
    case Some(t1) =>
      match PointPrefix(t1, false)
      case None => None
      case Some((o, t2)) =>
        match Char(t2, ',')
        case None => None
        case Some(t3) =>
          match Char(Spaces(t3), '{')
          case None => None
          case Some(t4) =>
            match Number(Spaces(t4), false)
            case None => None
            case Some((w, t5)) =>
              match Char(t5, ',')
              case None => None
              case Some(t6) =>
                match Number(Spaces(t6), false)
                case None => None
                case Some((h, t7)) =>
                  match Char(t7, '}')
                  case None => None
                  case Some(t8) =>
                    match Char(t8, '}')
                    case None => None
                    case Some(t9) => Some((Rect(o.x, o.y, w, h), t9))
  }

  function PointMatcher(s: string, signed: bool): nat -> Option<Point<int>> {
    (p: nat) =>
      if p <= |s| then
        match PointPrefix(s[p..], signed)
        case None => None
        case Some((v, _)) => Some(v)
      else None
  }

  function RectMatcher(s: string): nat -> Option<Rect<int>> {
    (p: nat) =>
      if p <= |s| then
        match RectPrefix(s[p..])
        case None => None
        case Some((v, _)) => Some(v)
      else None
  }

  /** `s.match(point pattern)`: the integers of the leftmost match. */
  function FindPoint(s: string, signed: bool): Option<Point<int>> {
    match Leftmost(PointMatcher(s, signed), 0, |s|)
    case None => None
    case Some(f) => Some(f.value)
  }

  /** `s.match(rectangle pattern)`: the integers of the leftmost match. */
  function FindRect(s: string): Option<Rect<int>> {
    match Leftmost(RectMatcher(s), 0, |s|)
    case None => None
    case Some(f) => Some(f.value)
  }

  /** The unsigned patterns never capture a negative number. */
  lemma PointPrefixUnsigned(t: string)
    ensures PointPrefix(t, false).Some? ==> PointPrefix(t, false).value.0.x >= 0 && PointPrefix(t, false).value.0.y >= 0
  {
  }

  /** The unsigned point pattern finds only non-negative points. */
  lemma FindPointUnsigned(s: string)
    ensures FindPoint(s, false).Some? ==> FindPoint(s, false).value.x >= 0 && FindPoint(s, false).value.y >= 0
  {
    var m := Leftmost(PointMatcher(s, false), 0, |s|);
    if m.Some? {
      PointPrefixUnsigned(s[m.value.pos..]);
    }
  }

  /** The rectangle pattern finds only non-negative integers. */
  lemma FindRectUnsigned(s: string)
    ensures FindRect(s).Some? ==> var r := FindRect(s).value; r.x >= 0 && r.y >= 0 && r.w >= 0 && r.h >= 0
  {
    var m := Leftmost(RectMatcher(s), 0, |s|);
    if m.Some? {
      var t := s[m.value.pos..];
      PointPrefixUnsigned(t[1..]);
    }
  }

  /** Whitespace then more text: `\s*` consumes exactly the whitespace. */
  lemma SpacesOver(pad: string, t: string)
    requires AllSpaces(pad)
    requires t == [] || !IsSpace(t[0])
    ensures Spaces(pad + t) == t
  {
    var s := pad + t;
    forall j | 0 <= j < |pad| ensures IsSpace(s[j]) {
      assert s[j] == pad[j];
    }
    SkipPast(s, 0, |pad|);
    assert s[|pad|..] == t;
  }

  /** The number pattern reads a printed integer back and stops where it ends. */
  lemma NumberReads(n: int, signed: bool, t: string)
    requires signed || n >= 0
    requires t == [] || !IsDigit(t[0])
    ensures Number(IntStr(n) + t, signed) == Some((n, t))
  {
    if signed {
      SIntReadsIntStr(n, t);
    } else {
      UIntReadsNatStr(n, t);
    }
  }

  /** `c` followed by `t`: the character is consumed and `t` is left. */
  lemma CharCons(c: char, t: string)
    ensures Char([c] + t, c) == Some(t)
  {
    assert ([c] + t)[1..] == t;
  }

  /** The point pattern succeeds when each of its steps does. */
  lemma PointPrefixSteps(t: string, signed: bool, t1: string, a: int, t2: string, t3: string, b: int, t4: string, t5: string)
    requires Char(t, '{') == Some(t1) && Number(t1, signed) == Some((a, t2)) && Char(t2, ',') == Some(t3)
    requires Number(Spaces(t3), signed) == Some((b, t4)) && Char(t4, '}') == Some(t5)
    ensures PointPrefix(t, signed) == Some((Point(a, b), t5))
  {
  }

  /** The rectangle pattern succeeds when each of its steps does. */
  lemma RectPrefixSteps(t: string, t1: string, o: Point<int>, t2: string, t3: string, t4: string, w: int, t5: string,
                        t6: string, h: int, t7: string, t8: string, t9: string)
    requires Char(t, '{') == Some(t1) && PointPrefix(t1, false) == Some((o, t2)) && Char(t2, ',') == Some(t3)
    requires Char(Spaces(t3), '{') == Some(t4) && Number(Spaces(t4), false) == Some((w, t5)) && Char(t5, ',') == Some(t6)
    requires Number(Spaces(t6), false) == Some((h, t7)) && Char(t7, '}') == Some(t8) && Char(t8, '}') == Some(t9)
    ensures RectPrefix(t) == Some((Rect(o.x, o.y, w, h), t9))
  {
  }

  lemma FormatPointSplit(a: int, b: int, pad: string, t: string)
    ensures FormatPoint(a, b, pad) + t == ['{'] + (IntStr(a) + ([','] + (pad + (IntStr(b) + (['}'] + t)))))
  {
  }

  lemma FormatRectSplit(x: int, y: int, w: int, h: int, pad: string, t: string)
    ensures FormatRect(x, y, w, h, pad) + t
         == ['{'] + (FormatPoint(x, y, pad) + ([','] + (pad + (FormatPoint(w, h, pad) + (['}'] + t)))))
  {
    var a, b := FormatPoint(x, y, pad), FormatPoint(w, h, pad);
    calc {
      FormatRect(x, y, w, h, pad) + t;
      ((((['{'] + a) + [',']) + pad) + b + ['}']) + t;
      { Assoc5(['{'], a, [','], pad, b, ['}'], t); }
      ['{'] + (a + ([','] + (pad + (b + (['}'] + t)))));
    }
  }

  lemma Assoc5(p: string, a: string, q: string, pad: string, b: string, c: string, t: string)
    ensures ((((p + a) + q) + pad) + b + c) + t == p + (a + (q + (pad + (b + (c + t)))))
  {
  }

  /** `{a,<pad>b}` followed by any text is read back as the point (a, b). */
  lemma PointPrefixReads(a: int, b: int, pad: string, t: string, signed: bool)
    requires AllSpaces(pad)
    requires signed || (a >= 0 && b >= 0)
    ensures PointPrefix(FormatPoint(a, b, pad) + t, signed) == Some((Point(a, b), t))
  {
    var sb := IntStr(b);
    var t4 := ['}'] + t;
    var t3 := pad + (sb + t4);
    var t2 := [','] + t3;
    var t1 := IntStr(a) + t2;
    FormatPointSplit(a, b, pad, t);
    CharCons('{', t1);
    NumberReads(a, signed, t2);
    CharCons(',', t3);
    SpacesOver(pad, sb + t4);
    NumberReads(b, signed, t4);
    CharCons('}', t);
    PointPrefixSteps(FormatPoint(a, b, pad) + t, signed, t1, a, t2, t3, b, t4, t);
  }

  /** `{{x,<pad>y},<pad>{w,<pad>h}}` followed by any text is read back as the rectangle. */
  lemma RectPrefixReads(x: nat, y: nat, w: nat, h: nat, pad: string, t: string)
    requires AllSpaces(pad)
    ensures RectPrefix(FormatRect(x, y, w, h, pad) + t) == Some((Rect(x as int, y as int, w as int, h as int), t))
  {
    var sh := IntStr(h);
    var t8 := ['}'] + t;
    var t7 := ['}'] + t8;
    var t6 := pad + (sh + t7);
    var t5 := [','] + t6;
    var t4 := IntStr(w) + t5;
    var t3 := pad + (FormatPoint(w, h, pad) + t8);
    var t2 := [','] + t3;
    var t1 := FormatPoint(x, y, pad) + t2;
    FormatRectSplit(x, y, w, h, pad, t);
    FormatPointSplit(w, h, pad, t8);
    assert FormatPoint(w, h, pad) + t8 == ['{'] + t4;
    CharCons('{', t1);
    PointPrefixReads(x, y, pad, t2, false);
    CharCons(',', t3);
    SpacesOver(pad, ['{'] + t4);
    CharCons('{', t4);
    SpacesOver([], t4);
    assert [] + t4 == t4;
    NumberReads(w, false, t5);
    CharCons(',', t6);
    SpacesOver(pad, sh + t7);
    NumberReads(h, false, t7);
    CharCons('}', t8);
    CharCons('}', t);
    RectPrefixSteps(FormatRect(x, y, w, h, pad) + t, t1, Point(x as int, y as int), t2, t3, t4, w, t5, t6, h, t7, t8, t);
  }

  /** A point pattern matching at the very start is the one `match` reports. */
  lemma FindPointAtStart(s: string, signed: bool, v: Point<int>, rest: string)
    requires PointPrefix(s, signed) == Some((v, rest))
    ensures FindPoint(s, signed) == Some(v)
  {
    assert s[0..] == s;
    assert PointMatcher(s, signed)(0) == Some(v);
    LeftmostAtFrom(PointMatcher(s, signed), 0, |s|);
  }

  /** A rectangle pattern matching at the very start is the one `match` reports. */
  lemma FindRectAtStart(s: string, v: Rect<int>, rest: string)
    requires RectPrefix(s) == Some((v, rest))
    ensures FindRect(s) == Some(v)
  {
    assert s[0..] == s;
    assert RectMatcher(s)(0) == Some(v);
    LeftmostAtFrom(RectMatcher(s), 0, |s|);
  }

  /** A printed point is found at its start. */
  lemma FindPointReads(a: int, b: int, pad: string, signed: bool)
    requires AllSpaces(pad)
    requires signed || (a >= 0 && b >= 0)
    ensures FindPoint(FormatPoint(a, b, pad), signed) == Some(Point(a, b))
  {
    var s := FormatPoint(a, b, pad);
    PointPrefixReads(a, b, pad, [], signed);
    assert s + [] == s;
    FindPointAtStart(s, signed, Point(a, b), []);
  }

  /** A printed rectangle is found at its start. */
  lemma FindRectReads(x: nat, y: nat, w: nat, h: nat, pad: string)
    requires AllSpaces(pad)
    ensures FindRect(FormatRect(x, y, w, h, pad)) == Some(Rect(x as int, y as int, w as int, h as int))
  {
    RectPrefixWhole(x, y, w, h, pad);
    FindRectAtStart(FormatRect(x, y, w, h, pad), Rect(x as int, y as int, w as int, h as int), []);
  }

  lemma RectPrefixWhole(x: nat, y: nat, w: nat, h: nat, pad: string)
    requires AllSpaces(pad)
    ensures RectPrefix(FormatRect(x, y, w, h, pad)) == Some((Rect(x as int, y as int, w as int, h as int), []))
  {
    var s := FormatRect(x, y, w, h, pad);
    assert s + [] == s;
    RectPrefixReads(x, y, w, h, pad, []);
  }
}
