/**
 * The lenient geometry parsing of phaser.js and pixijs.js:
 * `str.replace(/[{}]/g, '').split(',').map(Number)`, then the parts taken by
 * position. JavaScript's `Number` on a string is modelled for the integer
 * numerals a plist carries; every other numeric outcome is left abstract.
 */
module JsNumber {
  import opened Results
  import opened Text
  import opened Decimal
  import opened Geometry

  /**
   * A JavaScript value read out of the parts array: an integer, some other
   * number the model does not compute (a fraction, an exponent, a hex
   * literal, `Infinity` or `NaN`), or `undefined` past the end of the array.
   */
  datatype Num = Int(value: int) | Unmodelled | Undefined

  /** `replace(/[{}]/g, '')`: every brace removed. */
  function RemoveBraces(s: string): (r: string)
    ensures |r| <= |s|
  {
    if s == [] then []
    else if s[0] == '{' || s[0] == '}' then RemoveBraces(s[1..])
    else [s[0]] + RemoveBraces(s[1..])
  }

  predicate NoBraces(s: string) {
    '{' !in s && '}' !in s
  }

  /** What is left has no braces, and brace-free text is left as it is. */
  lemma {:induction false} RemoveBracesSound(s: string)
    ensures NoBraces(RemoveBraces(s))
    ensures NoBraces(s) ==> RemoveBraces(s) == s
  {
    if s != [] {
      RemoveBracesSound(s[1..]);
      if NoBraces(s) {
        assert s[0] != '{' && s[0] != '}';
        assert NoBraces(s[1..]) by {
          forall c | c in s[1..] ensures c != '{' && c != '}' {
            assert c in s;
          }
        }
        assert s == [s[0]] + s[1..];
      }
    }
  }

  /** Removing braces works piece by piece. */
  lemma {:induction false} RemoveBracesJoin(a: string, b: string)
    ensures RemoveBraces(a + b) == RemoveBraces(a) + RemoveBraces(b)
  {
    if a != [] {
      assert (a + b)[1..] == a[1..] + b;
      RemoveBracesJoin(a[1..], b);
    } else {
      assert a + b == b;
    }
  }

  /** `split(sep)`: the pieces between separators, always at least one. */
  function Split(s: string, sep: char): (r: seq<string>)
    ensures |r| >= 1
  {
    if s == [] then [[]]
    else
      var rest := Split(s[1..], sep);
      if s[0] == sep then [[]] + rest else [[s[0]] + rest[0]] + rest[1..]
  }

  /** `join(sep)`, the inverse of `split`. */
  function Join(parts: seq<string>, sep: char): string
    requires |parts| >= 1
  {
    if |parts| == 1 then parts[0] else parts[0] + [sep] + Join(parts[1..], sep)
  }

  /** Joining the pieces gives the text back. */
  lemma {:induction false} JoinSplit(s: string, sep: char)
    ensures Join(Split(s, sep), sep) == s
  {
    if s != [] {
      JoinSplit(s[1..], sep);
      var rest := Split(s[1..], sep);
      if s[0] == sep {
        assert Split(s, sep)[1..] == rest;
      } else {
        var r := Split(s, sep);
        if |rest| == 1 {
          assert r == [[s[0]] + rest[0]];
        } else {
          assert r[1..] == rest[1..];
          assert Join(r, sep) == [s[0]] + rest[0] + [sep] + Join(rest[1..], sep);
        }
      }
      assert s == [s[0]] + s[1..];
    }
  }

  /** Splitting pieces that hold no separator gives the pieces back. */
  lemma {:induction false} SplitJoin(parts: seq<string>, sep: char)
    requires |parts| >= 1
    requires forall i :: 0 <= i < |parts| ==> sep !in parts[i]
    ensures Split(Join(parts, sep), sep) == parts
    decreases |parts|, |parts[0]|
  {
    var p := parts[0];
    if p == [] {
      if |parts| > 1 {
        SplitJoin(parts[1..], sep);
        var s := Join(parts, sep);
        assert s == [sep] + Join(parts[1..], sep);
        assert s[1..] == Join(parts[1..], sep);
        assert parts == [[]] + parts[1..];
      }
    } else {
      var parts' := [p[1..]] + parts[1..];
      assert sep !in p[1..] by {
        forall c | c in p[1..] ensures c != sep {
          assert c in p;
        }
      }
      SplitJoin(parts', sep);
      var s := Join(parts, sep);
      assert parts'[1..] == parts[1..];
      assert s == [p[0]] + Join(parts', sep);
      assert s[1..] == Join(parts', sep);
      assert p == [p[0]] + p[1..];
    }
  }

  /** The numeral the model reads: an optional sign and at least one digit. */
  predicate IsIntNumeral(t: string) {
    (AllDigits(t) && t != []) || (|t| >= 2 && (t[0] == '-' || t[0] == '+') && AllDigits(t[1..]))
  }

  /**
   * `Number(str)`: surrounding whitespace is ignored, the empty string is
   * 0, an optionally signed digit string is that integer.
   */
  function ToNumber(s: string): (r: Num)
    ensures r != Undefined
  {
    var t := Trim(s);
    if t == [] then Int(0)
    else if AllDigits(t) then Int(DigitsValue(t))
    else if |t| >= 2 && t[0] == '-' && AllDigits(t[1..]) then Int(0 - DigitsValue(t[1..]))
    else if |t| >= 2 && t[0] == '+' && AllDigits(t[1..]) then Int(DigitsValue(t[1..]))
    else Unmodelled
  }

  /** `ToNumber` gives an integer exactly for blank text and for the numerals it reads. */
  lemma ToNumberInt(s: string)
    ensures ToNumber(s).Int? <==> Trim(s) == [] || IsIntNumeral(Trim(s))
  {
  }

  /** A printed integer after whitespace is read back. */
  lemma ToNumberReads(pad: string, n: int)
    requires AllSpaces(pad)
    ensures ToNumber(pad + IntStr(n)) == Int(n)
  {
    var t := IntStr(n);
    TrimPadded(pad, t);
    if n < 0 {
      assert t[1..] == NatStr(-n);
      NatStrRoundTrip(-n);
      assert !IsDigit(t[0]);
    } else {
      NatStrRoundTrip(n);
    }
  }

  /** The element at `i`, or `undefined` past the end. */
  function At(parts: seq<Num>, i: nat): Num {
    if i < |parts| then parts[i] else Undefined
  }

  /** The numbers of the comma-separated pieces, braces removed. */
  function Parts(s: string): (r: seq<Num>)
    ensures |r| == |Split(RemoveBraces(s), ',')|
  {
    var pieces := Split(RemoveBraces(s), ',');
    seq(|pieces|, i requires 0 <= i < |pieces| => ToNumber(pieces[i]))
  }

  /** `parsePoint`: the first two numbers. */
  function ParsePoint(s: string): Point<Num> {
    var parts := Parts(s);
    Point(At(parts, 0), At(parts, 1))
  }

  /** `parseRectangle`: the first four numbers as x, y, width and height. */
  function ParseRectangle(s: string): Rect<Num> {
    var parts := Parts(s);
    Rect(At(parts, 0), At(parts, 1), At(parts, 2), At(parts, 3))
  }

  /** No brace and no comma: text that `replace` keeps and `split(',')` does not cut. */
  predicate Plain(s: string) {
    forall i :: 0 <= i < |s| ==> s[i] != '{' && s[i] != '}' && s[i] != ','
  }

  lemma PlainNoBraces(s: string)
    requires Plain(s)
    ensures NoBraces(s) && ',' !in s
  {
    forall c | c in s ensures c != '{' && c != '}' && c != ',' {
      var i :| 0 <= i < |s| && s[i] == c;
    }
  }

  /** Printed integers and whitespace are plain. */
  lemma IntStrPlain(n: int)
    ensures Plain(IntStr(n))
  {
    if n < 0 {
      var t := IntStr(n);
      assert t[1..] == NatStr(-n);
      forall i | 1 <= i < |t| ensures IsDigit(t[i]) {
        assert t[i] == NatStr(-n)[i - 1];
      }
    }
  }

  lemma SpacesPlain(pad: string)
    requires AllSpaces(pad)
    ensures Plain(pad)
  {
  }

  /** Two pieces joined by a comma. */
  lemma JoinPair(a: string, b: string)
    ensures Join([a, b], ',') == a + [','] + b
  {
    assert [a, b][1..] == [b];
  }

  /** `{a,<pad>b}` loses its braces and splits into the two numerals, the second after its padding. */
  lemma PointPieces(a: int, b: int, pad: string)
    requires AllSpaces(pad)
    ensures Split(RemoveBraces(FormatPoint(a, b, pad)), ',') == [IntStr(a), pad + IntStr(b)]
  {
    var sa, sb := IntStr(a), pad + IntStr(b);
    PointText(a, b, pad);
    IntStrPlain(a);
    IntStrPlain(b);
    SpacesPlain(pad);
    assert Plain(sb);
    PlainNoBraces(sa);
    PlainNoBraces(sb);
    JoinPair(sa, sb);
    SplitJoin([sa, sb], ',');
  }

  /** Braces around text are dropped and the text inside treated as usual. */
  lemma RemoveBracesWrap(inner: string)
    ensures RemoveBraces(['{'] + inner + ['}']) == RemoveBraces(inner)
  {
    RemoveBracesJoin(['{'] + inner, ['}']);
    RemoveBracesJoin(['{'], inner);
    assert RemoveBraces(['}']) == [] by {
      assert ['}'][1..] == [];
    }
    assert RemoveBraces(['{']) == [] by {
      assert ['{'][1..] == [];
    }
  }

  /** The numbers of a list of pieces. */
  lemma PartsOf(s: string, pieces: seq<string>)
    requires Split(RemoveBraces(s), ',') == pieces
    ensures Parts(s) == seq(|pieces|, i requires 0 <= i < |pieces| => ToNumber(pieces[i]))
  {
  }

  /** `parsePoint` reads a printed point back. */
  lemma ParsePointReads(a: int, b: int, pad: string)
    requires AllSpaces(pad)
    ensures ParsePoint(FormatPoint(a, b, pad)) == Point(Int(a), Int(b))
  {
    PointPieces(a, b, pad);
    var parts := Parts(FormatPoint(a, b, pad));
    assert |parts| == 2;
    ToNumberReads([], a);
    assert [] + IntStr(a) == IntStr(a);
    ToNumberReads(pad, b);
    assert parts[0] == ToNumber(IntStr(a)) && parts[1] == ToNumber(pad + IntStr(b));
  }

  /** `{{x,<pad>y},<pad>{w,<pad>h}}` loses its braces and splits into four numerals. */
  lemma RectPieces(x: int, y: int, w: int, h: int, pad: string)
    requires AllSpaces(pad)
    ensures Split(RemoveBraces(FormatRect(x, y, w, h, pad)), ',') == [IntStr(x), pad + IntStr(y), pad + IntStr(w), pad + IntStr(h)]
  {
    var sx, sy, sw, sh := IntStr(x), pad + IntStr(y), pad + IntStr(w), pad + IntStr(h);
    RectText(x, y, w, h, pad);
    PointText(x, y, pad);
    PointText(w, h, pad);
    JoinFour(sx, sy, IntStr(w), pad, sh);
    IntStrPlain(x);
    IntStrPlain(y);
    IntStrPlain(w);
    IntStrPlain(h);
    SpacesPlain(pad);
    assert Plain(sy) && Plain(sw) && Plain(sh);
    PlainNoBraces(sx);
    PlainNoBraces(sy);
    PlainNoBraces(sw);
    PlainNoBraces(sh);
    SplitJoin([sx, sy, sw, sh], ',');
  }

  lemma JoinFour(sx: string, sy: string, w: string, pad: string, sh: string)
    ensures sx + [','] + sy + ([','] + pad) + (w + [','] + sh) == Join([sx, sy, pad + w, sh], ',')
  {
    var sw := pad + w;
    assert [sx, sy, sw, sh][1..] == [sy, sw, sh];
    assert [sy, sw, sh][1..] == [sw, sh];
    JoinPair(sw, sh);
  }

  /** Without its outer braces, a rectangle is its two points joined by a comma and the padding. */
  lemma RectText(x: int, y: int, w: int, h: int, pad: string)
    requires AllSpaces(pad)
    ensures RemoveBraces(FormatRect(x, y, w, h, pad))
         == RemoveBraces(FormatPoint(x, y, pad)) + ([','] + pad) + RemoveBraces(FormatPoint(w, h, pad))
  {
    var p1, p2 := FormatPoint(x, y, pad), FormatPoint(w, h, pad);
    var m := p1 + ([','] + pad) + p2;
    SpacesPlain(pad);
    PlainNoBraces(pad);
    calc {
      RemoveBraces(FormatRect(x, y, w, h, pad));
      { RectWrap(x, y, w, h, pad); }
      RemoveBraces(['{'] + m + ['}']);
      { RemoveBracesWrap(m); }
      RemoveBraces(m);
      { RemoveBracesJoin(p1 + ([','] + pad), p2); RemoveBracesJoin(p1, [','] + pad); }
      RemoveBraces(p1) + RemoveBraces([','] + pad) + RemoveBraces(p2);
      { RemoveBracesSound([','] + pad); }
      RemoveBraces(p1) + ([','] + pad) + RemoveBraces(p2);
    }
  }

  lemma RectWrap(x: int, y: int, w: int, h: int, pad: string)
    ensures FormatRect(x, y, w, h, pad)
         == ['{'] + (FormatPoint(x, y, pad) + ([','] + pad) + FormatPoint(w, h, pad)) + ['}']
  {
    Regroup("{", FormatPoint(x, y, pad), ",", pad, FormatPoint(w, h, pad), "}");
  }

  lemma Regroup(a: string, b: string, c: string, d: string, e: string, f: string)
    ensures a + b + c + d + e + f == a + (b + (c + d) + e) + f
  {
    assert a + b + c + d == a + (b + (c + d));
    assert a + (b + (c + d)) + e == a + (b + (c + d) + e);
  }

  /** Without its braces, `{a,<pad>b}` is `a,<pad>b`. */
  lemma PointText(a: int, b: int, pad: string)
    requires AllSpaces(pad)
    ensures RemoveBraces(FormatPoint(a, b, pad)) == IntStr(a) + [','] + (pad + IntStr(b))
  {
    var sa, sb := IntStr(a), IntStr(b);
    IntStrPlain(a);
    IntStrPlain(b);
    SpacesPlain(pad);
    var inner := sa + [','] + (pad + sb);
    assert FormatPoint(a, b, pad) == ['{'] + inner + ['}'];
    RemoveBracesWrap(inner);
    assert Plain(pad + sb);
    PlainNoBraces(sa);
    PlainNoBraces(pad + sb);
    RemoveBracesSound(inner);
  }

  /** `parseRectangle` reads a printed rectangle back. */
  lemma ParseRectangleReads(x: int, y: int, w: int, h: int, pad: string)
    requires AllSpaces(pad)
    ensures ParseRectangle(FormatRect(x, y, w, h, pad)) == Rect(Int(x), Int(y), Int(w), Int(h))
  {
    RectPieces(x, y, w, h, pad);
    var parts := Parts(FormatRect(x, y, w, h, pad));
    assert |parts| == 4;
    ToNumberReads([], x);
    assert [] + IntStr(x) == IntStr(x);
    ToNumberReads(pad, y);
    ToNumberReads(pad, w);
    ToNumberReads(pad, h);
  }

  /** Unlike the patterns of main.js, the lenient parse accepts `{}`: the empty piece is 0 and the second is missing. */
  lemma ParsePointEmptyBraces()
    ensures ParsePoint("{}") == Point(Int(0), Undefined)
  {
    assert RemoveBraces("{}") == [] by {
      assert "{}"[1..] == "}";
      assert "}"[1..] == [];
    }
    assert Trim([]) == [];
  }
}
