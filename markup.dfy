/**
 * The plist markup patterns the text-scan converter (main.js) shares:
 * an opening tag after optional whitespace with its body up to the first
 * closing tag, and `<key>K</key>` followed by such a tagged body.
 */
module Markup {
  import opened Results
  import opened Text

  /** Where a tagged body was found: opening tag at `open`, body `start..end`, match over at `after`. */
  datatype Capture = Capture(open: nat, start: nat, end: nat, after: nat)

  function KeyTag(key: string): string {
    "<key>" + key + "</key>"
  }

  /** The positions of a capture are in order and inside `s`. */
  predicate Fits(s: string, c: Capture) {
    c.open <= c.start <= c.end <= c.after <= |s|
  }

  /** Facts every capture of `openTag … closeTag` after position `q` satisfies. */
  ghost predicate IsTagBody(s: string, q: nat, openTag: string, closeTag: string, ignoreCase: bool, c: Capture) {
    && q <= c.open
    && LitAt(s, c.open, openTag, ignoreCase)
    && (forall j :: q <= j < c.open ==> IsSpace(s[j]))
    && c.start == c.open + |openTag| <= c.end
    && LitAt(s, c.end, closeTag, ignoreCase)
    && (forall j :: c.start <= j < c.end ==> !LitAt(s, j, closeTag, ignoreCase))
    && c.after == c.end + |closeTag| <= |s|
  }

  /**
   * `\s*` then `openTag`, then the lazy `([\s\S]*?)` body up to the first
   * `closeTag`, all anchored at `q`.
   */
  function TagBody(s: string, q: nat, openTag: string, closeTag: string, ignoreCase: bool): (r: Option<Capture>)
    requires q <= |s|
    ensures r.Some? ==> Fits(s, r.value)
  {
    var o := SkipSpaces(s, q);
    if !LitAt(s, o, openTag, ignoreCase) then None
    else match FindFrom(s, closeTag, o + |openTag|, ignoreCase)
      case None => None
      case Some(e) => Some(Capture(o, o + |openTag|, e, e + |closeTag|))
  }

  /** Every capture `TagBody` reports is a whitespace run, the opening tag, and a body up to the first closing tag. */
  lemma TagBodySound(s: string, q: nat, openTag: string, closeTag: string, ignoreCase: bool)
    requires q <= |s|
    ensures TagBody(s, q, openTag, closeTag, ignoreCase).Some? ==>
              IsTagBody(s, q, openTag, closeTag, ignoreCase, TagBody(s, q, openTag, closeTag, ignoreCase).value)
  {
    SkipSpacesStops(s, q);
    FindFromSound(s, closeTag, SkipSpaces(s, q) + |openTag|, ignoreCase);
  }

  /** A tagged body never holds its own closing tag: the lazy body stops at the first one. */
  lemma TagBodyClean(s: string, q: nat, openTag: string, closeTag: string, ignoreCase: bool, c: Capture)
    requires closeTag != [] && IsTagBody(s, q, openTag, closeTag, ignoreCase, c)
    ensures forall k :: !LitAt(s[c.start..c.end], k, closeTag, ignoreCase)
  {
    forall k | LitAt(s[c.start..c.end], k, closeTag, ignoreCase) ensures false {
      SliceOccurrence(s, c.start, c.end, closeTag, k, ignoreCase);
    }
  }

  /** `TagBody` reports the opening tag after the whitespace and the first closing tag after it. */
  lemma TagBodyFinds(s: string, q: nat, openTag: string, closeTag: string, ignoreCase: bool, o: nat, e: nat)
    requires q <= |s| && SkipSpaces(s, q) == o && LitAt(s, o, openTag, ignoreCase)
    requires FindFrom(s, closeTag, o + |openTag|, ignoreCase) == Some(e)
    ensures TagBody(s, q, openTag, closeTag, ignoreCase) == Some(Capture(o, o + |openTag|, e, e + |closeTag|))
  {
  }

  /** `<key>K</key>\s*<open>([\s\S]*?)<close>` with the `i` flag, anchored at `p`. */
  function KeyedAt(s: string, p: nat, key: string, openTag: string, closeTag: string): (r: Option<Capture>)
    ensures r.Some? ==> Fits(s, r.value)
  {
    if !LitAt(s, p, KeyTag(key), true) then None
    else TagBody(s, p + |KeyTag(key)|, openTag, closeTag, true)
  }

  /** A keyed match is the key tag followed by a tagged body. */
  lemma KeyedAtSound(s: string, p: nat, key: string, openTag: string, closeTag: string)
    requires KeyedAt(s, p, key, openTag, closeTag).Some?
    ensures LitAt(s, p, KeyTag(key), true)
    ensures IsTagBody(s, p + |KeyTag(key)|, openTag, closeTag, true, KeyedAt(s, p, key, openTag, closeTag).value)
  {
    TagBodySound(s, p + |KeyTag(key)|, openTag, closeTag, true);
  }

  lemma KeyedAtFinds(s: string, p: nat, key: string, openTag: string, closeTag: string, cap: Capture)
    requires LitAt(s, p, KeyTag(key), true)
    requires p + |KeyTag(key)| <= |s|
    requires TagBody(s, p + |KeyTag(key)|, openTag, closeTag, true) == Some(cap)
    ensures KeyedAt(s, p, key, openTag, closeTag) == Some(cap)
  {
  }

  /** The key tag at `p` and a tagged body right after it make a keyed match holding that body. */
  lemma KeyedBody(s: string, p: nat, q: nat, key: string, openTag: string, closeTag: string, c: Capture, body: string)
    requires q == p + |KeyTag(key)| && q <= |s| && LitAt(s, p, KeyTag(key), true)
    requires TagBody(s, q, openTag, closeTag, true) == Some(c) && s[c.start..c.end] == body
    ensures KeyedAt(s, p, key, openTag, closeTag) == Some(c)
    ensures s[KeyedAt(s, p, key, openTag, closeTag).value.start..KeyedAt(s, p, key, openTag, closeTag).value.end] == body
  {
    KeyedAtFinds(s, p, key, openTag, closeTag, c);
  }

  /** `String.prototype.match` of the keyed pattern: the leftmost such match in `s`. */
  function FirstKeyed(s: string, key: string, openTag: string, closeTag: string): (r: Option<Found<Capture>>)
    ensures r.Some? ==> KeyedAt(s, r.value.pos, key, openTag, closeTag) == Some(r.value.value)
    ensures r.Some? ==> Fits(s, r.value.value)
  {
    Leftmost(KeyedMatcher(s, key, openTag, closeTag), 0, |s|)
  }

  /** The keyed pattern as an anchored matcher over positions of `s`. */
  function KeyedMatcher(s: string, key: string, openTag: string, closeTag: string): nat -> Option<Capture> {
    (p: nat) => KeyedAt(s, p, key, openTag, closeTag)
  }

  /** The match found is the leftmost one, and there is none when none is found. */
  lemma FirstKeyedSound(s: string, key: string, openTag: string, closeTag: string)
    ensures var r := FirstKeyed(s, key, openTag, closeTag);
      && (r.Some? ==> forall j: nat :: j < r.value.pos ==> KeyedAt(s, j, key, openTag, closeTag).None?)
      && (r.None? ==> forall j: nat :: j <= |s| ==> KeyedAt(s, j, key, openTag, closeTag).None?)
  {
    var at := KeyedMatcher(s, key, openTag, closeTag);
    LeftmostSound(at, 0, |s|);
    assert forall j: nat :: at(j) == KeyedAt(s, j, key, openTag, closeTag);
  }

  /**
   * The trimmed body of the first `<key>K</key> <string>…</string>` entry
   * (key and tags matched case-insensitively), if there is one.
   */
  function KeyedString(s: string, key: string): Option<string> {
    match FirstKeyed(s, key, "<string>", "</string>")
    case None => None
    case Some(f) => Some(CapturedText(s, f.value))
  }

  /** The trimmed text a capture holds. */
  function CapturedText(s: string, c: Capture): string
    requires Fits(s, c)
  {
    Trim(s[c.start..c.end])
  }

  /** The value read is trimmed, and there is one exactly when the entry pattern matches somewhere. */
  lemma KeyedStringSound(s: string, key: string)
    ensures KeyedString(s, key).Some? ==> IsTrimmed(KeyedString(s, key).value)
    ensures KeyedString(s, key).None? <==> forall j: nat :: j <= |s| ==> KeyedAt(s, j, key, "<string>", "</string>").None?
  {
    FirstKeyedSound(s, key, "<string>", "</string>");
    var f := FirstKeyed(s, key, "<string>", "</string>");
    if f.Some? {
      TrimSound(s[f.value.value.start..f.value.value.end]);
    }
  }

  /**
   * A written entry `<key>K</key>` + whitespace + `<string>v</string>`, after
   * a prefix where the entry pattern matches nowhere, is read back as `v`
   * trimmed.
   */
  lemma ReadsWrittenEntry(pre: string, key: string, pad: string, v: string, rest: string, s: string)
    requires AllSpaces(pad) && '<' !in v
    requires s == pre + (KeyTag(key) + (pad + ("<string>" + (v + ("</string>" + rest)))))
    requires forall j: nat :: j < |pre| ==> KeyedAt(s, j, key, "<string>", "</string>").None?
    ensures KeyedString(s, key) == Some(Trim(v))
  {
    var tail := pad + ("<string>" + (v + ("</string>" + rest)));
    ConcatAssoc(pre, KeyTag(key), tail);
    LitAtAfter(pre, KeyTag(key), tail, true);
    EntryAfterKeyed(s, pre + KeyTag(key), |pre|, key, pad, v, rest);
    FirstKeyedAt(s, key, "<string>", "</string>", |pre|);
  }

  /** An entry whose key tag at `p` ends `kt` is a keyed match at `p` capturing the value. */
  lemma EntryAfterKeyed(s: string, kt: string, p: nat, key: string, pad: string, v: string, rest: string)
    requires AllSpaces(pad) && '<' !in v
    requires s == kt + (pad + ("<string>" + (v + ("</string>" + rest))))
    requires p + |KeyTag(key)| == |kt| && LitAt(s, p, KeyTag(key), true)
    ensures KeyedAt(s, p, key, "<string>", "</string>").Some?
    ensures CapturedText(s, KeyedAt(s, p, key, "<string>", "</string>").value) == Trim(v)
  {
    var o := |kt| + |pad|;
    var e := o + 8 + |v|;
    assert LitAt(s, o, "<string>", true) by { EntryOpenTag(kt, pad, v, rest, s, o); }
    assert LitAt(s, e, "</string>", true) by { EntryCloseTag(kt, pad, v, rest, s, o, e); }
    assert SkipSpaces(s, |kt|) == o by { EntrySpaces(kt, pad, v, rest, s, o); }
    assert e <= |s| && s[o + 8..e] == v by { EntryValue(kt, pad, v, rest, s, o, e); }
    assert forall j :: o + 8 <= j < e ==> s[j] != '<' by { NoMarkup(s, o + 8, e, v); }
    assert KeyedAt(s, p, key, "<string>", "</string>") == Some(Capture(o, o + 8, e, e + 9)) by {
      EntryKeyed(s, key, p, o, e);
    }
    CapturedValue(s, Capture(o, o + 8, e, e + 9), v);
  }

  lemma CapturedValue(s: string, c: Capture, v: string)
    requires Fits(s, c) && s[c.start..c.end] == v
    ensures CapturedText(s, c) == Trim(v)
  {
  }

  /** An entry laid out at `p` with a `<`-free value is a keyed match at `p`. */
  lemma EntryKeyed(s: string, key: string, p: nat, o: nat, e: nat)
    requires p + |KeyTag(key)| <= o && o + 8 <= e && e + 9 <= |s|
    requires LitAt(s, p, KeyTag(key), true)
    requires SkipSpaces(s, p + |KeyTag(key)|) == o && LitAt(s, o, "<string>", true)
    requires LitAt(s, e, "</string>", true)
    requires forall j :: o + 8 <= j < e ==> s[j] != '<'
    ensures KeyedAt(s, p, key, "<string>", "</string>") == Some(Capture(o, o + 8, e, e + 9))
  {
    EntryCapture(s, p + |KeyTag(key)|, o, e);
    KeyedAtFinds(s, p, key, "<string>", "</string>", Capture(o, o + 8, e, e + 9));
  }

  /** A keyed match at `p` with none before it is the one `match` reports. */
  lemma FirstKeyedAt(s: string, key: string, openTag: string, closeTag: string, p: nat)
    requires p <= |s| && KeyedAt(s, p, key, openTag, closeTag).Some?
    requires forall j: nat :: j < p ==> KeyedAt(s, j, key, openTag, closeTag).None?
    ensures FirstKeyed(s, key, openTag, closeTag) == Some(Found(p, KeyedAt(s, p, key, openTag, closeTag).value))
  {
    var at := KeyedMatcher(s, key, openTag, closeTag);
    assert forall j: nat :: at(j) == KeyedAt(s, j, key, openTag, closeTag);
    LeftmostFirst(at, 0, |s|, p);
  }

  lemma EntryCapture(s: string, q: nat, o: nat, e: nat)
    requires q <= o && q <= |s| && SkipSpaces(s, q) == o && LitAt(s, o, "<string>", true)
    requires o + 8 <= e && LitAt(s, e, "</string>", true)
    requires forall j :: o + 8 <= j < e ==> s[j] != '<'
    ensures TagBody(s, q, "<string>", "</string>", true) == Some(Capture(o, o + 8, e, e + 9))
  {
    CloseAfterPlain(s, o + 8, e);
    EntryBodyAt(s, q, o, e);
  }

  lemma EntryBodyAt(s: string, q: nat, o: nat, e: nat)
    requires q <= |s| && SkipSpaces(s, q) == o && LitAt(s, o, "<string>", true)
    requires FindFrom(s, "</string>", o + 8, true) == Some(e)
    ensures TagBody(s, q, "<string>", "</string>", true) == Some(Capture(o, o + 8, e, e + 9))
  {
    TagBodyFinds(s, q, "<string>", "</string>", true, o, e);
  }

  lemma EntryOpenTag(kt: string, pad: string, v: string, rest: string, s: string, o: nat)
    requires s == kt + (pad + ("<string>" + (v + ("</string>" + rest))))
    requires o == |kt| + |pad|
    ensures LitAt(s, o, "<string>", true)
  {
    var t3 := v + ("</string>" + rest);
    var t2 := "<string>" + t3;
    LitAtStart("<string>", t3, true);
    LitAtShift(pad, t2, 0, "<string>", true);
    LitAtShift(kt, pad + t2, |pad|, "<string>", true);
  }

  lemma EntryValue(kt: string, pad: string, v: string, rest: string, s: string, o: nat, e: nat)
    requires s == kt + (pad + ("<string>" + (v + ("</string>" + rest))))
    requires o == |kt| + |pad| && e == o + 8 + |v|
    ensures e <= |s| && s[o + 8..e] == v
  {
    var t3 := v + ("</string>" + rest);
    assert s[o + 8..] == t3;
    assert t3[..|v|] == v;
  }

  lemma EntryCloseTag(kt: string, pad: string, v: string, rest: string, s: string, o: nat, e: nat)
    requires s == kt + (pad + ("<string>" + (v + ("</string>" + rest))))
    requires o == |kt| + |pad| && e == o + 8 + |v|
    ensures LitAt(s, e, "</string>", true)
  {
    var t4 := "</string>" + rest;
    var t3 := v + t4;
    var t2 := "<string>" + t3;
    LitAtStart("</string>", rest, true);
    LitAtShift(v, t4, 0, "</string>", true);
    LitAtShift("<string>", t3, |v|, "</string>", true);
    LitAtShift(pad, t2, 8 + |v|, "</string>", true);
    LitAtShift(kt, pad + t2, |pad| + 8 + |v|, "</string>", true);
  }

  /** The whitespace of a written entry is what `\s*` skips. */
  lemma EntrySpaces(kt: string, pad: string, v: string, rest: string, s: string, o: nat)
    requires AllSpaces(pad)
    requires s == kt + (pad + ("<string>" + (v + ("</string>" + rest))))
    requires o == |kt| + |pad|
    ensures SkipSpaces(s, |kt|) == o
  {
    assert s[o] == "<string>"[0];
    forall j | |kt| <= j < o ensures IsSpace(s[j]) {
      assert s[j] == pad[j - |kt|];
    }
    SkipPast(s, |kt|, o);
  }

  lemma NoMarkup(s: string, a: nat, b: nat, v: string)
    requires a <= b <= |s| && s[a..b] == v && '<' !in v
    ensures forall j :: a <= j < b ==> s[j] != '<'
  {
    forall j | a <= j < b ensures s[j] != '<' {
      assert s[j] == v[j - a];
    }
  }

  /** After a stretch without `<`, the lazy body stops at the first closing tag. */
  lemma CloseAfterPlain(s: string, a: nat, e: nat)
    requires a <= e && LitAt(s, e, "</string>", true)
    requires forall j :: a <= j < e ==> s[j] != '<'
    ensures FindFrom(s, "</string>", a, true) == Some(e)
  {
    NoCloseInside(s, a, e);
    FindFromStopsAt(s, "</string>", a, e, true);
  }

  /** A stretch without `<` holds no closing tag. */
  lemma NoCloseInside(s: string, a: nat, b: nat)
    requires a <= b <= |s| && forall j :: a <= j < b ==> s[j] != '<'
    ensures forall j :: a <= j < b ==> !LitAt(s, j, "</string>", true)
  {
    assert "</string>"[0] == '<';
    forall j | a <= j < b ensures !LitAt(s, j, "</string>", true) {
      assert !CharEq(s[j + 0], "</string>"[0], true);
    }
  }

  /** `closeTag` occurs nowhere in `body` followed by `closeTag`, except at the end. */
  predicate CloseFree(body: string, closeTag: string) {
    forall k :: 0 <= k < |body| ==> !LitAt(body + closeTag, k, closeTag, true)
  }

  /**
   * A written `openTag body closeTag` after whitespace, with no closing tag
   * inside the body, is the tagged body read from where the whitespace starts.
   */
  lemma WrittenTagBody(kt: string, pad: string, openTag: string, body: string, closeTag: string, rest: string, s: string)
    requires AllSpaces(pad) && openTag != [] && !IsSpace(openTag[0])
    requires CloseFree(body, closeTag)
    requires s == kt + (pad + (openTag + (body + (closeTag + rest))))
    ensures var o := |kt| + |pad|; var e := o + |openTag| + |body|;
      && TagBody(s, |kt|, openTag, closeTag, true) == Some(Capture(o, o + |openTag|, e, e + |closeTag|))
      && s[o + |openTag|..e] == body
  {
    var o := |kt| + |pad|;
    var e := o + |openTag| + |body|;
    WrittenSpaces(kt, pad, openTag, body, closeTag, rest, s);
    WrittenOpenTag(kt, pad, openTag, body, closeTag, rest, s);
    WrittenCloseTag(kt, pad, openTag, body, closeTag, rest, s);
    WrittenBody(kt, pad, openTag, body, closeTag, rest, s);
    TagBodyBetween(s, |kt|, openTag, closeTag, o, e);
  }

  /** `TagBody` stops at the first closing tag after the opening one. */
  lemma TagBodyBetween(s: string, q: nat, openTag: string, closeTag: string, o: nat, e: nat)
    requires q <= |s| && SkipSpaces(s, q) == o && LitAt(s, o, openTag, true)
    requires o + |openTag| <= e && LitAt(s, e, closeTag, true)
    requires forall j :: o + |openTag| <= j < e ==> !LitAt(s, j, closeTag, true)
    ensures TagBody(s, q, openTag, closeTag, true) == Some(Capture(o, o + |openTag|, e, e + |closeTag|))
  {
    FindFromStopsAt(s, closeTag, o + |openTag|, e, true);
    TagBodyFinds(s, q, openTag, closeTag, true, o, e);
  }

  lemma WrittenSpaces(kt: string, pad: string, openTag: string, body: string, closeTag: string, rest: string, s: string)
    requires AllSpaces(pad) && openTag != [] && !IsSpace(openTag[0])
    requires s == kt + (pad + (openTag + (body + (closeTag + rest))))
    ensures SkipSpaces(s, |kt|) == |kt| + |pad|
  {
    var o := |kt| + |pad|;
    forall j | |kt| <= j < o ensures IsSpace(s[j]) {
      assert s[j] == pad[j - |kt|];
    }
    assert s[o] == openTag[0];
    SkipPast(s, |kt|, o);
  }

  lemma WrittenOpenTag(kt: string, pad: string, openTag: string, body: string, closeTag: string, rest: string, s: string)
    requires s == kt + (pad + (openTag + (body + (closeTag + rest))))
    ensures LitAt(s, |kt| + |pad|, openTag, true)
  {
    var t3 := body + (closeTag + rest);
    LitAtAfter(pad, openTag, t3, true);
    LitAtShift(kt, pad + (openTag + t3), |pad|, openTag, true);
  }

  lemma WrittenCloseTag(kt: string, pad: string, openTag: string, body: string, closeTag: string, rest: string, s: string)
    requires s == kt + (pad + (openTag + (body + (closeTag + rest))))
    ensures LitAt(s, |kt| + |pad| + |openTag| + |body|, closeTag, true)
  {
    var front := kt + (pad + (openTag + body));
    Regroup(kt, pad, openTag, body, closeTag + rest);
    LitAtAfter(front, closeTag, rest, true);
  }

  lemma Regroup(a: string, b: string, c: string, d: string, e: string)
    ensures a + (b + (c + (d + e))) == (a + (b + (c + d))) + e
  {
  }

  /** The body is where it was written, and the closing tag occurs nowhere inside it. */
  lemma WrittenBody(kt: string, pad: string, openTag: string, body: string, closeTag: string, rest: string, s: string)
    requires CloseFree(body, closeTag)
    requires s == kt + (pad + (openTag + (body + (closeTag + rest))))
    ensures var a := |kt| + |pad| + |openTag|;
      && s[a..a + |body|] == body
      && forall j :: a <= j < a + |body| ==> !LitAt(s, j, closeTag, true)
  {
    var a := |kt| + |pad| + |openTag|;
    var t3 := body + (closeTag + rest);
    assert s[a..] == t3;
    assert s[a..a + |body| + |closeTag|] == body + closeTag;
    assert s[a..a + |body|] == body;
    forall j | a <= j < a + |body| ensures !LitAt(s, j, closeTag, true) {
      if LitAt(s, j, closeTag, true) {
        WindowOccurrence(s, a, body + closeTag, j - a, closeTag);
      }
    }
  }

  /** An occurrence inside a window of `s` is an occurrence in the window's text. */
  lemma WindowOccurrence(s: string, a: nat, w: string, k: nat, lit: string)
    requires a + |w| <= |s| && s[a..a + |w|] == w && k + |lit| <= |w|
    requires LitAt(s, a + k, lit, true)
    ensures LitAt(w, k, lit, true)
  {
    forall j | 0 <= j < |lit| ensures CharEq(w[k + j], lit[j], true) {
      assert w[k + j] == s[a + k + j];
    }
  }
}
