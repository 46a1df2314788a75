/**
 * The text-scan frame extraction of main.js: the global
 * `<key>NAME.png</key>\s*<dict>…</dict>` search over the raw plist text,
 * and the per-frame field lookups inside each dict body.
 */
module FrameScan {
  import opened Results
  import opened Text
  import opened Markup

  /** The five values main.js records for one frame. */
  datatype ScannedFrame = ScannedFrame(
    textureRect: string,
    spriteSourceSize: string,
    spriteOffset: string,
    spriteTrimmed: bool,
    textureRotated: bool)

  /** One match of the frame pattern: the name as captured, the dict body, and `lastIndex` after it. */
  datatype Block = Block(rawName: string, body: string, after: nat)

  /** What the name group can capture: a `.png` name without `<`. */
  predicate IsFrameCapture(n: string) {
    EndsWith(n, ".png") && '<' !in n
  }

  /** What can be a frame key: a captured name, trimmed. */
  predicate IsFrameName(n: string) {
    IsFrameCapture(n) && IsTrimmed(n)
  }

  /**
   * `<key>([^<]+?\.png)</key>` anchored at `p`, case-sensitively: where the
   * captured name ends, just before `</key>`. The lazy run stops at the first
   * `.png</key>` at least one character in, and fails if a `<` comes first.
   */
  function NameEnd(s: string, p: nat): (r: Option<nat>)
    ensures r.Some? ==> p + 10 <= r.value && r.value + 6 <= |s|
  {
    if !LitAt(s, p, "<key>", false) then None
    else match FindFrom(s, ".png</key>", p + 6, false)
      case None => None
      case Some(k) => if '<' in s[p + 5..k] then None else Some(k + 4)
  }

  /** The captured name ends in `.png` and holds no `<`. */
  lemma NameEndSound(s: string, p: nat)
    requires NameEnd(s, p).Some?
    ensures IsFrameCapture(s[p + 5..NameEnd(s, p).value])
  {
    var k := FindFrom(s, ".png</key>", p + 6, false).value;
    FindFromFound(s, ".png</key>", p + 6, false, k);
    NameCapture(s, p, k);
  }

  /** The text between `<key>` and the first `.png</key>` after it, when free of `<`, is a frame capture. */
  lemma NameCapture(s: string, p: nat, k: nat)
    requires p + 5 <= k && LitAt(s, k, ".png</key>", false) && '<' !in s[p + 5..k]
    ensures IsFrameCapture(s[p + 5..k + 4])
  {
    PngAt(s, k);
    var name := s[p + 5..k];
    assert s[p + 5..k + 4] == name + ".png";
    PngName(name);
  }

  lemma PngName(name: string)
    requires '<' !in name
    ensures IsFrameCapture(name + ".png")
  {
    var raw := name + ".png";
    assert raw[|raw| - 4..] == ".png";
    assert '<' !in ".png";
  }

  lemma PngAt(s: string, k: nat)
    requires LitAt(s, k, ".png</key>", false)
    ensures k + 4 <= |s| && s[k..k + 4] == ".png"
  {
    forall j | 0 <= j < 4 ensures s[k + j] == ".png"[j] {
      assert CharEq(s[k + j], ".png</key>"[j], false);
    }
  }

  /**
   * The frame pattern anchored at `p`: the name as above, `</key>`,
   * whitespace, `<dict>`, and the body up to the first `</dict>`.
   */
  function BlockAt(s: string, p: nat): Option<Block> {
    match NameEnd(s, p)
    case None => None
    case Some(n) =>
      match TagBody(s, n + 6, "<dict>", "</dict>", false)
      case None => None
      case Some(c) => Some(Block(s[p + 5..n], s[c.start..c.end], c.after))
  }

  /** Every match ends after it starts, captures a `.png` name and holds no `</dict>` in its body. */
  lemma BlockAtSound(s: string, p: nat)
    requires BlockAt(s, p).Some?
    ensures p < BlockAt(s, p).value.after <= |s|
    ensures IsFrameCapture(BlockAt(s, p).value.rawName)
    ensures !Contains(BlockAt(s, p).value.body, "</dict>")
  {
    var n := NameEnd(s, p).value;
    var c := TagBody(s, n + 6, "<dict>", "</dict>", false).value;
    NameEndSound(s, p);
    BlockBodySound(s, n + 6, c);
    BlockParts(s, p, n, c);
    BlockFacts(s, p, n, c, BlockAt(s, p).value);
  }

  lemma BlockFacts(s: string, p: nat, n: nat, c: Capture, b: Block)
    requires p + 10 <= n && n + 6 <= c.after <= |s| && IsFrameCapture(s[p + 5..n])
    requires c.start <= c.end <= |s| && !Contains(s[c.start..c.end], "</dict>")
    requires b == Block(s[p + 5..n], s[c.start..c.end], c.after)
    ensures p < b.after <= |s| && IsFrameCapture(b.rawName) && !Contains(b.body, "</dict>")
  {
  }

  lemma BlockParts(s: string, p: nat, n: nat, c: Capture)
    requires NameEnd(s, p) == Some(n)
    requires n + 6 <= |s| && TagBody(s, n + 6, "<dict>", "</dict>", false) == Some(c)
    ensures BlockAt(s, p) == Some(Block(s[p + 5..n], s[c.start..c.end], c.after))
  {
  }

  /** A `<dict>` body ends inside the text and holds no `</dict>`. */
  lemma BlockBodySound(s: string, q: nat, c: Capture)
    requires q <= |s| && TagBody(s, q, "<dict>", "</dict>", false) == Some(c)
    ensures q <= c.after <= |s|
    ensures !Contains(s[c.start..c.end], "</dict>")
  {
    TagBodySound(s, q, "<dict>", "</dict>", false);
    TagBodyClean(s, q, "<dict>", "</dict>", false, c);
    FindFromSound(s[c.start..c.end], "</dict>", 0, false);
  }

  /** Trimming a `<`-free text that ends in `.png` keeps the `.png` and removes only leading whitespace. */
  lemma TrimPngName(raw: string)
    requires IsFrameCapture(raw)
    ensures IsFrameName(Trim(raw))
  {
    var i := SkipSpaces(raw, 0);
    SkipSpacesStops(raw, 0);
    assert raw[|raw| - 4] == '.';
    assert i <= |raw| - 4;
    var t := raw[i..];
    assert TrimStart(raw) == t;
    assert t[|t| - 1] == 'g';
    assert TrimEnd(t) == t;
    assert t[|t| - 4..] == raw[|raw| - 4..];
    forall c | c in t ensures c != '<' {
      var j :| 0 <= j < |t| && t[j] == c;
      assert raw[i + j] == c;
    }
  }

  /** The frame pattern as an anchored matcher over positions of `s`. */
  function FrameMatcher(s: string): nat -> Option<Block> {
    (p: nat) => BlockAt(s, p)
  }

  function AfterBlock(b: Block): nat {
    b.after
  }

  /** Every frame match ends after the position it starts at, inside the text. */
  lemma FrameMatcherAdvances(s: string)
    ensures forall j: nat :: j <= |s| && FrameMatcher(s)(j).Some? ==>
              j < AfterBlock(FrameMatcher(s)(j).value) <= |s|
  {
    forall j: nat | j <= |s| && FrameMatcher(s)(j).Some?
      ensures j < AfterBlock(FrameMatcher(s)(j).value) <= |s|
    {
      BlockAtSound(s, j);
    }
  }

  /** All matches of the frame pattern in the plist text, left to right, as the exec loop finds them. */
  function FrameBlocks(s: string): seq<Found<Block>> {
    FrameMatcherAdvances(s);
    MatchAll(FrameMatcher(s), AfterBlock, 0, |s|)
  }

  /**
   * The matches come in text order without overlapping, each names a
   * trimmed `.png` frame, and each dict body stops before its first `</dict>`.
   */
  lemma FrameBlocksSound(s: string)
    ensures var r := FrameBlocks(s);
      && (forall i :: 0 <= i < |r| ==> BlockAt(s, r[i].pos) == Some(r[i].value))
      && (forall i :: 0 < i < |r| ==> r[i - 1].value.after <= r[i].pos)
      && (forall i :: 0 <= i < |r| ==> r[i].pos < r[i].value.after <= |s|)
      && (forall i :: 0 <= i < |r| ==> IsFrameCapture(r[i].value.rawName))
      && (forall i :: 0 <= i < |r| ==> !Contains(r[i].value.body, "</dict>"))
  {
    var r := FrameBlocks(s);
    FrameMatcherAdvances(s);
    MatchAllSound(FrameMatcher(s), AfterBlock, 0, |s|);
    forall i | 0 <= i < |r|
      ensures BlockAt(s, r[i].pos) == Some(r[i].value)
      ensures r[i].pos < r[i].value.after <= |s| && IsFrameCapture(r[i].value.rawName)
      ensures !Contains(r[i].value.body, "</dict>")
    {
      MatchAllSound(FrameMatcher(s), AfterBlock, 0, |s|);
      assert FrameMatcher(s)(r[i].pos) == Some(r[i].value);
      BlockAtSound(s, r[i].pos);
    }
  }

  /** No frame match starts before the first match, between two matches, or after the last one. */
  lemma FrameBlocksComplete(s: string)
    ensures var r := FrameBlocks(s);
      && (r == [] ==> forall j: nat :: j <= |s| ==> BlockAt(s, j).None?)
      && (r != [] ==> forall j: nat :: j < r[0].pos ==> BlockAt(s, j).None?)
      && (forall i, j: nat :: 0 < i < |r| && r[i - 1].value.after <= j < r[i].pos ==> BlockAt(s, j).None?)
      && (r != [] ==> forall j: nat :: r[|r| - 1].value.after <= j <= |s| ==> BlockAt(s, j).None?)
  {
    FrameMatched(s);
    FrameMatcherIs(s);
  }

  lemma FrameMatched(s: string)
    ensures var r := FrameBlocks(s); var at := FrameMatcher(s);
      && (r == [] ==> forall j: nat :: j <= |s| ==> at(j).None?)
      && (r != [] ==> forall j: nat :: j < r[0].pos ==> at(j).None?)
      && (forall i, j: nat :: 0 < i < |r| && AfterBlock(r[i - 1].value) <= j < r[i].pos ==> at(j).None?)
      && (r != [] ==> forall j: nat :: AfterBlock(r[|r| - 1].value) <= j <= |s| ==> at(j).None?)
  {
    FrameMatcherAdvances(s);
    MatchAllComplete(FrameMatcher(s), AfterBlock, 0, |s|);
  }

  lemma FrameMatcherIs(s: string)
    ensures forall j: nat :: FrameMatcher(s)(j) == BlockAt(s, j)
  {
  }

  /** `extractValue(key)`: the trimmed body of the first `<key>key</key> <string>…</string>` in `body`, or `''`. */
  function ExtractValue(body: string, key: string): string {
    KeyedString(body, key).GetOr("")
  }

  /**
   * The value is trimmed; it is `''` whenever no keyed string entry matches
   * anywhere in the body, and otherwise the trimmed body of the leftmost match.
   */
  lemma ExtractValueSound(body: string, key: string)
    ensures IsTrimmed(ExtractValue(body, key))
    ensures (forall j: nat :: j <= |body| ==> KeyedAt(body, j, key, "<string>", "</string>").None?) ==>
              ExtractValue(body, key) == ""
    ensures (exists j: nat :: j <= |body| && KeyedAt(body, j, key, "<string>", "</string>").Some?) ==>
              exists p: nat :: p <= |body| && KeyedAt(body, p, key, "<string>", "</string>").Some?
                && (forall j: nat :: j < p ==> KeyedAt(body, j, key, "<string>", "</string>").None?)
                && ExtractValue(body, key) == CapturedText(body, KeyedAt(body, p, key, "<string>", "</string>").value)
  {
    KeyedStringSound(body, key);
    FirstKeyedSound(body, key, "<string>", "</string>");
    var f := FirstKeyed(body, key, "<string>", "</string>");
    if f.Some? {
      assert f.value.pos <= |body|;
    }
  }

  /**
   * A field written as `<key>K</key>`, whitespace, `<string>v</string>` in a
   * dict body, after a prefix where no such entry for `K` matches, is read
   * back as `v` trimmed.
   */
  lemma ExtractValueReadsEntry(pre: string, key: string, pad: string, v: string, rest: string)
    requires AllSpaces(pad) && '<' !in v
    requires forall j: nat :: j < |pre| ==>
      KeyedAt(pre + (KeyTag(key) + (pad + ("<string>" + (v + ("</string>" + rest))))), j, key, "<string>", "</string>").None?
    ensures ExtractValue(pre + (KeyTag(key) + (pad + ("<string>" + (v + ("</string>" + rest))))), key) == Trim(v)
  {
    ReadsWrittenEntry(pre, key, pad, v, rest, pre + (KeyTag(key) + (pad + ("<string>" + (v + ("</string>" + rest))))));
  }

  /** The test main.js writes for a boolean flag: `includes` of a text holding a literal backslash, `s` and `*`. */
  predicate FlagAsWritten(body: string, key: string) {
    Contains(body, KeyTag(key) + "\\s*<true/>")
  }

  /** The written flag test cannot succeed on a dict body without a backslash, as ordinary plists are. */
  lemma FlagAsWrittenNeedsBackslash(body: string, key: string)
    requires '\\' !in body
    ensures !FlagAsWritten(body, key)
  {
    var lit := KeyTag(key) + "\\s*<true/>";
    FindFromSound(body, lit, 0, false);
    if FlagAsWritten(body, key) {
      BackslashAt(body, FindFrom(body, lit, 0, false).value, key);
    }
  }

  /** Wherever the written flag text occurs, a backslash follows the key tag. */
  lemma BackslashAt(body: string, p: nat, key: string)
    requires LitAt(body, p, KeyTag(key) + "\\s*<true/>", false)
    ensures body[p + |KeyTag(key)|] == '\\'
  {
    var lit := KeyTag(key) + "\\s*<true/>";
    assert CharEq(body[p + |KeyTag(key)|], lit[|KeyTag(key)|], false);
    assert lit[|KeyTag(key)|] == '\\';
  }

  /** The flag pattern anchored at `p`: `<key>key</key>`, whitespace, `<true/>`. */
  predicate FlagAt(body: string, p: nat, key: string) {
    LitAt(body, p, KeyTag(key), false)
    && LitAt(body, SkipSpaces(body, p + |KeyTag(key)|), "<true/>", false)
  }

  /** The flag test as intended: the key followed by optional whitespace and `<true/>` anywhere in the body. */
  predicate FlagSet(body: string, key: string) {
    exists p: nat | p <= |body| :: FlagAt(body, p, key)
  }

  /** A flag written as `<key>K</key>`, whitespace, `<true/>` anywhere in the body is seen by the intended test. */
  lemma FlagEntrySeen(pre: string, key: string, pad: string, rest: string)
    requires AllSpaces(pad)
    ensures FlagSet(pre + (KeyTag(key) + (pad + ("<true/>" + rest))), key)
  {
    var tail := pad + ("<true/>" + rest);
    ConcatAssoc(pre, KeyTag(key), tail);
    LitAtAfter(pre, KeyTag(key), tail, false);
    FlagAfterKey(pre + (KeyTag(key) + tail), pre + KeyTag(key), |pre|, key, pad, rest);
  }

  lemma FlagAfterKey(body: string, kt: string, p: nat, key: string, pad: string, rest: string)
    requires AllSpaces(pad) && body == kt + (pad + ("<true/>" + rest))
    requires p + |KeyTag(key)| == |kt| && LitAt(body, p, KeyTag(key), false)
    ensures FlagSet(body, key)
  {
    assert SkipSpaces(body, |kt|) == |kt| + |pad| && LitAt(body, |kt| + |pad|, "<true/>", false) by {
      FlagEntryParts(kt, pad, rest);
    }
    assert FlagAt(body, p, key);
  }

  /** The key tag, then a whitespace run that ends where `<true/>` starts. */
  lemma FlagEntryParts(kt: string, pad: string, rest: string)
    requires AllSpaces(pad)
    ensures var body := kt + (pad + ("<true/>" + rest));
      && SkipSpaces(body, |kt|) == |kt| + |pad|
      && LitAt(body, |kt| + |pad|, "<true/>", false)
  {
    var body := kt + (pad + ("<true/>" + rest));
    forall j | |kt| <= j < |kt| + |pad| ensures IsSpace(body[j]) {
      assert body[j] == pad[j - |kt|];
    }
    assert body[|kt| + |pad|] == '<';
    SkipPast(body, |kt|, |kt| + |pad|);
    LitAtStart("<true/>", rest, false);
    LitAtShift(pad, "<true/>" + rest, 0, "<true/>", false);
    LitAtShift(kt, pad + ("<true/>" + rest), |pad|, "<true/>", false);
  }

  /**
   * Such a flag entry, with no backslash in the key or in what follows, is
   * seen by the intended test and missed by the written one.
   */
  lemma FlagFindingWitness(key: string, pad: string, rest: string)
    requires AllSpaces(pad) && '\\' !in key && '\\' !in rest
    ensures FlagSet(KeyTag(key) + (pad + ("<true/>" + rest)), key)
    ensures !FlagAsWritten(KeyTag(key) + (pad + ("<true/>" + rest)), key)
  {
    var body := KeyTag(key) + (pad + ("<true/>" + rest));
    FlagEntrySeen([], key, pad, rest);
    assert [] + body == body;
    NoBackslashIn(key, pad, rest);
    FlagAsWrittenNeedsBackslash(body, key);
  }

  lemma NoBackslashIn(key: string, pad: string, rest: string)
    requires AllSpaces(pad) && '\\' !in key && '\\' !in rest
    ensures '\\' !in KeyTag(key) + (pad + ("<true/>" + rest))
  {
    assert '\\' !in KeyTag(key) by {
      assert '\\' !in "<key>" && '\\' !in "</key>";
    }
    assert '\\' !in pad by {
      forall j | 0 <= j < |pad| ensures pad[j] != '\\' {
        assert IsSpace(pad[j]);
      }
    }
    assert '\\' !in "<true/>" + rest;
  }

  /** The record main.js builds from one frame's dict body. */
  function ScanFrame(body: string): ScannedFrame {
    ScannedFrame(
      ExtractValue(body, "textureRect"),
      ExtractValue(body, "spriteSourceSize"),
      ExtractValue(body, "spriteOffset"),
      FlagSet(body, "spriteTrimmed"),
      FlagSet(body, "textureRotated"))
  }

  /** The record main.js builds as written, with the literal `includes` test for both flags. */
  function ScanFrameAsWritten(body: string): ScannedFrame {
    ScannedFrame(
      ExtractValue(body, "textureRect"),
      ExtractValue(body, "spriteSourceSize"),
      ExtractValue(body, "spriteOffset"),
      FlagAsWritten(body, "spriteTrimmed"),
      FlagAsWritten(body, "textureRotated"))
  }

  /** A record with both flags cleared. */
  function Unflagged(f: ScannedFrame): ScannedFrame {
    f.(spriteTrimmed := false, textureRotated := false)
  }

  /** On a body without a backslash, the record as written is the intended one with both flags false. */
  lemma ScanFrameAsWrittenUnflagged(body: string)
    requires '\\' !in body
    ensures ScanFrameAsWritten(body) == Unflagged(ScanFrame(body))
  {
    FlagAsWrittenNeedsBackslash(body, "spriteTrimmed");
    FlagAsWrittenNeedsBackslash(body, "textureRotated");
  }

  /** A matched dict body is a stretch of the text, so it holds no character the text lacks. */
  lemma BodyWithin(s: string, p: nat, b: Block)
    requires BlockAt(s, p) == Some(b)
    ensures forall ch :: ch in b.body ==> ch in s
  {
    var n := NameEnd(s, p).value;
    var c := TagBody(s, n + 6, "<dict>", "</dict>", false).value;
    SliceChars(s, c.start, c.end);
  }

  lemma SliceChars(s: string, i: nat, j: nat)
    requires i <= j <= |s|
    ensures forall ch :: ch in s[i..j] ==> ch in s
  {
    forall ch | ch in s[i..j] ensures ch in s {
      var k :| 0 <= k < j - i && s[i..j][k] == ch;
      assert s[i + k] == ch;
    }
  }

  /**
   * On a plist text without a backslash, as ordinary plists are,
   * the frames main.js records as written are this model's frames with both
   * flags false.
   */
  lemma AsWrittenFramesUnflagged(s: string)
    requires '\\' !in s
    ensures var frames := Collect(FrameBlocks(s), ScanFrame);
      var written := Collect(FrameBlocks(s), ScanFrameAsWritten);
      && written.Keys == frames.Keys
      && forall k :: k in written ==> written[k] == Unflagged(frames[k])
  {
    var r := FrameBlocks(s);
    FrameBlocksSound(s);
    forall i | 0 <= i < |r|
      ensures ScanFrameAsWritten(r[i].value.body) == Unflagged(ScanFrame(r[i].value.body))
    {
      BodyWithin(s, r[i].pos, r[i].value);
      ScanFrameAsWrittenUnflagged(r[i].value.body);
    }
    CollectThrough(r, ScanFrame, ScanFrameAsWritten, Unflagged);
  }

  /**
   * The `frames` object after recording the matches in order, each under its
   * name as `record` of its body: a later match overwrites an earlier one of
   * the same name.
   */
  function Collect<V>(bs: seq<Found<Block>>, record: string -> V): map<string, V> {
    if bs == [] then map[]
    else
      var init := bs[..|bs| - 1];
      var last := bs[|bs| - 1].value;
      Collect(init, record)[Trim(last.rawName) := record(last.body)]
  }

  /** Recording `g` of every body, where `g` is `h` after `f`, records `h` of what recording `f` records. */
  lemma {:induction false} CollectThrough<V, W>(bs: seq<Found<Block>>, f: string -> V, g: string -> W, h: V -> W)
    requires forall i :: 0 <= i < |bs| ==> g(bs[i].value.body) == h(f(bs[i].value.body))
    ensures Collect(bs, g).Keys == Collect(bs, f).Keys
    ensures forall k :: k in Collect(bs, g) ==> Collect(bs, g)[k] == h(Collect(bs, f)[k])
  {
    if bs != [] {
      var init := bs[..|bs| - 1];
      assert forall i :: 0 <= i < |init| ==> init[i] == bs[i];
      CollectThrough(init, f, g, h);
    }
  }

  /** The frame names recorded are exactly the names of the matches. */
  lemma {:induction false} CollectKeys<V>(bs: seq<Found<Block>>, record: string -> V)
    ensures Collect(bs, record).Keys == set i | 0 <= i < |bs| :: Trim(bs[i].value.rawName)
  {
    if bs != [] {
      var init := bs[..|bs| - 1];
      CollectKeys(init, record);
      assert forall i :: 0 <= i < |init| ==> init[i] == bs[i];
    }
  }

  /** A frame name's record comes from the last match with that name. */
  lemma {:induction false} LastWins<V>(bs: seq<Found<Block>>, record: string -> V, i: nat)
    requires i < |bs|
    requires forall j :: i < j < |bs| ==> Trim(bs[j].value.rawName) != Trim(bs[i].value.rawName)
    ensures Trim(bs[i].value.rawName) in Collect(bs, record)
    ensures Collect(bs, record)[Trim(bs[i].value.rawName)] == record(bs[i].value.body)
  {
    if i < |bs| - 1 {
      var init := bs[..|bs| - 1];
      assert init[i] == bs[i];
      LastWins(init, record, i);
    }
  }

  /**
   * `extractFramesFromXmlText`: the exec loop that advances `lastIndex` past
   * each match and records the match's frame under its trimmed name.
   */
  method ExtractFrames(s: string) returns (frames: map<string, ScannedFrame>)
    ensures frames == Collect(FrameBlocks(s), ScanFrame)
  {
    var at := FrameMatcher(s);
    ghost var all := FrameBlocks(s);
    frames := map[];
    var lastIndex := 0;
    ghost var i := 0;
    while true
      invariant i <= |all| && lastIndex == ResumeAt(all, AfterBlock, 0, i)
      invariant frames == Collect(all[..i], ScanFrame)
      decreases |all| - i
    {
      var m := Leftmost(at, lastIndex, |s|);
      NextBlock(s, i);
      if m.None? {
        assert all[..i] == all;
        break;
      }
      var f := m.value;
      var frameName := Trim(f.value.rawName);
      frames := frames[frameName := ScanFrame(f.value.body)];
      CollectNext(all, ScanFrame, i);
      i := i + 1;
      lastIndex := f.value.after;
    }
  }

  /** Searching again from where the `i`th frame match ended finds the next one, or none after the last. */
  lemma NextBlock(s: string, i: nat)
    requires i <= |FrameBlocks(s)|
    ensures var r := FrameBlocks(s);
      Leftmost(FrameMatcher(s), ResumeAt(r, AfterBlock, 0, i), |s|) == if i < |r| then Some(r[i]) else None
  {
    FrameMatcherAdvances(s);
    MatchAllNext(FrameMatcher(s), AfterBlock, 0, |s|, i);
  }

  /** Recording one more match updates the collected frames under that match's name. */
  lemma CollectNext<V>(bs: seq<Found<Block>>, record: string -> V, i: nat)
    requires i < |bs|
    ensures Collect(bs[..i + 1], record) == Collect(bs[..i], record)[Trim(bs[i].value.rawName) := record(bs[i].value.body)]
  {
    assert bs[..i + 1][..i] == bs[..i];
  }

  /** Every extracted frame key is a trimmed `.png` name without `<`: metadata keys never become frames. */
  lemma FrameKeysAreNames(s: string)
    ensures forall n :: n in Collect(FrameBlocks(s), ScanFrame) ==> IsFrameName(n)
  {
    var r := FrameBlocks(s);
    FrameBlocksSound(s);
    CollectKeys(r, ScanFrame);
    forall i | 0 <= i < |r| ensures IsFrameName(Trim(r[i].value.rawName)) {
      TrimPngName(r[i].value.rawName);
    }
  }
}
