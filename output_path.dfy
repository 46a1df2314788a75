/**
 * The output file name of the three command-line scripts: the input path with
 * its `.plist` extension replaced by a per-dialect suffix (`-pixi.json`,
 * `-phaser.json`, `-pixijs.json`).
 *
 * The scripts build the pattern as `new RegExp('\.plist(?=[^\.plist]*$)')`.
 * In a string literal `\.` is just `.`, so the pattern is
 * `.plist(?=[^.plist]*$)`: any character but a line terminator, then
 * `plist`, with no `.`, `p`, `l`, `i`, `s` or `t` after it. `replace`
 * rewrites the leftmost match only.
 */
module OutputPath {
  import opened Results
  import opened Text

  const PixiSuffix: string := "-pixi.json"

  /** What the regex `.` refuses. */
  predicate IsLineTerminator(c: char) {
    c == '\n' || c == '\r' || c as int == 0x2028 || c as int == 0x2029
  }

  /** `[^.plist]*$` from `i`: none of the class characters up to the end. */
  predicate NoneOfClassFrom(s: string, i: nat) {
    forall j :: i <= j < |s| ==> s[j] !in ".plist"
  }

  /** The pattern as written, anchored at `p`: where the match ends. */
  function SuffixAt(s: string, p: nat): (r: Option<nat>)
    ensures r.Some? ==> r.value == p + 6 <= |s|
  {
    if p + 6 <= |s| && !IsLineTerminator(s[p]) && s[p + 1..p + 6] == "plist" && NoneOfClassFrom(s, p + 6) then Some(p + 6)
    else None
  }

  function SuffixMatcher(s: string): nat -> Option<nat> {
    (p: nat) => SuffixAt(s, p)
  }

  /** `path.replace(regex, suffix)` with the pattern as written. */
  function RewriteAsWritten(s: string, suffix: string): string {
    match Leftmost(SuffixMatcher(s), 0, |s|)
    case None => s
    case Some(f) => s[..f.pos] + suffix + s[f.pos + 6..]
  }

  /** The evident intent: replace a final `.plist` extension, and nothing else. */
  function Rewrite(s: string, suffix: string): string {
    if EndsWith(s, ".plist") then s[..|s| - 6] + suffix else s
  }

  /** The corrected rewrite turns `stem.plist` into `stem` plus the suffix. */
  lemma RewriteExtension(stem: string, suffix: string)
    ensures Rewrite(stem + ".plist", suffix) == stem + suffix
  {
    var s := stem + ".plist";
    assert s[|s| - 6..] == ".plist";
    assert s[..|s| - 6] == stem;
  }

  /** The corrected rewrite leaves a path without the extension alone. */
  lemma RewriteOnlyExtension(s: string, suffix: string)
    requires Rewrite(s, suffix) != s
    ensures exists stem :: s == stem + ".plist" && Rewrite(s, suffix) == stem + suffix
  {
    var stem := s[..|s| - 6];
    assert s == stem + ".plist";
  }

  /** On a path that does end in `.plist`, the pattern as written matches only at the extension. */
  lemma AsWrittenOnExtension(stem: string, suffix: string)
    ensures RewriteAsWritten(stem + ".plist", suffix) == stem + suffix
  {
    var s := stem + ".plist";
    var at := SuffixMatcher(s);
    var p := |stem|;
    assert s[p] == '.' && s[p + 1..p + 6] == "plist";
    assert at(p) == Some(p + 6);
    forall j: nat | j < p ensures at(j).None? {
      if j + 6 <= |s| {
        assert s[|s| - 1] == 't';
        assert !NoneOfClassFrom(s, j + 6);
      }
    }
    LeftmostSound(at, 0, |s|);
    var m := Leftmost(at, 0, |s|);
    assert m.Some? && m.value.pos == p;
    assert s[..p] == stem && s[p + 6..] == [];
  }

  /** Both rewrites agree on every path that ends in `.plist`. */
  lemma RewritesAgreeOnExtension(stem: string, suffix: string)
    ensures RewriteAsWritten(stem + ".plist", suffix) == Rewrite(stem + ".plist", suffix)
  {
    AsWrittenOnExtension(stem, suffix);
    RewriteExtension(stem, suffix);
  }

  /**
   * The pattern as written also fires on a path that merely ends in
   * `plist` after any character but a line terminator, so a longer or
   * shorter suffix always changes such a path.
   */
  lemma AsWrittenRewritesBarePlist(s: string, suffix: string)
    requires |s| >= 6 && s[|s| - 5..] == "plist" && !IsLineTerminator(s[|s| - 6])
    requires |suffix| != 6
    ensures RewriteAsWritten(s, suffix) != s
  {
    var at := SuffixMatcher(s);
    assert at(|s| - 6).Some?;
    LeftmostSound(at, 0, |s|);
  }

  /** `heroplist`: the pattern as written eats the `o` and yields `her-pixi.json`. */
  lemma AsWrittenHeroPlist()
    ensures RewriteAsWritten("heroplist", PixiSuffix) == "her-pixi.json"
  {
    var s := "heroplist";
    var at := SuffixMatcher(s);
    HeroSuffixAt();
    assert at(0).None? && at(1).None? && at(2).None?;
    LeftmostAtFrom(at, 3, |s|);
    assert Leftmost(at, 0, |s|) == Leftmost(at, 3, |s|) == Some(Found(3, 9));
    assert s[..3] == "her" && s[9..] == [];
  }

  /** In `heroplist` the pattern as written fails at 0, 1 and 2 and matches at 3. */
  lemma HeroSuffixAt()
    ensures SuffixAt("heroplist", 0).None? && SuffixAt("heroplist", 1).None? && SuffixAt("heroplist", 2).None?
    ensures SuffixAt("heroplist", 3) == Some(9)
  {
    var s := "heroplist";
    assert s[1..6][0] == 'e' && s[2..7][0] == 'r' && s[3..8][0] == 'o';
    assert s[4..9] == "plist";
  }

  /** The corrected rewrite leaves `heroplist` alone: it has no `.plist` extension. */
  lemma RewriteHeroPlist()
    ensures Rewrite("heroplist", PixiSuffix) == "heroplist"
  {
    var s := "heroplist";
    assert s[|s| - 6..] != ".plist" by {
      assert s[|s| - 6] == 'o';
    }
  }
}
