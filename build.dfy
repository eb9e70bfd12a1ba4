/** The glyph-building part of the script (lines 29-96): a fresh font with its metrics,
    the optional `liga` lookup, then one pass over the walk that strips source SVGs,
    feeds the fingerprint and creates one glyph per accepted file at the next
    private-use codepoint. */
module Build {
  import opened ByteStrings
  import opened Paths
  import opened Walk
  import opened Fonts
  import opened PyStr
  import opened Rewrites
  import opened Config

  /** Line 37: the codepoint of the first accepted file. */
  const FirstCodepoint := 0xE001

  /** Line 88: the bounds of every `autoWidth` call. */
  const WidthSeparation := 0
  const WidthMinBearing := 0
  const WidthMaxBearing := 512

  /** The name of the ligature lookup and of its one subtable. */
  const Liga: Bytes := "liga"
  /** Line 49: the GSUB ligature lookup for the Latin script. */
  const LigaLookup := Lookup(Liga, "gsub_ligature", Liga, "latn")
  /** Line 50: its one subtable, of the same name. */
  const LigaSubtable := Subtable(Liga, Liga)
  /** Line 30: the encoding the font is switched to. */
  const UnicodeFull: Bytes := "UnicodeFull"

  /** The input tree: file contents by path. */
  class SourceTree {
    var files: map<Bytes, Bytes>

    constructor (files: map<Bytes, Bytes>)
      ensures this.files == files
    {
      this.files := files;
    }
  }

  /** `tuple(name)`: one single-byte string per byte of the name. */
  function Components(name: Bytes): seq<Bytes> {
    seq(|name|, i requires 0 <= i < |name| => [name[i]])
  }

  /** The pieces put back together. */
  function Concat(parts: seq<Bytes>): Bytes
    decreases |parts|
  {
    if parts == [] then [] else Concat(parts[..|parts| - 1]) + parts[|parts| - 1]
  }

  /** The components of a ligature are one byte each and spell the name, in order. */
  lemma {:induction false} ComponentsSpellName(name: Bytes)
    ensures |Components(name)| == |name|
    ensures forall i :: 0 <= i < |name| ==> |Components(name)[i]| == 1
    ensures Concat(Components(name)) == name
    decreases |name|
  {
    if name != [] {
      var init := name[..|name| - 1];
      ComponentsSpellName(init);
      var cs := Components(name);
      assert cs[..|cs| - 1] == Components(init);
      assert name == init + [name[|name| - 1]];
    }
  }

  /** What `empty_char(f, c)` leaves at `ord(c)` in a font that had no glyph there. */
  function Placeholder(c: Byte): Glyph {
    Glyph(Some([c]), [OriginPoint], false, false, [])
  }

  /** The glyph table after `empty_char(f, c)` (lines 42-45): a glyph already at `ord(c)`
      keeps its name and gets the origin point as its whole outline. */
  function EmptyCharStep(g: map<int, Glyph>, c: Byte): map<int, Glyph> {
    var k := Ord(c);
    if k in g then g[k := g[k].(outline := [OriginPoint])] else g[k := Placeholder(c)]
  }

  /** Line 76: `[empty_char(f, c) for c in name]` */
  function Placeholders(g: map<int, Glyph>, name: Bytes): map<int, Glyph>
    decreases |name|
  {
    if name == [] then g else EmptyCharStep(Placeholders(g, name[..|name| - 1]), name[|name| - 1])
  }

  /** What the loop has for an accepted file when it makes its glyph: `name` (line 54),
      `filePath` (line 55) and `text`, what `importOutlines` reads from that file at
      line 81. */
  datatype Source = Source(name: Bytes, path: Bytes, text: Bytes)

  /** The source of `e` when the tree holds `files` at the time of the import. */
  function SourceOf(e: Entry, files: map<Bytes, Bytes>): Source {
    Source(NameOf(e), PathOf(e), if PathOf(e) in files then files[PathOf(e)] else [])
  }

  /** The sources of the accepted files, in walk order. Each file is imported as the
      tree holds it once the walk has reached it, that is after its own strip. */
  function Sources(walk: seq<Entry>, files: map<Bytes, Bytes>): (s: seq<Source>)
    ensures |s| == |Accepted(walk)|
    decreases |walk|
  {
    if walk == [] then []
    else
      var e := walk[|walk| - 1];
      Sources(walk[..|walk| - 1], files) + (if Accepts(e) then [SourceOf(e, SourcesAfter(walk, files))] else [])
  }

  /** The j-th source has the name and path of the j-th accepted file. */
  lemma {:induction false} SourcesIndex(walk: seq<Entry>, files: map<Bytes, Bytes>, j: nat)
    requires j < |Accepted(walk)|
    ensures Sources(walk, files)[j].name == NameOf(Accepted(walk)[j])
    ensures Sources(walk, files)[j].path == PathOf(Accepted(walk)[j])
    decreases |walk|
  {
    var init := walk[..|walk| - 1];
    if j < |Accepted(init)| {
      SourcesIndex(init, files, j);
      assert Accepted(walk)[j] == Accepted(init)[j];
      assert Sources(walk, files)[j] == Sources(init, files)[j];
    }
  }

  /** The sources of a prefix of the walk are a prefix of the sources of the walk. */
  lemma {:induction false} SourcesPrefix(walk: seq<Entry>, files: map<Bytes, Bytes>, n: nat)
    requires n <= |walk|
    ensures |Sources(walk[..n], files)| <= |Sources(walk, files)|
    ensures Sources(walk[..n], files) == Sources(walk, files)[..|Sources(walk[..n], files)|]
    decreases |walk|
  {
    if n == |walk| {
      assert walk[..n] == walk;
    } else {
      var init := walk[..|walk| - 1];
      assert init[..n] == walk[..n];
      SourcesPrefix(init, files, n);
      assert Sources(walk, files)[..|Sources(init, files)|] == Sources(init, files);
    }
  }

  /** The accepted file at walk position `i` is imported from the tree as it stands
      after the first `i + 1` entries are walked. */
  lemma SourceAt(walk: seq<Entry>, files: map<Bytes, Bytes>, i: nat)
    requires i < |walk| && Accepts(walk[i])
    ensures |Accepted(walk[..i])| < |Sources(walk, files)|
    ensures Sources(walk, files)[|Accepted(walk[..i])|] == SourceOf(walk[i], SourcesAfter(walk[..i + 1], files))
  {
    SourcesPrefix(walk, files, i + 1);
    SourcesStep(walk, i, files);
    var k := |Accepted(walk[..i])|;
    assert Sources(walk[..i + 1], files)[k] == SourceOf(walk[i], SourcesAfter(walk[..i + 1], files));
  }

  /** Lines 59-72 come before line 81: when a file's path is walked once, its glyph is
      imported from the text left by the `<switch>` strip if it is an SVG, and from
      its unchanged content if it is an EPS. */
  lemma ImportsStrippedText(walk: seq<Entry>, files: map<Bytes, Bytes>, i: nat)
    requires i < |walk| && Accepts(walk[i]) && PathOf(walk[i]) in files
    requires forall k :: 0 <= k < |walk| && k != i ==> PathOf(walk[k]) != PathOf(walk[i])
    ensures |Accepted(walk[..i])| < |Sources(walk, files)|
    ensures var p := PathOf(walk[i]);
            Sources(walk, files)[|Accepted(walk[..i])|].text ==
              if IsSvgSource(walk[i].filename) then StripSwitch(files[p]) else files[p]
  {
    var p := PathOf(walk[i]);
    var w := walk[..i + 1];
    SourceAt(walk, files, i);
    forall k | 0 <= k < |w| && k != i ensures PathOf(w[k]) != p {
      assert w[k] == walk[k];
    }
    SourcesAfterTouchesOnlySvg(w, files);
    if IsSvgSource(walk[i].filename) {
      SourcesAfterStripsOnce(w, files, i);
    } else {
      forall k | 0 <= k < |w| ensures !SvgAt(w, k, p) {
        assert w[k] == walk[k];
      }
    }
  }

  /** Every accepted file has a non-empty name. */
  lemma SourcesNamed(walk: seq<Entry>, files: map<Bytes, Bytes>, j: nat)
    requires j < |Accepted(walk)|
    ensures |Sources(walk, files)[j].name| >= 1
  {
    var a := Accepted(walk);
    AcceptedAccepts(walk);
    SourcesIndex(walk, files, j);
    assert Accepts(a[j]);
    VectorSourceHasName(a[j].filename);
  }

  /** The codepoint of the k-th accepted file. */
  function Codepoint(k: nat): (cp: int)
    ensures cp >= FirstCodepoint
  {
    FirstCodepoint + k
  }

  /** The glyph made for an accepted file (lines 75-84). */
  function SourceGlyph(s: Source, ligatures: bool): Glyph {
    Glyph(if ligatures then Some(s.name) else None,
          [ImportedFrom(s.path, s.text)],
          true,
          true,
          if ligatures then [LigatureRule(Liga, Components(s.name))] else [])
  }

  /** The glyph table after `if args.ligatures: [empty_char(f, c) for c in name]` and the
      glyph of `s` at `cp` (lines 75-84). */
  function AddSource(prev: map<int, Glyph>, s: Source, cp: int, ligatures: bool): map<int, Glyph> {
    (if ligatures then Placeholders(prev, s.name) else prev)[cp := SourceGlyph(s, ligatures)]
  }

  /** The glyph table after the sources `s`, the k-th at `Codepoint(k)`. */
  function GlyphTable(s: seq<Source>, ligatures: bool): map<int, Glyph>
    decreases |s|
  {
    if s == [] then map[]
    else AddSource(GlyphTable(s[..|s| - 1], ligatures), s[|s| - 1], Codepoint(|s| - 1), ligatures)
  }

  /** Every glyph below the private-use area is the placeholder of its byte, and every
      other glyph is at one of the first `n` codepoints. */
  ghost predicate WellFormed(g: map<int, Glyph>, n: nat) {
    forall k :: k in g ==>
      (0 <= k < 256 && g[k] == Placeholder(k as char)) || (FirstCodepoint <= k < Codepoint(n))
  }

  /** Some byte of `name` is `k`. */
  ghost predicate ByteOf(name: Bytes, k: int) {
    exists i :: 0 <= i < |name| && Ord(name[i]) == k
  }

  /** Placeholders add glyphs only at the bytes of the name, leave every glyph at or
      above 256 alone, and leave a placeholder at every byte of the name. */
  lemma {:induction false} PlaceholdersEffect(g: map<int, Glyph>, name: Bytes, n: nat)
    requires WellFormed(g, n)
    ensures var p := Placeholders(g, name);
            && WellFormed(p, n)
            && (forall k :: k in g ==> k in p)
            && (forall k :: k in g && k >= 256 ==> p[k] == g[k])
            && (forall k :: k in p ==> k in g || ByteOf(name, k))
            && (forall i :: 0 <= i < |name| ==> Ord(name[i]) in p)
    decreases |name|
  {
    if name != [] {
      var init := name[..|name| - 1];
      var c := name[|name| - 1];
      PlaceholdersEffect(g, init, n);
      var q := Placeholders(g, init);
      var p := Placeholders(g, name);
      assert p == EmptyCharStep(q, c);
      assert Ord(c) in q ==> q[Ord(c)] == Placeholder(c);
      forall k | k in p ensures k in g || ByteOf(name, k) {
        if k != Ord(c) && k !in g {
          var i :| 0 <= i < |init| && Ord(init[i]) == k;
          assert name[i] == init[i];
        }
      }
      forall i | 0 <= i < |name| ensures Ord(name[i]) in p {
        if i < |init| {
          assert name[i] == init[i];
        }
      }
    }
  }

  /** One source adds its glyph at the next codepoint and, with ligatures, the
      placeholders of its name, and changes no glyph of an earlier source. */
  lemma AddSourceEffect(prev: map<int, Glyph>, s: Source, n: nat, ligatures: bool)
    requires WellFormed(prev, n)
    ensures var t := AddSource(prev, s, Codepoint(n), ligatures);
            && WellFormed(t, n + 1)
            && t[Codepoint(n)] == SourceGlyph(s, ligatures)
            && (forall k :: k in prev ==> k in t)
            && (forall k :: k in prev && k >= 256 ==> t[k] == prev[k])
            && (ligatures ==> forall i :: 0 <= i < |s.name| ==> Ord(s.name[i]) in t)
            && (forall k :: k in t && k < FirstCodepoint ==> k in prev || (ligatures && ByteOf(s.name, k)))
  {
    if ligatures {
      PlaceholdersEffect(prev, s.name, n);
    }
  }

  /** The glyph of the k-th source is at `Codepoint(k)`. */
  lemma {:induction false} GlyphTableSources(s: seq<Source>, ligatures: bool)
    ensures WellFormed(GlyphTable(s, ligatures), |s|)
    ensures forall j :: 0 <= j < |s| ==>
              Codepoint(j) in GlyphTable(s, ligatures) && GlyphTable(s, ligatures)[Codepoint(j)] == SourceGlyph(s[j], ligatures)
    decreases |s|
  {
    if s != [] {
      var init := s[..|s| - 1];
      var prev := GlyphTable(init, ligatures);
      GlyphTableSources(init, ligatures);
      AddSourceEffect(prev, s[|s| - 1], |init|, ligatures);
      forall j | 0 <= j < |s|
        ensures Codepoint(j) in GlyphTable(s, ligatures) && GlyphTable(s, ligatures)[Codepoint(j)] == SourceGlyph(s[j], ligatures)
      {
        if j < |init| {
          assert s[j] == init[j];
          assert Codepoint(j) in prev;
        }
      }
    }
  }

  /** With ligatures, every byte of every name has a glyph. */
  lemma {:induction false} GlyphTablePlaceholders(s: seq<Source>)
    ensures forall j, i :: 0 <= j < |s| && 0 <= i < |s[j].name| ==> Ord(s[j].name[i]) in GlyphTable(s, true)
    decreases |s|
  {
    if s != [] {
      var init := s[..|s| - 1];
      GlyphTableSources(init, true);
      GlyphTablePlaceholders(init);
      AddSourceEffect(GlyphTable(init, true), s[|s| - 1], |init|, true);
      forall j | 0 <= j < |init| ensures s[j] == init[j] {
      }
    }
  }

  /** Every glyph below the private-use area is there because ligatures are on and its
      byte occurs in some name. */
  lemma {:induction false} GlyphTableLowKeys(s: seq<Source>, ligatures: bool)
    ensures forall k :: k in GlyphTable(s, ligatures) && k < FirstCodepoint ==>
              ligatures && exists j :: 0 <= j < |s| && ByteOf(s[j].name, k)
    decreases |s|
  {
    if s != [] {
      var init := s[..|s| - 1];
      var last := s[|s| - 1];
      GlyphTableSources(init, ligatures);
      GlyphTableLowKeys(init, ligatures);
      var prev := GlyphTable(init, ligatures);
      AddSourceEffect(prev, last, |init|, ligatures);
      forall k | k in GlyphTable(s, ligatures) && k < FirstCodepoint
        ensures ligatures && exists j :: 0 <= j < |s| && ByteOf(s[j].name, k)
      {
        if k in prev {
          var j :| 0 <= j < |init| && ByteOf(init[j].name, k);
          assert s[j] == init[j];
        } else {
          assert ByteOf(s[|s| - 1].name, k);
        }
      }
    }
  }

  /** The codepoints the accepted files get, in the order they are given out. */
  function Codepoints(n: nat): seq<int> {
    seq(n, k requires k >= 0 => Codepoint(k))
  }

  lemma CodepointsStep(n: nat)
    ensures Codepoints(n) + [Codepoint(n)] == Codepoints(n + 1)
  {
    assert Codepoints(n) + [Codepoint(n)] == Codepoints(n + 1);
  }

  /** The k-th accepted file is at `0xE001 + k`; the codepoints increase strictly in
      walk order, and every glyph in the private-use area is one of them. */
  lemma CodepointsAllocation(s: seq<Source>, ligatures: bool)
    ensures var t := GlyphTable(s, ligatures);
            var cps := Codepoints(|s|);
            && (forall k :: 0 <= k < |s| ==> cps[k] == 0xE001 + k && cps[k] in t && t[cps[k]] == SourceGlyph(s[k], ligatures))
            && (forall j, k :: 0 <= j < k < |s| ==> cps[j] < cps[k])
            && (forall cp :: cp in t && cp >= FirstCodepoint ==> exists k :: 0 <= k < |s| && cps[k] == cp)
  {
    GlyphTableSources(s, ligatures);
    var t := GlyphTable(s, ligatures);
    var cps := Codepoints(|s|);
    forall cp | cp in t && cp >= FirstCodepoint ensures exists k :: 0 <= k < |s| && cps[k] == cp {
      assert cps[cp - FirstCodepoint] == cp;
    }
  }

  /** With ligatures, the glyph of an accepted file is named after the file and has one
      rule in the `liga` subtable whose components are the bytes of that name, at least
      one; each component is the name of the placeholder glyph at that byte, which is a
      single point at the origin. */
  lemma LigatureRulesResolve(walk: seq<Entry>, files: map<Bytes, Bytes>, j: nat)
    requires j < |Accepted(walk)|
    ensures var s := Sources(walk, files);
            var t := GlyphTable(s, true);
            var name := s[j].name;
            && Codepoint(j) in t
            && var g := t[Codepoint(j)];
            && g.name == Some(name)
            && g.rules == [LigatureRule(Liga, Components(name))]
            && |g.rules[0].components| == |name| >= 1
            && (forall i :: 0 <= i < |name| ==>
                  Ord(name[i]) in t && t[Ord(name[i])].name == Some(g.rules[0].components[i])
                  && t[Ord(name[i])].outline == [OriginPoint])
  {
    var s := Sources(walk, files);
    GlyphTableSources(s, true);
    GlyphTablePlaceholders(s);
    SourcesNamed(walk, files, j);
    var t := GlyphTable(s, true);
    var name := s[j].name;
    forall i | 0 <= i < |name|
      ensures Ord(name[i]) in t && t[Ord(name[i])] == Placeholder(name[i])
    {
      assert Ord(s[j].name[i]) in t;
      assert (Ord(name[i]) as char) == name[i];
    }
  }

  /** Without ligatures, the font holds exactly the glyphs of the accepted files, none
      of them named and none with a rule. */
  lemma NoLigatureGlyphs(s: seq<Source>)
    ensures forall cp :: cp in GlyphTable(s, false) <==> FirstCodepoint <= cp < Codepoint(|s|)
    ensures forall cp :: cp in GlyphTable(s, false) ==> GlyphTable(s, false)[cp].name == None && GlyphTable(s, false)[cp].rules == []
  {
    GlyphTableSources(s, false);
    GlyphTableLowKeys(s, false);
    forall cp | FirstCodepoint <= cp < Codepoint(|s|) ensures cp in GlyphTable(s, false) {
      assert Codepoint(cp - FirstCodepoint) == cp;
    }
  }

  /** The source tree after the walk: each accepted SVG's content stripped, once per
      time it is walked. */
  function SourcesAfter(walk: seq<Entry>, files: map<Bytes, Bytes>): map<Bytes, Bytes>
    decreases |walk|
  {
    if walk == [] then files
    else
      var prev := SourcesAfter(walk[..|walk| - 1], files);
      var e := walk[|walk| - 1];
      if Accepts(e) && IsSvgSource(e.filename) && PathOf(e) in prev then
        prev[PathOf(e) := StripSwitch(prev[PathOf(e)])]
      else prev
  }

  /** The walk can be processed: every walked file exists, since line 56 asks for the
      size of each one, accepted or not, and each accepted file can then be opened. */
  ghost predicate AllPresent(walk: seq<Entry>, files: map<Bytes, Bytes>) {
    forall k :: 0 <= k < |walk| ==> PathOf(walk[k]) in files
  }

  /** An entry of the walk at position `k` is an accepted SVG at path `p`. */
  ghost predicate SvgAt(walk: seq<Entry>, k: int, p: Bytes)
    requires 0 <= k < |walk|
  {
    PathOf(walk[k]) == p && Accepts(walk[k]) && IsSvgSource(walk[k].filename)
  }

  /** No file is created or removed; a file is rewritten only if it is walked as an
      accepted SVG, so EPS files and rejected files keep their content. */
  lemma {:induction false} SourcesAfterTouchesOnlySvg(walk: seq<Entry>, files: map<Bytes, Bytes>)
    ensures SourcesAfter(walk, files).Keys == files.Keys
    ensures forall p :: p in files && (forall k :: 0 <= k < |walk| ==> !SvgAt(walk, k, p)) ==>
              SourcesAfter(walk, files)[p] == files[p]
    decreases |walk|
  {
    if walk != [] {
      var init := walk[..|walk| - 1];
      SourcesAfterTouchesOnlySvg(init, files);
      forall p | p in files && (forall k :: 0 <= k < |walk| ==> !SvgAt(walk, k, p))
        ensures SourcesAfter(walk, files)[p] == files[p]
      {
        forall k | 0 <= k < |init| ensures !SvgAt(init, k, p) {
          assert init[k] == walk[k];
          assert !SvgAt(walk, k, p);
        }
        assert !SvgAt(walk, |walk| - 1, p);
      }
    }
  }

  /** An SVG whose path is walked once has exactly the stripped text afterwards. */
  lemma {:induction false} SourcesAfterStripsOnce(walk: seq<Entry>, files: map<Bytes, Bytes>, j: nat)
    requires j < |walk| && Accepts(walk[j]) && IsSvgSource(walk[j].filename) && PathOf(walk[j]) in files
    requires forall k :: 0 <= k < |walk| && k != j ==> PathOf(walk[k]) != PathOf(walk[j])
    ensures PathOf(walk[j]) in SourcesAfter(walk, files)
    ensures SourcesAfter(walk, files)[PathOf(walk[j])] == StripSwitch(files[PathOf(walk[j])])
    decreases |walk|
  {
    var init := walk[..|walk| - 1];
    var last := walk[|walk| - 1];
    var p := PathOf(walk[j]);
    var prev := SourcesAfter(init, files);
    SourcesAfterTouchesOnlySvg(init, files);
    assert p in prev;
    if j < |init| {
      assert init[j] == walk[j];
      forall k | 0 <= k < |init| && k != j ensures PathOf(init[k]) != p {
        assert init[k] == walk[k];
      }
      SourcesAfterStripsOnce(init, files, j);
      assert PathOf(last) != p;
      assert SourcesAfter(walk, files)[p] == prev[p];
    } else {
      forall k | 0 <= k < |init| ensures !SvgAt(init, k, p) {
        assert init[k] == walk[k];
        assert PathOf(init[k]) != p;
      }
      assert prev[p] == files[p];
      assert SourcesAfter(walk, files) == prev[p := StripSwitch(prev[p])];
    }
  }

  /** The size is read (line 56) before the strip (lines 61-72): an SVG walked once
      that held either tag is strictly shorter after the run, so a second run over the
      same directory reads another size for it. */
  lemma RerunShrinksSource(walk: seq<Entry>, files: map<Bytes, Bytes>, j: nat)
    requires j < |walk| && Accepts(walk[j]) && IsSvgSource(walk[j].filename) && PathOf(walk[j]) in files
    requires forall k :: 0 <= k < |walk| && k != j ==> PathOf(walk[k]) != PathOf(walk[j])
    requires Contains(files[PathOf(walk[j])], SwitchOpen) || Contains(files[PathOf(walk[j])], SwitchClose)
    ensures PathOf(walk[j]) in SourcesAfter(walk, files)
    ensures |SourcesAfter(walk, files)[PathOf(walk[j])]| < |files[PathOf(walk[j])]|
  {
    var text := files[PathOf(walk[j])];
    SourcesAfterStripsOnce(walk, files, j);
    StripSwitchLength(text);
    CountZeroIff(text, SwitchOpen);
    if !Contains(text, SwitchOpen) {
      ReplaceAbsent(text, SwitchOpen, []);
      CountZeroIff(text, SwitchClose);
    }
  }

  /** `n` calls of `autoWidth(0, 0, 512)` */
  function WidthPasses(n: nat): seq<WidthPass> {
    seq(n, _ => WidthPass(WidthSeparation, WidthMinBearing, WidthMaxBearing))
  }

  /** Lines 29-34: a fresh font in the full Unicode encoding with the chosen metrics. */
  method NewFont(size: int, em: int, ascent: int, descent: int) returns (f: Font)
    ensures fresh(f)
    ensures f.glyphs == map[] && f.lookups == [] && f.subtables == [] && f.widthPasses == []
    ensures f.fontName == None && f.familyName == None && f.fullName == None
    ensures f.encoding == UnicodeFull
    ensures Metrics(f.designSize, f.em, f.ascent, f.descent) == ChooseMetrics(size, em, ascent, descent)
  {
    f := new Font();
    f.encoding := UnicodeFull;
    f.designSize := OrDefault(size, DefaultDesignSize);
    f.em := OrDefault(em, DefaultEm);
    f.ascent := OrDefault(ascent, DefaultAscent);
    f.descent := OrDefault(descent, DefaultDescent);
  }

  /** Lines 48-50: the `liga` GSUB ligature lookup for Latin, and its subtable. */
  method AddLigatureLookup(f: Font)
    requires !HasLookup(f.lookups, Liga)
    modifies f`lookups, f`subtables
    ensures f.lookups == old(f.lookups) + [LigaLookup]
    ensures f.subtables == old(f.subtables) + [LigaSubtable]
    ensures HasSubtable(f.subtables, Liga)
  {
    f.AddLookup(Liga, "gsub_ligature", Liga, "latn");
    assert f.lookups[|f.lookups| - 1].name == Liga;
    f.AddLookupSubtable(Liga, Liga);
    assert f.subtables[|f.subtables| - 1].name == Liga;
  }

  /** Lines 42-45 */
  method EmptyChar(f: Font, c: Byte)
    modifies f`glyphs
    ensures f.glyphs == EmptyCharStep(old(f.glyphs), c)
  {
    f.CreateChar(Ord(c), Some([c]));
    f.DrawOriginPoint(Ord(c));
  }

  /** Lines 59-72: the SVG is read, its `<switch>` tags stripped, and written back. */
  method StripSource(tree: SourceTree, path: Bytes)
    requires path in tree.files
    modifies tree`files
    ensures tree.files == old(tree.files)[path := StripSwitch(old(tree.files)[path])]
  {
    var svgfile := new TextFile.Open(tree.files[path]);
    StripSwitchTags(svgfile);
    tree.files := tree.files[path := svgfile.content];
  }

  /** Line 76: `[empty_char(f, c) for c in name]` */
  method EmptyChars(f: Font, name: Bytes)
    modifies f`glyphs
    ensures f.glyphs == Placeholders(old(f.glyphs), name)
  {
    ghost var g0 := f.glyphs;
    var j := 0;
    while j < |name|
      invariant 0 <= j <= |name|
      invariant f.glyphs == Placeholders(g0, name[..j])
    {
      assert name[..j + 1][..j] == name[..j];
      EmptyChar(f, name[j]);
      j := j + 1;
    }
    assert name[..|name|] == name;
  }

  /** Lines 75-86: the placeholders of the name when ligatures are on, then the glyph of
      the file at the k-th codepoint, its outline imported from the file as the tree
      holds it now. */
  method AddSourceGlyph(f: Font, tree: SourceTree, name: Bytes, path: Bytes, k: nat, ligatures: bool)
    requires WellFormed(f.glyphs, k)
    requires ligatures ==> HasSubtable(f.subtables, Liga)
    requires path in tree.files
    modifies f`glyphs
    ensures f.glyphs == AddSource(old(f.glyphs), Source(name, path, tree.files[path]), Codepoint(k), ligatures)
  {
    var s := Source(name, path, tree.files[path]);
    var cp := Codepoint(k);
    PlaceholdersEffect(f.glyphs, s.name, k);
    ghost var base := if ligatures then Placeholders(f.glyphs, s.name) else f.glyphs;
    if ligatures {
      EmptyChars(f, s.name);
      f.CreateChar(cp, Some(s.name));
      f.AddPosSub(cp, Liga, Components(s.name));
    } else {
      f.CreateChar(cp, None);
    }
    assert f.glyphs == base[cp := f.glyphs[cp]];
    f.ImportOutlines(cp, path, tree.files);
    f.ZeroSideBearings(cp);
    f.Round(cp);
    assert f.glyphs[cp] == SourceGlyph(s, ligatures);
    assert f.glyphs == base[cp := SourceGlyph(s, ligatures)];
  }

  /** One more walked entry: what the accepted prefix, its sources, the feed and the
      source tree become. */
  lemma WalkStep(walk: seq<Entry>, i: nat, files: map<Bytes, Bytes>)
    requires i < |walk|
    ensures var e := walk[i];
            var done := Accepted(walk[..i]);
            && Accepted(walk[..i + 1]) == (if Accepts(e) then done + [e] else done)
            && (Accepts(e) ==> Feed(done + [e]) == Feed(done) + Record(e))
            && SourcesAfter(walk[..i + 1], files) ==
                 (var prev := SourcesAfter(walk[..i], files);
                  if Accepts(e) && IsSvgSource(e.filename) && PathOf(e) in prev then prev[PathOf(e) := StripSwitch(prev[PathOf(e)])] else prev)
  {
    assert walk[..i + 1][..i] == walk[..i];
    var done := Accepted(walk[..i]);
    assert (done + [walk[i]])[..|done|] == done;
  }

  /** One more walked entry adds its source when it is accepted. */
  lemma SourcesStep(walk: seq<Entry>, i: nat, files: map<Bytes, Bytes>)
    requires i < |walk|
    ensures Sources(walk[..i + 1], files) ==
              Sources(walk[..i], files) + (if Accepts(walk[i]) then [SourceOf(walk[i], SourcesAfter(walk[..i + 1], files))] else [])
  {
    assert walk[..i + 1][..i] == walk[..i];
  }

  lemma AllPresentStep(walk: seq<Entry>, i: nat, files: map<Bytes, Bytes>)
    requires i < |walk|
    ensures AllPresent(walk[..i + 1], files) <==> AllPresent(walk[..i], files) && PathOf(walk[i]) in files
  {
    assert forall k :: 0 <= k < i ==> walk[..i + 1][k] == walk[..i][k];
    assert walk[..i + 1][i] == walk[i];
  }

  lemma WidthPassesStep(ps: seq<WidthPass>, i: nat)
    ensures ps + WidthPasses(i) + [WidthPass(WidthSeparation, WidthMinBearing, WidthMaxBearing)] == ps + WidthPasses(i + 1)
  {
    assert WidthPasses(i) + [WidthPass(WidthSeparation, WidthMinBearing, WidthMaxBearing)] == WidthPasses(i + 1);
  }

  /** The glyph table grows by one source at a time. */
  lemma GlyphTableStep(s: seq<Source>, x: Source, ligatures: bool)
    ensures GlyphTable(s + [x], ligatures) == AddSource(GlyphTable(s, ligatures), x, Codepoint(|s|), ligatures)
  {
    assert (s + [x])[..|s|] == s;
  }

  /** Lines 53-88, one walked file: its size is read, an SVG is stripped, an accepted
      file's record is returned for the fingerprint and its glyph made at `cp` from the
      file as it stands after the strip, and `autoWidth` runs for every file. Fails,
      before changing anything, when the file does not exist (`os.path.getsize` raises
      at line 56). */
  method VisitEntry(f: Font, tree: SourceTree, e: Entry, cp: int, ligatures: bool)
    returns (ok: bool, accepted: bool, record: Bytes)
    requires cp >= FirstCodepoint && WellFormed(f.glyphs, cp - FirstCodepoint)
    requires ligatures ==> HasSubtable(f.subtables, Liga)
    modifies f`glyphs, f`widthPasses, tree`files
    ensures accepted == Accepts(e)
    ensures ok <==> PathOf(e) in old(tree.files)
    ensures !ok ==> tree.files == old(tree.files) && f.glyphs == old(f.glyphs) && f.widthPasses == old(f.widthPasses)
    ensures ok ==> tree.files ==
                     if Accepts(e) && IsSvgSource(e.filename) then old(tree.files)[PathOf(e) := StripSwitch(old(tree.files)[PathOf(e)])]
                     else old(tree.files)
    ensures ok && accepted ==> record == Record(e)
    ensures ok ==> f.glyphs == if accepted then AddSource(old(f.glyphs), SourceOf(e, tree.files), cp, ligatures) else old(f.glyphs)
    ensures ok && accepted ==>
              SourceOf(e, tree.files).text ==
                (if IsSvgSource(e.filename) then StripSwitch(old(tree.files)[PathOf(e)]) else old(tree.files)[PathOf(e)])
    ensures ok ==> f.widthPasses == old(f.widthPasses) + [WidthPass(WidthSeparation, WidthMinBearing, WidthMaxBearing)]
  {
    var name := SplitExt(e.filename).0;
    var ext := SplitExt(e.filename).1;
    var filePath := Join(e.dirname, e.filename);
    record := [];
    accepted := ext in [".svg", ".eps"];
    if filePath !in tree.files {
      ok := false;
      return;
    }
    if accepted {
      if ext == ".svg" {
        StripSource(tree, filePath);
      }
      record := e.filename + Decimal(e.size) + ";";
      assert Codepoint(cp - FirstCodepoint) == cp;
      AddSourceGlyph(f, tree, name, filePath, cp - FirstCodepoint, ligatures);
    }
    f.AutoWidth(WidthSeparation, WidthMinBearing, WidthMaxBearing);
    ok := true;
  }

  /** The state after the first `i` walked entries: `done` are the accepted ones, the
      font holds their glyph table, `cp` is the next free codepoint, `feed` their
      records, the tree has had their SVGs stripped, `autoWidth` ran `i` times, and
      `given` lists the codepoints given out. */
  ghost predicate Built(walk: seq<Entry>, i: nat, orig: map<Bytes, Bytes>, wp0: seq<WidthPass>, ligatures: bool,
                        done: seq<Entry>, glyphs: map<int, Glyph>, cp: int, feed: Bytes,
                        files: map<Bytes, Bytes>, wps: seq<WidthPass>, given: seq<int>)
  {
    && i <= |walk|
    && done == Accepted(walk[..i])
    && AllPresent(walk[..i], orig)
    && files.Keys == orig.Keys
    && glyphs == GlyphTable(Sources(walk[..i], orig), ligatures)
    && cp == Codepoint(|done|)
    && feed == Feed(done)
    && files == SourcesAfter(walk[..i], orig)
    && wps == wp0 + WidthPasses(i)
    && given == Codepoints(|done|)
  }

  /** Nothing is built before the walk starts. */
  lemma BuiltStart(walk: seq<Entry>, orig: map<Bytes, Bytes>, wp0: seq<WidthPass>, ligatures: bool)
    ensures Built(walk, 0, orig, wp0, ligatures, [], map[], FirstCodepoint, [], orig, wp0, [])
  {
    assert walk[..0] == [];
  }

  /** The next codepoint is free for the next glyph. */
  lemma BuiltWellFormed(walk: seq<Entry>, i: nat, orig: map<Bytes, Bytes>, wp0: seq<WidthPass>, ligatures: bool,
                        done: seq<Entry>, glyphs: map<int, Glyph>, cp: int, feed: Bytes,
                        files: map<Bytes, Bytes>, wps: seq<WidthPass>, given: seq<int>)
    requires Built(walk, i, orig, wp0, ligatures, done, glyphs, cp, feed, files, wps, given)
    ensures cp >= FirstCodepoint && WellFormed(glyphs, cp - FirstCodepoint)
  {
    GlyphTableSources(Sources(walk[..i], orig), ligatures);
  }

  /** A walked file that does not exist makes the whole walk fail. */
  lemma BuiltMissing(walk: seq<Entry>, i: nat, orig: map<Bytes, Bytes>, wp0: seq<WidthPass>, ligatures: bool,
                     done: seq<Entry>, glyphs: map<int, Glyph>, cp: int, feed: Bytes,
                     files: map<Bytes, Bytes>, wps: seq<WidthPass>, given: seq<int>)
    requires Built(walk, i, orig, wp0, ligatures, done, glyphs, cp, feed, files, wps, given)
    requires i < |walk| && PathOf(walk[i]) !in files
    ensures !AllPresent(walk, orig)
  {
  }

  /** A rejected entry only adds an `autoWidth` pass. */
  lemma BuiltSkip(walk: seq<Entry>, i: nat, orig: map<Bytes, Bytes>, wp0: seq<WidthPass>, ligatures: bool,
                  done: seq<Entry>, glyphs: map<int, Glyph>, cp: int, feed: Bytes,
                  files: map<Bytes, Bytes>, wps: seq<WidthPass>, given: seq<int>)
    requires Built(walk, i, orig, wp0, ligatures, done, glyphs, cp, feed, files, wps, given)
    requires i < |walk| && !Accepts(walk[i]) && PathOf(walk[i]) in files
    ensures Built(walk, i + 1, orig, wp0, ligatures, done, glyphs, cp, feed, files,
                  wps + [WidthPass(WidthSeparation, WidthMinBearing, WidthMaxBearing)], given)
  {
    WalkStep(walk, i, orig);
    SourcesStep(walk, i, orig);
    assert Sources(walk[..i + 1], orig) == Sources(walk[..i], orig);
    AllPresentStep(walk, i, orig);
    WidthPassesStep(wp0, i);
  }

  /** An accepted entry adds its glyph at the next codepoint, its record to the feed,
      strips its file when it is an SVG, and adds an `autoWidth` pass. */
  lemma BuiltAdd(walk: seq<Entry>, i: nat, orig: map<Bytes, Bytes>, wp0: seq<WidthPass>, ligatures: bool,
                 done: seq<Entry>, glyphs: map<int, Glyph>, cp: int, feed: Bytes,
                 files: map<Bytes, Bytes>, wps: seq<WidthPass>, given: seq<int>, files': map<Bytes, Bytes>)
    requires Built(walk, i, orig, wp0, ligatures, done, glyphs, cp, feed, files, wps, given)
    requires i < |walk| && Accepts(walk[i]) && PathOf(walk[i]) in files
    requires files' == if IsSvgSource(walk[i].filename) then files[PathOf(walk[i]) := StripSwitch(files[PathOf(walk[i])])] else files
    ensures Built(walk, i + 1, orig, wp0, ligatures, done + [walk[i]],
                  AddSource(glyphs, SourceOf(walk[i], files'), cp, ligatures), cp + 1, feed + Record(walk[i]), files',
                  wps + [WidthPass(WidthSeparation, WidthMinBearing, WidthMaxBearing)], given + [cp])
  {
    WalkStep(walk, i, orig);
    SourcesStep(walk, i, orig);
    AllPresentStep(walk, i, orig);
    GlyphTableStep(Sources(walk[..i], orig), SourceOf(walk[i], files'), ligatures);
    WidthPassesStep(wp0, i);
    CodepointsStep(|done|);
  }

  /** The walk stops at entry `k`, the first that does not exist, leaving the source
      tree as the entries before it left it. */
  ghost predicate FailsAt(walk: seq<Entry>, k: nat, orig: map<Bytes, Bytes>, files: map<Bytes, Bytes>)
    requires k < |walk|
  {
    AllPresent(walk[..k], orig) && PathOf(walk[k]) !in orig && files == SourcesAfter(walk[..k], orig)
  }

  /** After the whole walk, the built state is what the walk promises. */
  lemma BuiltEnd(walk: seq<Entry>, orig: map<Bytes, Bytes>, wp0: seq<WidthPass>, ligatures: bool,
                 done: seq<Entry>, glyphs: map<int, Glyph>, cp: int, feed: Bytes,
                 files: map<Bytes, Bytes>, wps: seq<WidthPass>, given: seq<int>)
    requires Built(walk, |walk|, orig, wp0, ligatures, done, glyphs, cp, feed, files, wps, given)
    ensures AllPresent(walk, orig)
    ensures glyphs == GlyphTable(Sources(walk, orig), ligatures)
    ensures feed == Feed(Accepted(walk))
    ensures files == SourcesAfter(walk, orig)
    ensures wps == wp0 + WidthPasses(|walk|)
    ensures given == Codepoints(|Accepted(walk)|)
  {
    assert walk[..|walk|] == walk;
  }

  /** Lines 52-88: the walk. It fails at the first walked file that does not exist, and
      then the SVGs walked before it have already been stripped. On success the font
      holds the glyph table of the accepted files, the fingerprint feed is their records
      in order, every accepted SVG was stripped, `autoWidth` ran once per walked file,
      and `given` lists the codepoints in the order they were given out. */
  method BuildGlyphs(f: Font, tree: SourceTree, walk: seq<Entry>, ligatures: bool)
    returns (ok: bool, feed: Bytes, given: seq<int>)
    requires f.glyphs == map[]
    requires ligatures ==> HasSubtable(f.subtables, Liga)
    modifies f`glyphs, f`widthPasses, tree`files
    ensures ok <==> AllPresent(walk, old(tree.files))
    ensures ok ==> f.glyphs == GlyphTable(Sources(walk, old(tree.files)), ligatures)
    ensures ok ==> feed == Feed(Accepted(walk))
    ensures ok ==> tree.files == SourcesAfter(walk, old(tree.files))
    ensures ok ==> f.widthPasses == old(f.widthPasses) + WidthPasses(|walk|)
    ensures ok ==> given == Codepoints(|Accepted(walk)|)
    ensures !ok ==> exists k :: 0 <= k < |walk| && FailsAt(walk, k, old(tree.files), tree.files)
  {
    ghost var orig, wp0 := tree.files, f.widthPasses;
    var cp := FirstCodepoint;
    feed := [];
    given := [];
    ghost var done: seq<Entry> := [];
    var i := 0;
    BuiltStart(walk, orig, wp0, ligatures);
    while i < |walk|
      invariant Built(walk, i, orig, wp0, ligatures, done, f.glyphs, cp, feed, tree.files, f.widthPasses, given)
    {
      BuiltWellFormed(walk, i, orig, wp0, ligatures, done, f.glyphs, cp, feed, tree.files, f.widthPasses, given);
      ghost var glyphs, files, wps := f.glyphs, tree.files, f.widthPasses;
      var ok1, accepted, record := VisitEntry(f, tree, walk[i], cp, ligatures);
      if !ok1 {
        BuiltMissing(walk, i, orig, wp0, ligatures, done, glyphs, cp, feed, files, wps, given);
        assert FailsAt(walk, i, orig, tree.files);
        ok := false;
        return;
      }
      if accepted {
        BuiltAdd(walk, i, orig, wp0, ligatures, done, glyphs, cp, feed, files, wps, given, tree.files);
        feed := feed + record;
        given := given + [cp];
        cp := cp + 1;
        done := done + [walk[i]];
      } else {
        BuiltSkip(walk, i, orig, wp0, ligatures, done, glyphs, cp, feed, files, wps, given);
      }
      i := i + 1;
    }
    BuiltEnd(walk, orig, wp0, ligatures, done, f.glyphs, cp, feed, tree.files, f.widthPasses, given);
    ok := true;
  }

  /** Lines 94-96: all three names are the requested font name. */
  method SetNames(f: Font, font: Bytes)
    modifies f`fontName, f`familyName, f`fullName
    ensures f.fontName == Some(font) && f.familyName == Some(font) && f.fullName == Some(font)
  {
    f.fontName := Some(font);
    f.familyName := Some(font);
    f.fullName := Some(font);
  }
}
