/** The whole script, lines 14-141: the arguments, the font built from the walk, the
    base name of the artifacts, and the export. MD5 is opaque: `digest` stands for
    `m.hexdigest()` applied to everything fed to `m.update`. */
module Script {
  import opened ByteStrings
  import opened Config
  import opened Fonts
  import opened Walk
  import opened Build
  import opened Export

  /** The command line as `argparse` leaves it (lines 14-25), with `types` still the raw
      comma-separated argument. */
  datatype Args = Args(
    outputDir: Bytes,
    font: Bytes,
    types: Bytes,
    hashes: bool,
    ligatures: bool,
    size: int,
    em: int,
    ascent: int,
    descent: int)

  /** Lines 29-51: the new font with its encoding and metrics, and the `liga` lookup
      and subtable only when ligatures are asked for; no glyphs and no names yet. */
  method StartFont(args: Args) returns (f: Font)
    ensures fresh(f)
    ensures Metrics(f.designSize, f.em, f.ascent, f.descent) == ChooseMetrics(args.size, args.em, args.ascent, args.descent)
    ensures f.encoding == UnicodeFull
    ensures f.glyphs == map[] && f.widthPasses == []
    ensures f.lookups == (if args.ligatures then [LigaLookup] else [])
    ensures f.subtables == (if args.ligatures then [LigaSubtable] else [])
    ensures args.ligatures ==> HasSubtable(f.subtables, Liga)
  {
    f := NewFont(args.size, args.em, args.ascent, args.descent);
    if args.ligatures {
      AddLigatureLookup(f);
    }
  }

  /** Lines 29-96: the font with its metrics, the optional ligature lookup, the glyphs
      of the walk and the three names; `feed` is everything fed to MD5. `ok` is false
      exactly when some walked file does not exist, and then the source SVGs walked
      before it are already stripped. */
  method BuildFont(args: Args, tree: SourceTree, walk: seq<Entry>) returns (ok: bool, f: Font, feed: Bytes)
    modifies tree`files
    ensures fresh(f)
    ensures ok <==> AllPresent(walk, old(tree.files))
    ensures Metrics(f.designSize, f.em, f.ascent, f.descent) == ChooseMetrics(args.size, args.em, args.ascent, args.descent)
    ensures f.encoding == UnicodeFull
    ensures f.lookups == (if args.ligatures then [LigaLookup] else [])
    ensures f.subtables == (if args.ligatures then [LigaSubtable] else [])
    ensures !ok ==> exists k :: 0 <= k < |walk| && FailsAt(walk, k, old(tree.files), tree.files)
    ensures ok ==>
              && f.glyphs == GlyphTable(Sources(walk, old(tree.files)), args.ligatures)
              && tree.files == SourcesAfter(walk, old(tree.files))
              && f.widthPasses == WidthPasses(|walk|)
              && f.fontName == Some(args.font) && f.familyName == Some(args.font) && f.fullName == Some(args.font)
              && feed == Feed(Accepted(walk))
  {
    f := StartFont(args);
    ok, feed := FillFont(f, tree, walk, args.ligatures, args.font);
  }

  /** Lines 52-96 on the started font: the glyphs of the walk, then the three names. */
  method FillFont(f: Font, tree: SourceTree, walk: seq<Entry>, ligatures: bool, font: Bytes) returns (ok: bool, feed: Bytes)
    requires f.glyphs == map[] && f.widthPasses == []
    requires ligatures ==> HasSubtable(f.subtables, Liga)
    modifies f`glyphs, f`widthPasses, f`fontName, f`familyName, f`fullName, tree`files
    ensures ok <==> AllPresent(walk, old(tree.files))
    ensures !ok ==> exists k :: 0 <= k < |walk| && FailsAt(walk, k, old(tree.files), tree.files)
    ensures ok ==>
              && f.glyphs == GlyphTable(Sources(walk, old(tree.files)), ligatures)
              && tree.files == SourcesAfter(walk, old(tree.files))
              && f.widthPasses == WidthPasses(|walk|)
              && f.fontName == Some(font) && f.familyName == Some(font) && f.fullName == Some(font)
              && feed == Feed(Accepted(walk))
  {
    var given;
    ok, feed, given := BuildGlyphs(f, tree, walk, ligatures);
    assert [] + WidthPasses(|walk|) == WidthPasses(|walk|);
    if ok {
      SetNames(f, font);
    }
  }

  /** One run of the script on the walk of the input directory. `ok` is false exactly
      when some walked file does not exist; then no output file is written, and the
      source SVGs walked before that file are already stripped. On
      success the session holds the files `Outputs` describes for the base name
      `fontfile`, and `fontfile` has been printed. */
  method GenerateFont(args: Args, tree: SourceTree, walk: seq<Entry>, digest: Bytes -> Bytes,
                      outDisk: map<Bytes, Artifact>, svgText: Bytes, hinter: bool, hintStatus: int, eotStatus: int)
    returns (ok: bool, f: Font, fontfile: Bytes, session: Session)
    modifies tree`files
    ensures fresh(f) && fresh(session)
    ensures ok <==> AllPresent(walk, old(tree.files))
    ensures !ok ==> session.disk == outDisk && session.output == []
    ensures !ok ==> exists k :: 0 <= k < |walk| && FailsAt(walk, k, old(tree.files), tree.files)
    ensures ok ==>
              && f.glyphs == GlyphTable(Sources(walk, old(tree.files)), args.ligatures)
              && f.widthPasses == WidthPasses(|walk|)
              && tree.files == SourcesAfter(walk, old(tree.files))
              && fontfile == FontFile(args.outputDir, args.font, args.hashes, digest(Feed(Accepted(walk))))
              && session.disk == Outputs(outDisk, Names(fontfile), ParseTypes(args.types), hinter, hintStatus, eotStatus,
                                         args.ligatures, svgText)
              && session.output == [fontfile]
  {
    var feed;
    ok, f, feed := BuildFont(args, tree, walk);
    session := new Session(outDisk, svgText);
    fontfile := [];
    if ok {
      fontfile := FontFile(args.outputDir, args.font, args.hashes, digest(feed));
      var exported := session.RunExport(fontfile, ParseTypes(args.types), hinter, hintStatus, eotStatus, args.ligatures);
    }
  }
}
