/** The FontForge font object as far as the script uses it. FontForge's own algorithms
    (outline import, rounding, side bearings, auto width) are opaque: each call is
    recorded in the glyph or font record it changes. */
module Fonts {
  import opened ByteStrings

  datatype Option<T> = None | Some(value: T)

  /** One drawn piece of an outline: the single `moveTo((0, 0))` of a placeholder, or
      the outline `importOutlines(path)` read from `text`, what the file held then. */
  datatype Contour = OriginPoint | ImportedFrom(path: Bytes, text: Bytes)

  /** A rule added with `addPosSub(subtable, components)`. */
  datatype LigatureRule = LigatureRule(subtable: Bytes, components: seq<Bytes>)

  datatype Glyph = Glyph(
    name: Option<Bytes>,
    outline: seq<Contour>,
    sideBearingsZero: bool,
    rounded: bool,
    rules: seq<LigatureRule>)

  datatype Lookup = Lookup(name: Bytes, kind: Bytes, feature: Bytes, script: Bytes)

  datatype Subtable = Subtable(lookup: Bytes, name: Bytes)

  /** The arguments of one `autoWidth(separation, minBearing, maxBearing)` call. */
  datatype WidthPass = WidthPass(separation: int, minBearing: int, maxBearing: int)

  /** A glyph as `createChar` makes it. */
  function BlankGlyph(name: Option<Bytes>): Glyph {
    Glyph(name, [], false, false, [])
  }

  predicate HasLookup(lookups: seq<Lookup>, name: Bytes) {
    exists k :: 0 <= k < |lookups| && lookups[k].name == name
  }

  predicate HasSubtable(subtables: seq<Subtable>, name: Bytes) {
    exists k :: 0 <= k < |subtables| && subtables[k].name == name
  }

  class Font {
    var encoding: Bytes
    var designSize: int
    var em: int
    var ascent: int
    var descent: int
    var fontName: Option<Bytes>
    var familyName: Option<Bytes>
    var fullName: Option<Bytes>
    var glyphs: map<int, Glyph>
    var lookups: seq<Lookup>
    var subtables: seq<Subtable>
    var widthPasses: seq<WidthPass>

    /** `fontforge.font()`: a font with no glyphs, lookups or names. */
    constructor ()
      ensures glyphs == map[] && lookups == [] && subtables == [] && widthPasses == []
      ensures fontName == None && familyName == None && fullName == None
    {
      encoding := [];
      designSize, em, ascent, descent := 0, 0, 0, 0;
      fontName, familyName, fullName := None, None, None;
      glyphs := map[];
      lookups, subtables, widthPasses := [], [], [];
    }

    /** `createChar(cp, name)`: an existing glyph at `cp` is kept as it is (not renamed);
        otherwise a blank glyph is made there. */
    method CreateChar(cp: int, name: Option<Bytes>)
      modifies this`glyphs
      ensures glyphs == if cp in old(glyphs) then old(glyphs) else old(glyphs)[cp := BlankGlyph(name)]
    {
      if cp !in glyphs {
        glyphs := glyphs[cp := BlankGlyph(name)];
      }
    }

    /** `pen = glyph.glyphPen(); pen.moveTo((0, 0)); pen = None`: the pen replaces the
        outline with a single point at the origin. */
    method DrawOriginPoint(cp: int)
      requires cp in glyphs
      modifies this`glyphs
      ensures glyphs == old(glyphs)[cp := old(glyphs)[cp].(outline := [OriginPoint])]
    {
      glyphs := glyphs[cp := glyphs[cp].(outline := [OriginPoint])];
    }

    /** `glyph.addPosSub(subtable, components)`; FontForge refuses an unknown subtable. */
    method AddPosSub(cp: int, subtable: Bytes, components: seq<Bytes>)
      requires cp in glyphs && HasSubtable(subtables, subtable)
      modifies this`glyphs
      ensures glyphs == old(glyphs)[cp := old(glyphs)[cp].(rules := old(glyphs)[cp].rules + [LigatureRule(subtable, components)])]
    {
      glyphs := glyphs[cp := glyphs[cp].(rules := glyphs[cp].rules + [LigatureRule(subtable, components)])];
    }

    /** `glyph.importOutlines(path)`: the outline is read from the file at `path` as
        the file system `files` holds it when the call is made. */
    method ImportOutlines(cp: int, path: Bytes, files: map<Bytes, Bytes>)
      requires cp in glyphs && path in files
      modifies this`glyphs
      ensures glyphs == old(glyphs)[cp := old(glyphs)[cp].(outline := old(glyphs)[cp].outline + [ImportedFrom(path, files[path])])]
    {
      glyphs := glyphs[cp := glyphs[cp].(outline := glyphs[cp].outline + [ImportedFrom(path, files[path])])];
    }

    /** `glyph.left_side_bearing = glyph.right_side_bearing = 0` */
    method ZeroSideBearings(cp: int)
      requires cp in glyphs
      modifies this`glyphs
      ensures glyphs == old(glyphs)[cp := old(glyphs)[cp].(sideBearingsZero := true)]
    {
      glyphs := glyphs[cp := glyphs[cp].(sideBearingsZero := true)];
    }

    /** `glyph.round()` */
    method Round(cp: int)
      requires cp in glyphs
      modifies this`glyphs
      ensures glyphs == old(glyphs)[cp := old(glyphs)[cp].(rounded := true)]
    {
      glyphs := glyphs[cp := glyphs[cp].(rounded := true)];
    }

    /** `autoWidth(separation, minBearing, maxBearing)` over the whole font. */
    method AutoWidth(separation: int, minBearing: int, maxBearing: int)
      modifies this`widthPasses
      ensures widthPasses == old(widthPasses) + [WidthPass(separation, minBearing, maxBearing)]
    {
      widthPasses := widthPasses + [WidthPass(separation, minBearing, maxBearing)];
    }

    /** `addLookup(name, kind, (), ((feature, ((script, ('dflt')),)),))`; FontForge
        refuses a name already in use. */
    method AddLookup(name: Bytes, kind: Bytes, feature: Bytes, script: Bytes)
      requires !HasLookup(lookups, name)
      modifies this`lookups
      ensures lookups == old(lookups) + [Lookup(name, kind, feature, script)]
    {
      lookups := lookups + [Lookup(name, kind, feature, script)];
    }

    /** `addLookupSubtable(lookup, name)`; the lookup must exist. */
    method AddLookupSubtable(lookup: Bytes, name: Bytes)
      requires HasLookup(lookups, lookup)
      modifies this`subtables
      ensures subtables == old(subtables) + [Subtable(lookup, name)]
    {
      subtables := subtables + [Subtable(lookup, name)];
    }
  }
}
