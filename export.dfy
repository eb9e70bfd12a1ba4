/** Lines 98-141: writing the output files. FontForge's `generate`, the `ttfautohint`
    and `eotlitetool.py` processes and `fontforge.open` are opaque: a generated font
    is recorded by its format, whether its instructions came from `ttfautohint`, and
    whether it was generated with the `opentype` flag. The processes' exit statuses are
    inputs, and so is the text FontForge writes for an SVG font. */
module Export {
  import opened ByteStrings
  import opened PyStr
  import opened Config
  import opened Rewrites
  import opened Fonts

  /** The four output formats. */
  datatype Format = Ttf | Svg | Woff | Eot

  /** The file extension of a format. */
  function Ext(f: Format): Bytes {
    match f
    case Ttf => ".ttf"
    case Svg => ".svg"
    case Woff => ".woff"
    case Eot => ".eot"
  }

  /** The name a format goes by in the `types` argument. */
  function TypeName(f: Format): Bytes {
    match f
    case Ttf => "ttf"
    case Svg => "svg"
    case Woff => "woff"
    case Eot => "eot"
  }

  /** `fontfile + '.ttf'` and its siblings. */
  function FilePath(fontfile: Bytes, f: Format): Bytes {
    fontfile + Ext(f)
  }

  /** `fontfile + '-hinted.ttf'`, where `ttfautohint` writes. */
  function HintedPath(fontfile: Bytes): Bytes {
    fontfile + "-hinted.ttf"
  }

  /** What a file of the output directory holds. */
  datatype Artifact =
    | Binary(format: Format, hinted: bool, opentype: bool)
    | Text(content: Bytes)
    | Other

  /** One side effect of the export, in the order the script performs them. */
  datatype Step =
    | Generate(path: Bytes, format: Format, opentype: bool)  // `generate(path)`, lines 99-103
    | Hint(src: Bytes, dst: Bytes, status: int)              // `ttfautohint src dst`, line 112
    | Move(src: Bytes, dst: Bytes)                           // `mv src dst`, line 112
    | Reopen(path: Bytes)                                    // `f = fontforge.open(path)`, line 113
    | FixHeader(path: Bytes)                                 // lines 120-124
    | ConvertEot(src: Bytes, dst: Bytes, status: int)        // `eotlitetool.py src --output dst`, line 135
    | Remove(path: Bytes)                                    // `os.remove(path)`, line 139
    | Emit(file: Bytes)                                      // the JSON line, line 141

  /** The output directory; whether the font object `f` was loaded from a hinted TTF;
      the SVG font FontForge writes for `f` (TrueType instructions do not reach an SVG
      font, so reopening does not change it); and the values printed. */
  datatype World = World(disk: map<Bytes, Artifact>, fontHinted: bool, svgText: Bytes, output: seq<Bytes>)

  /** The file `generate(path)` writes: SVG text for `.svg`, otherwise a binary font in
      the format of the extension, hinted when the font was reopened from a hinted TTF. */
  function Generated(w: World, format: Format, opentype: bool): Artifact {
    if format == Svg then Text(w.svgText) else Binary(format, w.fontHinted, opentype)
  }

  /** One step. `None` is a Python exception: `fontforge.open`, `open(..., 'r+')` and
      `os.remove` raise on a missing file. The shell commands never raise; a failing
      process writes nothing. */
  function ApplyStep(w: World, s: Step): Option<World> {
    match s
    case Generate(path, format, opentype) =>
      Some(w.(disk := w.disk[path := Generated(w, format, opentype)]))
    case Hint(src, dst, status) =>
      if status == 0 && src in w.disk && w.disk[src].Binary? then
        Some(w.(disk := w.disk[dst := Binary(Ttf, true, w.disk[src].opentype)]))
      else Some(w)
    case Move(src, dst) =>
      if src in w.disk then Some(w.(disk := (w.disk - {src})[dst := w.disk[src]])) else Some(w)
    case Reopen(path) =>
      if path in w.disk && w.disk[path].Binary? then Some(w.(fontHinted := w.disk[path].hinted)) else None
    case FixHeader(path) =>
      if path in w.disk && w.disk[path].Text? then
        var text := w.disk[path].content;
        Some(w.(disk := w.disk[path := Text(Overwrite(text, 0, FixSvgHeader(text)))]))
      else None
    case ConvertEot(src, dst, status) =>
      if status == 0 && src in w.disk && w.disk[src].Binary? then
        Some(w.(disk := w.disk[dst := Binary(Eot, w.disk[src].hinted, w.disk[src].opentype)]))
      else Some(w)
    case Remove(path) =>
      if path in w.disk then Some(w.(disk := w.disk - {path})) else None
    case Emit(file) =>
      Some(w.(output := w.output + [file]))
  }

  /** The steps one after the other; an exception stops the script. */
  function Run(w: World, steps: seq<Step>): Option<World>
    decreases |steps|
  {
    if steps == [] then Some(w)
    else match ApplyStep(w, steps[0])
      case None => None
      case Some(w') => Run(w', steps[1..])
  }

  /** Running two lists of steps is running the first, then, unless it raised, the
      second. */
  lemma {:induction false} RunAppend(w: World, a: seq<Step>, b: seq<Step>)
    ensures Run(w, a + b) == if Run(w, a).None? then None else Run(Run(w, a).value, b)
    decreases |a|
  {
    if a == [] {
      assert a + b == b;
    } else {
      assert (a + b)[0] == a[0] && (a + b)[1..] == a[1..] + b;
      match ApplyStep(w, a[0])
      case None =>
      case Some(w') => RunAppend(w', a[1..], b);
    }
  }

  lemma RunOne(w: World, s: Step)
    ensures Run(w, [s]) == ApplyStep(w, s)
  {
    assert [s][1..] == [];
  }

  lemma RunPair(w: World, s1: Step, s2: Step, mid: World)
    requires ApplyStep(w, s1) == Some(mid)
    ensures Run(w, [s1, s2]) == ApplyStep(mid, s2)
  {
    assert [s1, s2][1..] == [s2];
    RunOne(mid, s2);
  }

  /** Running one more step after a prefix that ran. */
  lemma RunSnoc(w: World, done: seq<Step>, s: Step, now: World)
    requires Run(w, done) == Some(now)
    ensures Run(w, done + [s]) == ApplyStep(now, s)
  {
    RunAppend(w, done, [s]);
    RunOne(now, s);
  }

  /** Lines 99-103: `generate` passes `flags=('opentype')` exactly when ligatures are on. */
  function GenerateStep(fontfile: Bytes, f: Format, ligatures: bool): Step {
    Generate(FilePath(fontfile, f), f, ligatures)
  }

  /** Lines 109-113: `mv` runs only after `ttfautohint` exits 0 (the shell's `&&`), and
      the font is reopened from the TTF whenever the tool exists. */
  function HintSteps(fontfile: Bytes, hinter: bool, hintStatus: int): seq<Step> {
    if hinter then
      [Hint(FilePath(fontfile, Ttf), HintedPath(fontfile), hintStatus)]
      + (if hintStatus == 0 then [Move(HintedPath(fontfile), FilePath(fontfile, Ttf))] else [])
      + [Reopen(FilePath(fontfile, Ttf))]
    else []
  }

  /** Lines 116-124 */
  function SvgSteps(fontfile: Bytes, types: seq<Bytes>, ligatures: bool): seq<Step> {
    if Requested(types, TypeName(Svg)) then [GenerateStep(fontfile, Svg, ligatures), FixHeader(FilePath(fontfile, Svg))]
    else []
  }

  /** Lines 129-130 */
  function WoffSteps(fontfile: Bytes, types: seq<Bytes>, ligatures: bool): seq<Step> {
    if Requested(types, TypeName(Woff)) then [GenerateStep(fontfile, Woff, ligatures)] else []
  }

  /** Lines 133-135: the EOT is converted from the TTF file. */
  function EotSteps(fontfile: Bytes, types: seq<Bytes>, eotStatus: int): seq<Step> {
    if Requested(types, TypeName(Eot)) then [ConvertEot(FilePath(fontfile, Ttf), FilePath(fontfile, Eot), eotStatus)]
    else []
  }

  /** Lines 138-139 */
  function CleanupSteps(fontfile: Bytes, types: seq<Bytes>): seq<Step> {
    if !Requested(types, TypeName(Ttf)) then [Remove(FilePath(fontfile, Ttf))] else []
  }

  /** Lines 115-139: the requested formats, then the cleanup. */
  function PublishSteps(fontfile: Bytes, types: seq<Bytes>, eotStatus: int, ligatures: bool): seq<Step> {
    SvgSteps(fontfile, types, ligatures) + WoffSteps(fontfile, types, ligatures)
    + EotSteps(fontfile, types, eotStatus) + CleanupSteps(fontfile, types)
  }

  /** Lines 106-141: what the script does once the font is built. `hinter` is whether
      `find_executable('ttfautohint')` found the tool, `hintStatus` what the hinter
      exits with, `eotStatus` what the EOT converter exits with. */
  function ExportPlan(fontfile: Bytes, types: seq<Bytes>, hinter: bool, hintStatus: int, eotStatus: int,
                      ligatures: bool): seq<Step>
  {
    [GenerateStep(fontfile, Ttf, ligatures)]
    + HintSteps(fontfile, hinter, hintStatus)
    + PublishSteps(fontfile, types, eotStatus, ligatures)
    + [Emit(fontfile)]
  }

  /** The steps of each part of the plan, stated without sequences. */
  predicate IsHintStep(s: Step, fontfile: Bytes, hinter: bool, hintStatus: int) {
    && hinter
    && (|| s == Hint(FilePath(fontfile, Ttf), HintedPath(fontfile), hintStatus)
        || (hintStatus == 0 && s == Move(HintedPath(fontfile), FilePath(fontfile, Ttf)))
        || s == Reopen(FilePath(fontfile, Ttf)))
  }

  predicate IsSvgStep(s: Step, fontfile: Bytes, types: seq<Bytes>, ligatures: bool) {
    Requested(types, "svg") && (s == GenerateStep(fontfile, Svg, ligatures) || s == FixHeader(FilePath(fontfile, Svg)))
  }

  predicate IsWoffStep(s: Step, fontfile: Bytes, types: seq<Bytes>, ligatures: bool) {
    Requested(types, "woff") && s == GenerateStep(fontfile, Woff, ligatures)
  }

  predicate IsEotStep(s: Step, fontfile: Bytes, types: seq<Bytes>, eotStatus: int) {
    Requested(types, "eot") && s == ConvertEot(FilePath(fontfile, Ttf), FilePath(fontfile, Eot), eotStatus)
  }

  predicate IsCleanupStep(s: Step, fontfile: Bytes, types: seq<Bytes>) {
    !Requested(types, "ttf") && s == Remove(FilePath(fontfile, Ttf))
  }

  lemma HintMembers(s: Step, fontfile: Bytes, hinter: bool, hintStatus: int)
    ensures s in HintSteps(fontfile, hinter, hintStatus) <==> IsHintStep(s, fontfile, hinter, hintStatus)
  {
  }

  lemma PublishMembers(s: Step, fontfile: Bytes, types: seq<Bytes>, eotStatus: int, ligatures: bool)
    ensures s in PublishSteps(fontfile, types, eotStatus, ligatures) <==>
            || IsSvgStep(s, fontfile, types, ligatures)
            || IsWoffStep(s, fontfile, types, ligatures)
            || IsEotStep(s, fontfile, types, eotStatus)
            || IsCleanupStep(s, fontfile, types)
  {
    var sv, wf, e, c := SvgSteps(fontfile, types, ligatures), WoffSteps(fontfile, types, ligatures),
                        EotSteps(fontfile, types, eotStatus), CleanupSteps(fontfile, types);
    assert s in sv <==> IsSvgStep(s, fontfile, types, ligatures);
    assert s in wf <==> IsWoffStep(s, fontfile, types, ligatures);
    assert s in e <==> IsEotStep(s, fontfile, types, eotStatus);
    assert s in c <==> IsCleanupStep(s, fontfile, types);
  }

  /** A step is in the plan exactly when it is in one of its parts. */
  lemma PlanMembers(fontfile: Bytes, types: seq<Bytes>, hinter: bool, hintStatus: int, eotStatus: int, ligatures: bool,
                    s: Step)
    ensures s in ExportPlan(fontfile, types, hinter, hintStatus, eotStatus, ligatures) <==>
            || s == GenerateStep(fontfile, Ttf, ligatures)
            || IsHintStep(s, fontfile, hinter, hintStatus)
            || IsSvgStep(s, fontfile, types, ligatures)
            || IsWoffStep(s, fontfile, types, ligatures)
            || IsEotStep(s, fontfile, types, eotStatus)
            || IsCleanupStep(s, fontfile, types)
            || s == Emit(fontfile)
  {
    HintMembers(s, fontfile, hinter, hintStatus);
    PublishMembers(s, fontfile, types, eotStatus, ligatures);
  }

  /** The TTF is generated first and the result is printed last; the TTF is removed just
      before, exactly when `ttf` was not requested. */
  lemma PlanBookends(fontfile: Bytes, types: seq<Bytes>, hinter: bool, hintStatus: int, eotStatus: int, ligatures: bool)
    ensures var plan := ExportPlan(fontfile, types, hinter, hintStatus, eotStatus, ligatures);
            && |plan| >= 2
            && plan[0] == GenerateStep(fontfile, Ttf, ligatures)
            && plan[|plan| - 1] == Emit(fontfile)
            && (plan[|plan| - 2] == Remove(FilePath(fontfile, Ttf)) <==> !Requested(types, "ttf"))
            && (Remove(FilePath(fontfile, Ttf)) in plan <==> !Requested(types, "ttf"))
  {
    var plan := ExportPlan(fontfile, types, hinter, hintStatus, eotStatus, ligatures);
    var c := CleanupSteps(fontfile, types);
    var front := [GenerateStep(fontfile, Ttf, ligatures)] + HintSteps(fontfile, hinter, hintStatus)
                 + (SvgSteps(fontfile, types, ligatures) + WoffSteps(fontfile, types, ligatures) + EotSteps(fontfile, types, eotStatus));
    assert plan == front + c + [Emit(fontfile)];
    PlanMembers(fontfile, types, hinter, hintStatus, eotStatus, ligatures, Remove(FilePath(fontfile, Ttf)));
    if Requested(types, "ttf") {
      var k := |plan| - 2;
      assert plan[k] == front[k];
    }
  }

  /** The hinter runs exactly when it was found; `mv` runs exactly when it also exited 0;
      the font is reopened from the TTF exactly when the hinter was found. */
  lemma PlanHinting(fontfile: Bytes, types: seq<Bytes>, hinter: bool, hintStatus: int, eotStatus: int, ligatures: bool)
    ensures var plan := ExportPlan(fontfile, types, hinter, hintStatus, eotStatus, ligatures);
            && (Hint(FilePath(fontfile, Ttf), HintedPath(fontfile), hintStatus) in plan <==> hinter)
            && (Move(HintedPath(fontfile), FilePath(fontfile, Ttf)) in plan <==> hinter && hintStatus == 0)
            && (Reopen(FilePath(fontfile, Ttf)) in plan <==> hinter)
  {
    var ttf, hinted := FilePath(fontfile, Ttf), HintedPath(fontfile);
    PlanMembers(fontfile, types, hinter, hintStatus, eotStatus, ligatures, Hint(ttf, hinted, hintStatus));
    PlanMembers(fontfile, types, hinter, hintStatus, eotStatus, ligatures, Move(hinted, ttf));
    PlanMembers(fontfile, types, hinter, hintStatus, eotStatus, ligatures, Reopen(ttf));
  }

  /** What a step of the plan may name: the files `fontfile + ext` and the hinter's
      temporary file, and `fontfile` itself as the printed result. Every `generate`
      call writes the file of its format, with the `opentype` flag exactly when
      ligatures are on. */
  predicate NamesArtifacts(s: Step, fontfile: Bytes, ligatures: bool) {
    match s
    case Generate(path, format, opentype) => path == FilePath(fontfile, format) && format != Eot && opentype == ligatures
    case Hint(src, dst, _) => src == FilePath(fontfile, Ttf) && dst == HintedPath(fontfile)
    case Move(src, dst) => src == HintedPath(fontfile) && dst == FilePath(fontfile, Ttf)
    case Reopen(path) => path == FilePath(fontfile, Ttf)
    case FixHeader(path) => path == FilePath(fontfile, Svg)
    case ConvertEot(src, dst, _) => src == FilePath(fontfile, Ttf) && dst == FilePath(fontfile, Eot)
    case Remove(path) => path == FilePath(fontfile, Ttf)
    case Emit(file) => file == fontfile
  }

  lemma PlanPaths(fontfile: Bytes, types: seq<Bytes>, hinter: bool, hintStatus: int, eotStatus: int, ligatures: bool)
    ensures forall s | s in ExportPlan(fontfile, types, hinter, hintStatus, eotStatus, ligatures) ::
              NamesArtifacts(s, fontfile, ligatures)
  {
    forall s | s in ExportPlan(fontfile, types, hinter, hintStatus, eotStatus, ligatures)
      ensures NamesArtifacts(s, fontfile, ligatures)
    {
      PlanMembers(fontfile, types, hinter, hintStatus, eotStatus, ligatures, s);
    }
  }

  /** The SVG is generated exactly when `svg` was requested. */
  lemma PlanSvg(fontfile: Bytes, types: seq<Bytes>, hinter: bool, hintStatus: int, eotStatus: int, ligatures: bool)
    ensures GenerateStep(fontfile, Svg, ligatures) in ExportPlan(fontfile, types, hinter, hintStatus, eotStatus, ligatures)
            <==> Requested(types, "svg")
  {
    PlanMembers(fontfile, types, hinter, hintStatus, eotStatus, ligatures, GenerateStep(fontfile, Svg, ligatures));
  }

  /** The SVG's header is fixed exactly when `svg` was requested. */
  lemma PlanSvgFix(fontfile: Bytes, types: seq<Bytes>, hinter: bool, hintStatus: int, eotStatus: int, ligatures: bool)
    ensures FixHeader(FilePath(fontfile, Svg)) in ExportPlan(fontfile, types, hinter, hintStatus, eotStatus, ligatures)
            <==> Requested(types, "svg")
  {
    PlanMembers(fontfile, types, hinter, hintStatus, eotStatus, ligatures, FixHeader(FilePath(fontfile, Svg)));
  }

  /** The WOFF is generated exactly when `woff` was requested. */
  lemma PlanWoff(fontfile: Bytes, types: seq<Bytes>, hinter: bool, hintStatus: int, eotStatus: int, ligatures: bool)
    ensures GenerateStep(fontfile, Woff, ligatures) in ExportPlan(fontfile, types, hinter, hintStatus, eotStatus, ligatures)
            <==> Requested(types, "woff")
  {
    PlanMembers(fontfile, types, hinter, hintStatus, eotStatus, ligatures, GenerateStep(fontfile, Woff, ligatures));
  }

  /** The EOT converter runs exactly when `eot` was requested. */
  lemma PlanEot(fontfile: Bytes, types: seq<Bytes>, hinter: bool, hintStatus: int, eotStatus: int, ligatures: bool)
    ensures ConvertEot(FilePath(fontfile, Ttf), FilePath(fontfile, Eot), eotStatus)
              in ExportPlan(fontfile, types, hinter, hintStatus, eotStatus, ligatures)
            <==> Requested(types, "eot")
  {
    PlanMembers(fontfile, types, hinter, hintStatus, eotStatus, ligatures,
                ConvertEot(FilePath(fontfile, Ttf), FilePath(fontfile, Eot), eotStatus));
  }

  /** The five files of one font have five different names. */
  lemma PathsDistinct(fontfile: Bytes)
    ensures forall f, g :: f != g ==> FilePath(fontfile, f) != FilePath(fontfile, g)
    ensures forall f :: FilePath(fontfile, f) != HintedPath(fontfile)
  {
    forall f, g | f != g ensures FilePath(fontfile, f) != FilePath(fontfile, g) {
      assert FilePath(fontfile, f)[|fontfile|..] == Ext(f);
      assert FilePath(fontfile, g)[|fontfile|..] == Ext(g);
      assert Ext(f) != Ext(g) by {
        if |Ext(f)| == |Ext(g)| {
          assert Ext(f)[1] != Ext(g)[1];
        }
      }
    }
    forall f ensures FilePath(fontfile, f) != HintedPath(fontfile) {
      assert |FilePath(fontfile, f)| < |HintedPath(fontfile)|;
    }
  }

  /** The five paths one export touches. */
  datatype OutputNames = OutputNames(ttf: Bytes, svg: Bytes, woff: Bytes, eot: Bytes, hinted: Bytes)

  function Names(fontfile: Bytes): OutputNames {
    OutputNames(FilePath(fontfile, Ttf), FilePath(fontfile, Svg), FilePath(fontfile, Woff), FilePath(fontfile, Eot),
                HintedPath(fontfile))
  }

  predicate Distinct(n: OutputNames) {
    && n.ttf != n.svg && n.ttf != n.woff && n.ttf != n.eot && n.ttf != n.hinted
    && n.svg != n.woff && n.svg != n.eot && n.svg != n.hinted
    && n.woff != n.eot && n.woff != n.hinted && n.eot != n.hinted
  }

  lemma NamesDistinct(fontfile: Bytes)
    ensures Distinct(Names(fontfile))
  {
    PathsDistinct(fontfile);
  }

  /** The write at offset 0 of lines 120-124 leaves exactly the fixed text, since the
      fix never shortens it. */
  lemma FixHeaderWritesFixedText(text: Bytes)
    ensures Overwrite(text, 0, FixSvgHeader(text)) == FixSvgHeader(text)
  {
    FixSvgHeaderGrows(text);
    OverwriteCovers(text, FixSvgHeader(text));
  }

  /** Whether the final fonts carry `ttfautohint`'s instructions. */
  predicate HintedOutputs(hinter: bool, hintStatus: int) {
    hinter && hintStatus == 0
  }

  /** The output directory after the TTF is generated and the hinter, if found, ran:
      the TTF is hinted exactly when the hinter succeeded, and then the temporary
      hinted TTF has been moved over it. */
  function AfterHint(files: map<Bytes, Artifact>, n: OutputNames, h: bool, ligatures: bool): map<Bytes, Artifact> {
    (if h then files - {n.hinted} else files)[n.ttf := Binary(Ttf, h, ligatures)]
  }

  /** The requested formats written next to that TTF: the fixed SVG, the WOFF, the EOT
      if its converter succeeded, and the TTF gone unless requested. */
  function Published(d: map<Bytes, Artifact>, n: OutputNames, types: seq<Bytes>, eotStatus: int, h: bool,
                     ligatures: bool, svgText: Bytes): map<Bytes, Artifact>
  {
    var d2 := if Requested(types, "svg") then d[n.svg := Text(FixSvgHeader(svgText))] else d;
    var d3 := if Requested(types, "woff") then d2[n.woff := Binary(Woff, h, ligatures)] else d2;
    var d4 := if Requested(types, "eot") && eotStatus == 0 then d3[n.eot := Binary(Eot, h, ligatures)] else d3;
    if !Requested(types, "ttf") then d4 - {n.ttf} else d4
  }

  /** The output directory after the export. */
  function Outputs(files: map<Bytes, Artifact>, n: OutputNames, types: seq<Bytes>, hinter: bool, hintStatus: int,
                   eotStatus: int, ligatures: bool, svgText: Bytes): map<Bytes, Artifact>
  {
    var h := HintedOutputs(hinter, hintStatus);
    Published(AfterHint(files, n, h, ligatures), n, types, eotStatus, h, ligatures, svgText)
  }

  /** Lines 106-113 with the hinter found, for any two different paths. */
  lemma HintRun(w: World, ttf: Bytes, hinted: Bytes, hintStatus: int, ligatures: bool)
    requires ttf != hinted && !w.fontHinted
    ensures var ok := hintStatus == 0;
            Run(w, [Generate(ttf, Ttf, ligatures), Hint(ttf, hinted, hintStatus)]
                   + (if ok then [Move(hinted, ttf)] else []) + [Reopen(ttf)])
            == Some(w.(disk := (if ok then w.disk - {hinted} else w.disk)[ttf := Binary(Ttf, ok, ligatures)], fontHinted := ok))
  {
    var g, hint, reopen := Generate(ttf, Ttf, ligatures), Hint(ttf, hinted, hintStatus), Reopen(ttf);
    var w1 := w.(disk := w.disk[ttf := Binary(Ttf, false, ligatures)]);
    assert ApplyStep(w, g) == Some(w1);
    if hintStatus == 0 {
      var mv := Move(hinted, ttf);
      var w2 := w1.(disk := w1.disk[hinted := Binary(Ttf, true, ligatures)]);
      var w3 := w2.(disk := (w2.disk - {hinted})[ttf := Binary(Ttf, true, ligatures)]);
      assert ApplyStep(w1, hint) == Some(w2);
      assert ApplyStep(w2, mv) == Some(w3);
      RunPair(w2, mv, reopen, w3);
      assert [g, hint] + [mv] + [reopen] == [g, hint, mv, reopen];
      assert [g, hint, mv, reopen][1..] == [hint, mv, reopen] && [hint, mv, reopen][1..] == [mv, reopen];
      assert w3.disk == (w.disk - {hinted})[ttf := Binary(Ttf, true, ligatures)];
    } else {
      assert ApplyStep(w1, hint) == Some(w1);
      RunPair(w1, hint, reopen, w1);
      assert [g, hint] + [] + [reopen] == [g, hint, reopen];
      assert [g, hint, reopen][1..] == [hint, reopen];
    }
  }

  /** The disk after generating the TTF and running the hinter, if found. */
  lemma RunHintSteps(w: World, fontfile: Bytes, hinter: bool, hintStatus: int, ligatures: bool)
    requires !w.fontHinted
    ensures var h := HintedOutputs(hinter, hintStatus);
            Run(w, [GenerateStep(fontfile, Ttf, ligatures)] + HintSteps(fontfile, hinter, hintStatus))
            == Some(w.(disk := AfterHint(w.disk, Names(fontfile), h, ligatures), fontHinted := h))
  {
    var n := Names(fontfile);
    var g := GenerateStep(fontfile, Ttf, ligatures);
    if hinter {
      NamesDistinct(fontfile);
      HintRun(w, n.ttf, n.hinted, hintStatus, ligatures);
      assert [g] + HintSteps(fontfile, hinter, hintStatus) ==
             [Generate(n.ttf, Ttf, ligatures), Hint(n.ttf, n.hinted, hintStatus)]
             + (if hintStatus == 0 then [Move(n.hinted, n.ttf)] else []) + [Reopen(n.ttf)];
    } else {
      assert [g] + HintSteps(fontfile, hinter, hintStatus) == [g];
      RunOne(w, g);
    }
  }

  /** Lines 116-124 on a disk: the SVG ends up holding the fixed text. */
  lemma RunSvgSteps(w: World, fontfile: Bytes, types: seq<Bytes>, ligatures: bool)
    ensures Run(w, SvgSteps(fontfile, types, ligatures)) ==
            Some(if Requested(types, "svg") then w.(disk := w.disk[FilePath(fontfile, Svg) := Text(FixSvgHeader(w.svgText))]) else w)
  {
    if Requested(types, "svg") {
      var svg := FilePath(fontfile, Svg);
      var mid := w.(disk := w.disk[svg := Text(w.svgText)]);
      assert ApplyStep(w, GenerateStep(fontfile, Svg, ligatures)) == Some(mid);
      FixHeaderWritesFixedText(w.svgText);
      RunPair(w, GenerateStep(fontfile, Svg, ligatures), FixHeader(svg), mid);
      assert mid.disk[svg := Text(FixSvgHeader(w.svgText))] == w.disk[svg := Text(FixSvgHeader(w.svgText))];
    }
  }

  /** Lines 129-130 on a disk. */
  lemma RunWoffSteps(w: World, fontfile: Bytes, types: seq<Bytes>, ligatures: bool)
    ensures Run(w, WoffSteps(fontfile, types, ligatures)) ==
            Some(if Requested(types, "woff") then w.(disk := w.disk[FilePath(fontfile, Woff) := Binary(Woff, w.fontHinted, ligatures)]) else w)
  {
    RunOne(w, GenerateStep(fontfile, Woff, ligatures));
  }

  /** Lines 133-135 on a disk: the EOT is converted from the TTF file as it is then. */
  lemma RunEotSteps(w: World, fontfile: Bytes, types: seq<Bytes>, eotStatus: int)
    ensures var ttf := FilePath(fontfile, Ttf);
            Run(w, EotSteps(fontfile, types, eotStatus)) ==
            Some(if Requested(types, "eot") && eotStatus == 0 && ttf in w.disk && w.disk[ttf].Binary? then
                   w.(disk := w.disk[FilePath(fontfile, Eot) := Binary(Eot, w.disk[ttf].hinted, w.disk[ttf].opentype)])
                 else w)
  {
    RunOne(w, ConvertEot(FilePath(fontfile, Ttf), FilePath(fontfile, Eot), eotStatus));
  }

  /** Lines 138-139 on a disk that holds the TTF. */
  lemma RunCleanupSteps(w: World, fontfile: Bytes, types: seq<Bytes>)
    requires FilePath(fontfile, Ttf) in w.disk
    ensures Run(w, CleanupSteps(fontfile, types)) ==
            Some(if !Requested(types, "ttf") then w.(disk := w.disk - {FilePath(fontfile, Ttf)}) else w)
  {
    RunOne(w, Remove(FilePath(fontfile, Ttf)));
  }

  /** Lines 115-139 after a TTF generated from the current font. */
  lemma RunPublishSteps(w: World, fontfile: Bytes, types: seq<Bytes>, eotStatus: int, ligatures: bool)
    requires FilePath(fontfile, Ttf) in w.disk && w.disk[FilePath(fontfile, Ttf)] == Binary(Ttf, w.fontHinted, ligatures)
    ensures Run(w, PublishSteps(fontfile, types, eotStatus, ligatures)) ==
            Some(w.(disk := Published(w.disk, Names(fontfile), types, eotStatus, w.fontHinted, ligatures, w.svgText)))
  {
    var h, ttf := w.fontHinted, FilePath(fontfile, Ttf);
    PathsDistinct(fontfile);
    var s, wf, e, c := SvgSteps(fontfile, types, ligatures), WoffSteps(fontfile, types, ligatures),
                       EotSteps(fontfile, types, eotStatus), CleanupSteps(fontfile, types);
    var w2 := if Requested(types, "svg") then w.(disk := w.disk[FilePath(fontfile, Svg) := Text(FixSvgHeader(w.svgText))]) else w;
    RunSvgSteps(w, fontfile, types, ligatures);
    assert w2.disk[ttf] == Binary(Ttf, h, ligatures) && w2.fontHinted == h;
    var w3 := if Requested(types, "woff") then w2.(disk := w2.disk[FilePath(fontfile, Woff) := Binary(Woff, h, ligatures)]) else w2;
    RunWoffSteps(w2, fontfile, types, ligatures);
    RunAppend(w, s, wf);
    assert w3.disk[ttf] == Binary(Ttf, h, ligatures);
    var w4 := if Requested(types, "eot") && eotStatus == 0 then w3.(disk := w3.disk[FilePath(fontfile, Eot) := Binary(Eot, h, ligatures)]) else w3;
    RunEotSteps(w3, fontfile, types, eotStatus);
    RunAppend(w, s + wf, e);
    assert ttf in w4.disk;
    RunCleanupSteps(w4, fontfile, types);
    RunAppend(w, s + wf + e, c);
  }

  /** Running the plan on any output directory never raises, and leaves exactly the
      files `Outputs` describes, with `fontfile` printed once more. */
  lemma ExportRuns(w: World, fontfile: Bytes, types: seq<Bytes>, hinter: bool, hintStatus: int, eotStatus: int,
                   ligatures: bool)
    requires !w.fontHinted
    ensures Run(w, ExportPlan(fontfile, types, hinter, hintStatus, eotStatus, ligatures))
            == Some(w.(disk := Outputs(w.disk, Names(fontfile), types, hinter, hintStatus, eotStatus, ligatures, w.svgText),
                       fontHinted := HintedOutputs(hinter, hintStatus), output := w.output + [fontfile]))
  {
    var h := HintedOutputs(hinter, hintStatus);
    var p1 := [GenerateStep(fontfile, Ttf, ligatures)] + HintSteps(fontfile, hinter, hintStatus);
    var p2 := PublishSteps(fontfile, types, eotStatus, ligatures);
    var w1 := w.(disk := AfterHint(w.disk, Names(fontfile), h, ligatures), fontHinted := h);
    RunHintSteps(w, fontfile, hinter, hintStatus, ligatures);
    RunPublishSteps(w1, fontfile, types, eotStatus, ligatures);
    RunAppend(w, p1, p2);
    var w2 := w1.(disk := Outputs(w.disk, Names(fontfile), types, hinter, hintStatus, eotStatus, ligatures, w.svgText));
    RunSnoc(w, p1 + p2, Emit(fontfile), w2);
  }

  /** A path the export leaves as it was: present exactly when it was, with the same
      content. */
  predicate Kept(before: map<Bytes, Artifact>, after: map<Bytes, Artifact>, p: Bytes) {
    (p in after <==> p in before) && (p in before ==> after[p] == before[p])
  }

  /** The TTF survives exactly when `ttf` was requested, hinted exactly when the hinter
      was found and succeeded. */
  lemma OutputTtf(files: map<Bytes, Artifact>, n: OutputNames, types: seq<Bytes>, hinter: bool, hintStatus: int,
                  eotStatus: int, ligatures: bool, svgText: Bytes)
    requires Distinct(n)
    ensures var out := Outputs(files, n, types, hinter, hintStatus, eotStatus, ligatures, svgText);
            && (n.ttf in out <==> Requested(types, "ttf"))
            && (Requested(types, "ttf") ==> out[n.ttf] == Binary(Ttf, HintedOutputs(hinter, hintStatus), ligatures))
  {
  }

  /** A requested SVG holds FontForge's SVG with the namespace added and no bare `<svg>`
      tag left; otherwise the SVG path is left alone. */
  lemma OutputSvg(files: map<Bytes, Artifact>, n: OutputNames, types: seq<Bytes>, hinter: bool, hintStatus: int,
                  eotStatus: int, ligatures: bool, svgText: Bytes)
    requires Distinct(n)
    ensures var out := Outputs(files, n, types, hinter, hintStatus, eotStatus, ligatures, svgText);
            && (Requested(types, "svg") ==>
                  n.svg in out && out[n.svg] == Text(FixSvgHeader(svgText)) && !Contains(out[n.svg].content, SvgTag))
            && (!Requested(types, "svg") ==> Kept(files, out, n.svg))
  {
    FixSvgHeaderLeavesNoBareTag(svgText);
  }

  /** A requested WOFF is a font as hinted as the TTF; otherwise the WOFF path is left
      alone. */
  lemma OutputWoff(files: map<Bytes, Artifact>, n: OutputNames, types: seq<Bytes>, hinter: bool, hintStatus: int,
                  eotStatus: int, ligatures: bool, svgText: Bytes)
    requires Distinct(n)
    ensures var out := Outputs(files, n, types, hinter, hintStatus, eotStatus, ligatures, svgText);
            && (Requested(types, "woff") ==> n.woff in out && out[n.woff] == Binary(Woff, HintedOutputs(hinter, hintStatus), ligatures))
            && (!Requested(types, "woff") ==> Kept(files, out, n.woff))
  {
  }

  /** The EOT is written when it was requested and the converter succeeded, from the
      final TTF; otherwise the EOT path is left alone. */
  lemma OutputEot(files: map<Bytes, Artifact>, n: OutputNames, types: seq<Bytes>, hinter: bool, hintStatus: int,
                  eotStatus: int, ligatures: bool, svgText: Bytes)
    requires Distinct(n)
    ensures var out := Outputs(files, n, types, hinter, hintStatus, eotStatus, ligatures, svgText);
            && (Requested(types, "eot") && eotStatus == 0 ==>
                  n.eot in out && out[n.eot] == Binary(Eot, HintedOutputs(hinter, hintStatus), ligatures))
            && (!(Requested(types, "eot") && eotStatus == 0) ==> Kept(files, out, n.eot))
  {
  }

  /** After a successful hint the temporary file is gone; otherwise it is left alone (a
      failed `ttfautohint` writes nothing, and `mv` only runs after a success). */
  lemma OutputHintedTemp(files: map<Bytes, Artifact>, n: OutputNames, types: seq<Bytes>, hinter: bool, hintStatus: int,
                  eotStatus: int, ligatures: bool, svgText: Bytes)
    requires Distinct(n)
    ensures var out := Outputs(files, n, types, hinter, hintStatus, eotStatus, ligatures, svgText);
            && (HintedOutputs(hinter, hintStatus) ==> n.hinted !in out)
            && (!HintedOutputs(hinter, hintStatus) ==> Kept(files, out, n.hinted))
  {
  }

  /** Every other file of the output directory is left alone. */
  lemma OutputOthers(files: map<Bytes, Artifact>, n: OutputNames, types: seq<Bytes>, hinter: bool, hintStatus: int,
                  eotStatus: int, ligatures: bool, svgText: Bytes, p: Bytes)
    requires p != n.ttf && p != n.svg && p != n.woff && p != n.eot && p != n.hinted
    ensures Kept(files, Outputs(files, n, types, hinter, hintStatus, eotStatus, ligatures, svgText), p)
  {
  }

  /** `-t woff` without `ttfautohint`: the directory gains an unhinted WOFF and nothing
      else, and a TTF that was there before is removed. */
  lemma WoffOnly(files: map<Bytes, Artifact>, n: OutputNames, ligatures: bool, svgText: Bytes, types: seq<Bytes>)
    requires Distinct(n) && types == ["woff"]
    ensures Outputs(files, n, types, false, 0, 0, ligatures, svgText) == files[n.woff := Binary(Woff, false, ligatures)] - {n.ttf}
  {
    assert !Requested(types, "svg") && !Requested(types, "eot") && !Requested(types, "ttf") by {
      assert types[0][0] == 'w';
    }
  }

  /** After a prefix that ran, the rest runs from where it left off. */
  lemma RunChain(w: World, a: seq<Step>, b: seq<Step>, mid: World)
    requires Run(w, a) == Some(mid)
    ensures Run(w, a + b) == Run(mid, b)
  {
    RunAppend(w, a, b);
  }

  /** After a prefix that raised, nothing else runs. */
  lemma RunStops(w: World, a: seq<Step>, b: seq<Step>)
    requires Run(w, a) == None
    ensures Run(w, a + b) == None
  {
    RunAppend(w, a, b);
  }

  /** The script's side effects on the output directory, the font variable `f` and
      standard output, one method per statement of lines 98-141. */
  class Session {
    var disk: map<Bytes, Artifact>
    var fontHinted: bool
    var svgText: Bytes
    var output: seq<Bytes>

    function State(): World
      reads this
    {
      World(disk, fontHinted, svgText, output)
    }

    /** The output directory as the script finds it, and the font it has built. */
    constructor (files: map<Bytes, Artifact>, svg: Bytes)
      ensures State() == World(files, false, svg, [])
    {
      disk, fontHinted, svgText, output := files, false, svg, [];
    }

    /** `generate(path)` (lines 99-103) */
    method GenerateFile(path: Bytes, format: Format, opentype: bool)
      modifies this`disk
      ensures ApplyStep(old(State()), Generate(path, format, opentype)) == Some(State())
    {
      disk := disk[path := Generated(State(), format, opentype)];
    }

    /** `ttfautohint src dst` (line 112): on success `dst` is the hinted copy of `src`. */
    method RunHinter(src: Bytes, dst: Bytes, status: int)
      modifies this`disk
      ensures ApplyStep(old(State()), Hint(src, dst, status)) == Some(State())
    {
      if status == 0 && src in disk && disk[src].Binary? {
        disk := disk[dst := Binary(Ttf, true, disk[src].opentype)];
      }
    }

    /** `mv src dst` (line 112); `mv` of a missing file changes nothing. */
    method MoveFile(src: Bytes, dst: Bytes)
      modifies this`disk
      ensures ApplyStep(old(State()), Move(src, dst)) == Some(State())
    {
      if src in disk {
        disk := (disk - {src})[dst := disk[src]];
      }
    }

    /** `f = fontforge.open(path)` (line 113); `ok` is false where Python raises. */
    method ReopenFont(path: Bytes) returns (ok: bool)
      modifies this`fontHinted
      ensures ApplyStep(old(State()), Reopen(path)) == if ok then Some(State()) else None
    {
      ok := path in disk && disk[path].Binary?;
      if ok {
        fontHinted := disk[path].hinted;
      }
    }

    /** Lines 120-124: the file is opened `r+`, read, and the fixed text written over it
        from offset 0. */
    method FixSvgFile(path: Bytes) returns (ok: bool)
      modifies this`disk
      ensures ApplyStep(old(State()), FixHeader(path)) == if ok then Some(State()) else None
    {
      ok := path in disk && disk[path].Text?;
      if ok {
        var text := disk[path].content;
        var file := new TextFile.Open(text);
        FixSvgHeaderInPlace(file);
        FixHeaderWritesFixedText(text);
        disk := disk[path := Text(file.content)];
      }
    }

    /** `eotlitetool.py src --output dst` (line 135): on success `dst` is an EOT made
        from the font in `src`. */
    method ConvertToEot(src: Bytes, dst: Bytes, status: int)
      modifies this`disk
      ensures ApplyStep(old(State()), ConvertEot(src, dst, status)) == Some(State())
    {
      if status == 0 && src in disk && disk[src].Binary? {
        disk := disk[dst := Binary(Eot, disk[src].hinted, disk[src].opentype)];
      }
    }

    /** `os.remove(path)` (line 139); `ok` is false where Python raises. */
    method RemoveFile(path: Bytes) returns (ok: bool)
      modifies this`disk
      ensures ApplyStep(old(State()), Remove(path)) == if ok then Some(State()) else None
    {
      ok := path in disk;
      if ok {
        disk := disk - {path};
      }
    }

    /** `print(json.dumps({'file': fontfile}))` (line 141) */
    method PrintResult(file: Bytes)
      modifies this`output
      ensures ApplyStep(old(State()), Emit(file)) == Some(State())
    {
      output := output + [file];
    }

    /** Lines 109-113 */
    method HintTtf(fontfile: Bytes, hinter: bool, hintStatus: int) returns (ok: bool)
      modifies this`disk, this`fontHinted
      ensures Run(old(State()), HintSteps(fontfile, hinter, hintStatus)) == if ok then Some(State()) else None
    {
      ok := true;
      if hinter {
        ghost var w0 := State();
        var ttf, hinted := FilePath(fontfile, Ttf), HintedPath(fontfile);
        RunHinter(ttf, hinted, hintStatus);
        RunOne(w0, Hint(ttf, hinted, hintStatus));
        ghost var done := [Hint(ttf, hinted, hintStatus)];
        if hintStatus == 0 {
          ghost var before := State();
          MoveFile(hinted, ttf);
          RunSnoc(w0, done, Move(hinted, ttf), before);
          done := done + [Move(hinted, ttf)];
        }
        ghost var before := State();
        ok := ReopenFont(ttf);
        RunSnoc(w0, done, Reopen(ttf), before);
        assert done + [Reopen(ttf)] == HintSteps(fontfile, hinter, hintStatus);
      }
    }

    /** Lines 116-124 */
    method PublishSvg(fontfile: Bytes, types: seq<Bytes>, ligatures: bool) returns (ok: bool)
      modifies this`disk
      ensures Run(old(State()), SvgSteps(fontfile, types, ligatures)) == if ok then Some(State()) else None
    {
      ok := true;
      if Requested(types, "svg") {
        ghost var w0 := State();
        var svg := FilePath(fontfile, Svg);
        GenerateFile(svg, Svg, ligatures);
        ghost var mid := State();
        ok := FixSvgFile(svg);
        RunPair(w0, Generate(svg, Svg, ligatures), FixHeader(svg), mid);
      }
    }

    /** Lines 129-130 */
    method PublishWoff(fontfile: Bytes, types: seq<Bytes>, ligatures: bool)
      modifies this`disk
      ensures Run(old(State()), WoffSteps(fontfile, types, ligatures)) == Some(State())
    {
      if Requested(types, "woff") {
        ghost var w0 := State();
        GenerateFile(FilePath(fontfile, Woff), Woff, ligatures);
        RunOne(w0, GenerateStep(fontfile, Woff, ligatures));
      }
    }

    /** Lines 133-135 */
    method PublishEot(fontfile: Bytes, types: seq<Bytes>, eotStatus: int)
      modifies this`disk
      ensures Run(old(State()), EotSteps(fontfile, types, eotStatus)) == Some(State())
    {
      if Requested(types, "eot") {
        ghost var w0 := State();
        ConvertToEot(FilePath(fontfile, Ttf), FilePath(fontfile, Eot), eotStatus);
        RunOne(w0, ConvertEot(FilePath(fontfile, Ttf), FilePath(fontfile, Eot), eotStatus));
      }
    }

    /** Lines 138-139 */
    method Cleanup(fontfile: Bytes, types: seq<Bytes>) returns (ok: bool)
      modifies this`disk
      ensures Run(old(State()), CleanupSteps(fontfile, types)) == if ok then Some(State()) else None
    {
      ok := true;
      if !Requested(types, "ttf") {
        ghost var w0 := State();
        ok := RemoveFile(FilePath(fontfile, Ttf));
        RunOne(w0, Remove(FilePath(fontfile, Ttf)));
      }
    }

    /** Lines 115-139; an exception ends the script. */
    method Publish(fontfile: Bytes, types: seq<Bytes>, eotStatus: int, ligatures: bool) returns (ok: bool)
      modifies this`disk
      ensures Run(old(State()), PublishSteps(fontfile, types, eotStatus, ligatures)) == if ok then Some(State()) else None
    {
      ghost var w0 := State();
      var s, wf, e, c := SvgSteps(fontfile, types, ligatures), WoffSteps(fontfile, types, ligatures),
                         EotSteps(fontfile, types, eotStatus), CleanupSteps(fontfile, types);
      ok := PublishSvg(fontfile, types, ligatures);
      if !ok {
        RunStops(w0, s, wf);
        RunStops(w0, s + wf, e);
        RunStops(w0, s + wf + e, c);
        return;
      }
      ghost var w1 := State();
      PublishWoff(fontfile, types, ligatures);
      RunChain(w0, s, wf, w1);
      ghost var w2 := State();
      PublishEot(fontfile, types, eotStatus);
      RunChain(w0, s + wf, e, w2);
      ghost var w3 := State();
      ok := Cleanup(fontfile, types);
      RunChain(w0, s + wf + e, c, w3);
    }

    /** Lines 106-141: the export as the script runs it. Started on a font that was
        not read back from a file, it never raises and leaves the files `Outputs`
        describes. */
    method RunExport(fontfile: Bytes, types: seq<Bytes>, hinter: bool, hintStatus: int, eotStatus: int,
                     ligatures: bool) returns (ok: bool)
      modifies this`disk, this`fontHinted, this`output
      ensures Run(old(State()), ExportPlan(fontfile, types, hinter, hintStatus, eotStatus, ligatures))
              == if ok then Some(State()) else None
      ensures !old(fontHinted) ==>
                && ok
                && disk == Outputs(old(disk), Names(fontfile), types, hinter, hintStatus, eotStatus, ligatures, svgText)
                && fontHinted == HintedOutputs(hinter, hintStatus)
                && svgText == old(svgText)
                && output == old(output) + [fontfile]
    {
      ghost var w0 := State();
      var g := [GenerateStep(fontfile, Ttf, ligatures)];
      var hs, ps, em := HintSteps(fontfile, hinter, hintStatus), PublishSteps(fontfile, types, eotStatus, ligatures), [Emit(fontfile)];
      GenerateFile(FilePath(fontfile, Ttf), Ttf, ligatures);
      RunOne(w0, GenerateStep(fontfile, Ttf, ligatures));
      ghost var w1 := State();
      ok := HintTtf(fontfile, hinter, hintStatus);
      if !ok {
        RunStops(w0, g + hs, ps);
        RunStops(w0, g + hs + ps, em);
      } else {
        RunChain(w0, g, hs, w1);
        ghost var w2 := State();
        ok := Publish(fontfile, types, eotStatus, ligatures);
        RunChain(w0, g + hs, ps, w2);
        if !ok {
          RunStops(w0, g + hs + ps, em);
        } else {
          ghost var w3 := State();
          PrintResult(fontfile);
          RunSnoc(w0, g + hs + ps, Emit(fontfile), w3);
        }
      }
      if !w0.fontHinted {
        ExportRuns(w0, fontfile, types, hinter, hintStatus, eotStatus, ligatures);
      }
    }
  }
}
