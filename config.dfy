/** The script's configuration: the `types` argument split on commas, the metric
    defaults applied with Python's `x or default`, and the base name of every output
    file. */
module Config {
  import opened ByteStrings

  /** Python 2's `s.split(sep)` for a one-byte separator: empty pieces are kept, and
      the empty string gives one empty piece. */
  function SplitOn(s: Bytes, sep: Byte): (parts: seq<Bytes>)
    ensures |parts| >= 1
  {
    if s == [] then [[]]
    else
      var rest := SplitOn(s[1..], sep);
      if s[0] == sep then [[]] + rest else [[s[0]] + rest[0]] + rest[1..]
  }

  /** `sep.join(parts)` */
  function JoinWith(parts: seq<Bytes>, sep: Byte): Bytes
    requires |parts| >= 1
  {
    if |parts| == 1 then parts[0] else parts[0] + [sep] + JoinWith(parts[1..], sep)
  }

  /** Joining the pieces with the separator gives back the argument. */
  lemma {:induction false} SplitOnJoin(s: Bytes, sep: Byte)
    ensures JoinWith(SplitOn(s, sep), sep) == s
  {
    if s != [] {
      var rest := SplitOn(s[1..], sep);
      SplitOnJoin(s[1..], sep);
      if s[0] == sep {
        assert SplitOn(s, sep)[1..] == rest;
      } else {
        var parts := SplitOn(s, sep);
        if |rest| == 1 {
          assert JoinWith(parts, sep) == [s[0]] + rest[0];
        } else {
          assert parts[1..] == rest[1..];
          assert JoinWith(rest, sep) == rest[0] + [sep] + JoinWith(rest[1..], sep);
        }
      }
    }
  }

  /** No piece holds the separator, and there is one piece more than separators. */
  lemma {:induction false} SplitOnPieces(s: Bytes, sep: Byte)
    ensures forall k :: 0 <= k < |SplitOn(s, sep)| ==> sep !in SplitOn(s, sep)[k]
    ensures |SplitOn(s, sep)| == Occurrences(s, sep) + 1
  {
    if s != [] {
      SplitOnPieces(s[1..], sep);
      var rest := SplitOn(s[1..], sep);
      var parts := SplitOn(s, sep);
      if s[0] != sep {
        forall k | 0 <= k < |parts| ensures sep !in parts[k] {
          if k == 0 {
            assert parts[0] == [s[0]] + rest[0];
          } else {
            assert parts[k] == rest[k];
          }
        }
      }
    }
  }

  /** Line 18: the output types, `types.split(',')`. */
  function ParseTypes(arg: Bytes): seq<Bytes> {
    SplitOn(arg, ',')
  }

  /** A type is requested when it is one of the pieces exactly (`'svg' in args.types`):
      no trimming, no case folding. */
  predicate Requested(types: seq<Bytes>, t: Bytes) {
    t in types
  }

  /** A piece without the separator is split off whole: the pieces are exactly the
      runs between separators. */
  lemma {:induction false} SplitOnFirst(a: Bytes, sep: Byte, b: Bytes)
    requires sep !in a
    ensures SplitOn(a, sep) == [a]
    ensures SplitOn(a + [sep] + b, sep) == [a] + SplitOn(b, sep)
  {
    if a == [] {
      assert [] + [sep] + b == [sep] + b;
      assert ([sep] + b)[1..] == b;
    } else {
      SplitOnFirst(a[1..], sep, b);
      assert (a + [sep] + b)[1..] == a[1..] + [sep] + b;
      assert [a[0]] + a[1..] == a;
    }
  }

  /** Each listed type is requested, and a piece with a space is another type. */
  lemma ParseTypesExample(woff: Bytes, eot: Bytes, arg: Bytes)
    requires woff == "woff" && eot == "eot" && arg == woff + [','] + eot
    ensures ParseTypes(arg) == [woff, eot]
    ensures Requested(ParseTypes(arg), "woff") && !Requested(ParseTypes(arg), "ttf")
  {
    SplitOnFirst(woff, ',', eot);
    SplitOnFirst(eot, ',', []);
  }

  /** Pieces are not trimmed: `"ttf, svg"` requests `" svg"`, not `"svg"`. */
  lemma ParseTypesKeepsSpaces(ttf: Bytes, svg: Bytes, arg: Bytes)
    requires ttf == "ttf" && svg == " svg" && arg == ttf + [','] + svg
    ensures Requested(ParseTypes(arg), " svg") && !Requested(ParseTypes(arg), "svg")
  {
    SplitOnFirst(ttf, ',', svg);
    SplitOnFirst(svg, ',', []);
    assert ParseTypes(arg) == [ttf, svg];
  }

  const DefaultDesignSize := 16
  const DefaultEm := 512
  const DefaultAscent := 448
  const DefaultDescent := 64

  /** Python's `x or default` for an integer: zero is falsy. */
  function OrDefault(x: int, default: int): int {
    if x == 0 then default else x
  }

  datatype Metrics = Metrics(designSize: int, em: int, ascent: int, descent: int)

  /** Lines 31-34. */
  function ChooseMetrics(size: int, em: int, ascent: int, descent: int): Metrics {
    Metrics(OrDefault(size, DefaultDesignSize), OrDefault(em, DefaultEm),
            OrDefault(ascent, DefaultAscent), OrDefault(descent, DefaultDescent))
  }

  /** Every metric is the value given, unless that value is 0, in which case it is the
      default; negative values are kept. No metric ends up 0. */
  lemma ChooseMetricsDefaults(size: int, em: int, ascent: int, descent: int)
    ensures var m := ChooseMetrics(size, em, ascent, descent);
            && (m.designSize == if size == 0 then 16 else size)
            && (m.em == if em == 0 then 512 else em)
            && (m.ascent == if ascent == 0 then 448 else ascent)
            && (m.descent == if descent == 0 then 64 else descent)
            && m.designSize != 0 && m.em != 0 && m.ascent != 0 && m.descent != 0
  {
  }

  /** An explicit 0 cannot be told apart from asking for the default; any other pair of
      distinct values stays distinct. */
  lemma ZeroMeansDefault(x: int, y: int, default: int)
    requires default != 0
    ensures OrDefault(x, default) == OrDefault(y, default) <==>
            x == y || (x == 0 && y == default) || (y == 0 && x == default)
  {
  }

  /** Lines 90-92: the base of every artifact path, `output_dir + '/' + font`, with
      `'-' + hexdigest` appended when hashes are on. */
  function FontFile(outputDir: Bytes, font: Bytes, hashes: bool, hexdigest: Bytes): Bytes {
    outputDir + "/" + font + (if hashes then "-" + hexdigest else [])
  }

  /** The base name starts with `output_dir/font`; with hashes it ends with `-digest`,
      without hashes it is nothing more. */
  lemma FontFileShape(outputDir: Bytes, font: Bytes, hashes: bool, hexdigest: Bytes)
    ensures var f := FontFile(outputDir, font, hashes, hexdigest);
            var stem := outputDir + "/" + font;
            && |stem| <= |f| && f[..|stem|] == stem
            && (hashes ==> f[|stem|..] == "-" + hexdigest)
            && (!hashes ==> f == stem)
  {
  }

  /** With hashes, names from different digests differ. */
  lemma FontFileSeparatesDigests(outputDir: Bytes, font: Bytes, d1: Bytes, d2: Bytes)
    requires d1 != d2
    ensures FontFile(outputDir, font, true, d1) != FontFile(outputDir, font, true, d2)
  {
    var stem := outputDir + "/" + font + "-";
    assert FontFile(outputDir, font, true, d1)[|stem|..] == d1;
    assert FontFile(outputDir, font, true, d2)[|stem|..] == d2;
  }
}
