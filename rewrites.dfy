/** The two in-place text rewrites of the script: removing `<switch>` wrapper tags from a
    source SVG before its outline is imported, and adding the SVG namespace to the root
    tag of the generated SVG font. An open file is modelled as its content and a
    position, with Python 2's `read`, `seek`, `truncate` and `write`. */
module Rewrites {
  import opened ByteStrings
  import opened PyStr

  const SwitchOpen: Bytes := "<switch>"
  const SwitchClose: Bytes := "</switch>"
  const SvgTag: Bytes := "<svg>"
  const SvgTagWithNamespace: Bytes := "<svg xmlns=\"http://www.w3.org/2000/svg\">"

  /** The text written back to a source SVG: `<switch>` removed, then `</switch>`. */
  function StripSwitch(text: Bytes): Bytes {
    Replace(Replace(text, SwitchOpen, []), SwitchClose, [])
  }

  /** The text written over the generated SVG font. */
  function FixSvgHeader(text: Bytes): Bytes {
    Replace(text, SvgTag, SvgTagWithNamespace)
  }

  /** `n` NUL bytes, which POSIX puts in the gap when a file is extended. */
  function Zeros(n: nat): (z: Bytes)
    ensures |z| == n
  {
    seq(n, _ => '\0')
  }

  /** The content after `truncate()` at position `pos`. */
  function Truncated(content: Bytes, pos: nat): (r: Bytes)
    ensures |r| == pos
    ensures pos <= |content| ==> r == content[..pos]
  {
    if pos <= |content| then content[..pos] else content + Zeros(pos - |content|)
  }

  /** The content after `write(data)` at position `pos`: the bytes from `pos` on are
      overwritten, and whatever lay beyond the written part stays. */
  function Overwrite(content: Bytes, pos: nat, data: Bytes): (r: Bytes)
    ensures |r| == if pos + |data| < |content| then |content| else pos + |data|
    ensures r[pos..pos + |data|] == data
    ensures pos <= |content| ==> r[..pos] == content[..pos]
    ensures pos > |content| ==> r[..pos] == content + Zeros(pos - |content|)
    ensures pos + |data| < |content| ==> r[pos + |data|..] == content[pos + |data|..]
  {
    Truncated(content, pos) + data + (if pos + |data| < |content| then content[pos + |data|..] else [])
  }

  /** Writing at offset 0 something at least as long as the file replaces it entirely. */
  lemma OverwriteCovers(content: Bytes, data: Bytes)
    requires |content| <= |data|
    ensures Overwrite(content, 0, data) == data
  {
  }

  /** Writing at offset 0 something shorter leaves the old tail in the file: the reason
      the `<switch>` strip truncates before it writes. */
  lemma OverwriteKeepsTail(content: Bytes, data: Bytes)
    requires |data| < |content|
    ensures Overwrite(content, 0, data) == data + content[|data|..]
    ensures Overwrite(content, 0, data) != data
  {
  }

  class TextFile {
    var content: Bytes
    var pos: nat

    /** `open(path, 'r+')` on a file holding `data`: the position starts at 0. */
    constructor Open(data: Bytes)
      ensures content == data && pos == 0
    {
      content := data;
      pos := 0;
    }

    /** `read()`: everything from the position on; the position moves to the end. */
    method Read() returns (text: Bytes)
      modifies this`pos
      ensures text == if old(pos) <= |content| then content[old(pos)..] else []
      ensures pos == if old(pos) <= |content| then |content| else old(pos)
    {
      if pos <= |content| {
        text := content[pos..];
        pos := |content|;
      } else {
        text := [];
      }
    }

    /** `seek(offset)` */
    method Seek(offset: nat)
      modifies this`pos
      ensures pos == offset
    {
      pos := offset;
    }

    /** `truncate()`: the file ends at the current position. */
    method Truncate()
      modifies this`content
      ensures content == Truncated(old(content), pos)
    {
      content := Truncated(content, pos);
    }

    /** `write(data)` at the current position. */
    method Write(data: Bytes)
      modifies this
      ensures content == Overwrite(old(content), old(pos), data)
      ensures pos == old(pos) + |data|
    {
      content := Overwrite(content, pos, data);
      pos := pos + |data|;
    }
  }

  /** Lines 61-72: read, seek(0), replace both tags, truncate, write. Because of the
      truncate, the file holds exactly the rewritten text, whatever its length. */
  method StripSwitchTags(file: TextFile)
    requires file.pos == 0
    modifies file
    ensures file.content == StripSwitch(old(file.content))
  {
    var text := file.Read();
    file.Seek(0);
    text := Replace(text, SwitchOpen, []);
    text := Replace(text, SwitchClose, []);
    file.Truncate();
    file.Write(text);
  }

  /** Lines 120-124: read, seek(0), write the fixed text without truncating. The fix
      never shortens the text, so no old tail survives. */
  method FixSvgHeaderInPlace(file: TextFile)
    requires file.pos == 0
    modifies file
    ensures file.content == FixSvgHeader(old(file.content))
  {
    var text := file.Read();
    file.Seek(0);
    FixSvgHeaderGrows(text);
    file.Write(Replace(text, SvgTag, SvgTagWithNamespace));
  }

  /** The strip removes 8 bytes per `<switch>` it finds in the text and 9 per
      `</switch>` it then finds in the result. */
  lemma StripSwitchLength(text: Bytes)
    ensures |StripSwitch(text)| ==
            |text| - 8 * Count(text, SwitchOpen) - 9 * Count(Replace(text, SwitchOpen, []), SwitchClose)
    ensures |StripSwitch(text)| <= |text|
  {
    var afterOpen := Replace(text, SwitchOpen, []);
    var c1 := Count(text, SwitchOpen);
    var c2 := Count(afterOpen, SwitchClose);
    ReplaceLength(text, SwitchOpen, []);
    ReplaceLength(afterOpen, SwitchClose, []);
    assert |SwitchOpen| == 8 && |SwitchClose| == 9;
    assert |afterOpen| == |text| + (c1 as int) * -8 == |text| - 8 * c1;
    assert |StripSwitch(text)| == |afterOpen| + (c2 as int) * -9 == |afterOpen| - 9 * c2;
  }

  /** Text without either tag is written back unchanged. */
  lemma StripSwitchUnchanged(text: Bytes)
    requires !Contains(text, SwitchOpen) && !Contains(text, SwitchClose)
    ensures StripSwitch(text) == text
  {
    ReplaceAbsent(text, SwitchOpen, []);
    ReplaceAbsent(text, SwitchClose, []);
  }

  /** Text holding either tag is changed. */
  lemma StripSwitchChanges(text: Bytes)
    requires Contains(text, SwitchOpen) || Contains(text, SwitchClose)
    ensures StripSwitch(text) != text
  {
    StripSwitchLength(text);
    CountZeroIff(text, SwitchOpen);
    if !Contains(text, SwitchOpen) {
      ReplaceAbsent(text, SwitchOpen, []);
      CountZeroIff(text, SwitchClose);
    }
  }

  /** One left-to-right pass per tag does not remove every tag: removing an inner
      `<switch>` can join its neighbours into a new one. */
  lemma StripSwitchCanLeaveTag(text: Bytes)
    requires text == "<<switch>switch>"
    ensures Contains(text, SwitchOpen) && StripSwitch(text) == SwitchOpen
  {
    InnerSwitchRemoved(text);
    assert Replace(SwitchOpen, SwitchClose, []) == SwitchOpen;
    assert text[1..9] == SwitchOpen;
    assert At(text, SwitchOpen, 1);
  }

  /** The first pass over `<<switch>switch>` removes the inner tag only. */
  lemma InnerSwitchRemoved(text: Bytes)
    requires text == "<<switch>switch>"
    ensures Replace(text, SwitchOpen, []) == SwitchOpen
  {
    var tail: Bytes := "switch>";
    var inner := SwitchOpen + tail;
    assert text == ['<'] + inner;
    assert text[1..] == inner && inner[..8] == SwitchOpen && inner[8..] == tail;
    assert text[..8][1] == '<' != SwitchOpen[1];
    assert Replace(tail, SwitchOpen, []) == tail;
    ReplaceMatch(inner, SwitchOpen, []);
    assert Replace(inner, SwitchOpen, []) == tail;
    ReplaceMiss(text, SwitchOpen, []);
    assert Replace(text, SwitchOpen, []) == [text[0]] + tail;
    OpenTagSplit(text[0], tail);
  }

  lemma OpenTagSplit(c: Byte, tail: Bytes)
    requires c == '<' && tail == "switch>"
    ensures [c] + tail == SwitchOpen
  {
  }

  /** The fix adds 35 bytes per `<svg>` and so never shortens the text. */
  lemma FixSvgHeaderGrows(text: Bytes)
    ensures |FixSvgHeader(text)| == |text| + 35 * Count(text, SvgTag)
    ensures |FixSvgHeader(text)| >= |text|
  {
    ReplaceLength(text, SvgTag, SvgTagWithNamespace);
  }

  /** Text without a literal `<svg>` is left unchanged by the fix. */
  lemma FixSvgHeaderUnchanged(text: Bytes)
    requires !Contains(text, SvgTag)
    ensures FixSvgHeader(text) == text
  {
    ReplaceAbsent(text, SvgTag, SvgTagWithNamespace);
  }

  /** If the fixed text starts with `w`, and `w` has no `<`, the text started with `w`:
      every `<` the fix writes begins a namespaced tag. */
  lemma {:induction false} FixedPrefixReflected(u: Bytes, w: Bytes)
    requires '<' !in w
    ensures |w| <= |FixSvgHeader(u)| && FixSvgHeader(u)[..|w|] == w ==>
            |w| <= |u| && u[..|w|] == w
    decreases |u|
  {
    if w == [] {
    } else if |u| < |SvgTag| {
    } else if u[..|SvgTag|] == SvgTag {
      assert FixSvgHeader(u)[0] == '<' && w[0] != '<';
    } else {
      var t := FixSvgHeader(u[1..]);
      assert FixSvgHeader(u) == [u[0]] + t;
      FixedPrefixReflected(u[1..], w[1..]);
      if |w| <= |FixSvgHeader(u)| && FixSvgHeader(u)[..|w|] == w {
        assert t[..|w| - 1] == w[1..];
        assert u[..|w|] == [u[0]] + u[1..][..|w| - 1];
      }
    }
  }

  /** After the fix no bare `<svg>` is left: every root tag carries the namespace. */
  lemma {:induction false} FixSvgHeaderLeavesNoBareTag(text: Bytes)
    ensures !Contains(FixSvgHeader(text), SvgTag)
    decreases |text|
  {
    if |text| < |SvgTag| {
      assert FixSvgHeader(text) == text;
    } else if text[..|SvgTag|] == SvgTag {
      FixSvgHeaderLeavesNoBareTag(text[|SvgTag|..]);
      NoBareTagAfterTag(text);
    } else {
      FixSvgHeaderLeavesNoBareTag(text[1..]);
      NoBareTagAfterByte(text);
    }
  }

  /** A rewritten tag followed by a clean rest is clean. */
  lemma NoBareTagAfterTag(text: Bytes)
    requires |SvgTag| <= |text| && text[..|SvgTag|] == SvgTag
    requires !Contains(FixSvgHeader(text[|SvgTag|..]), SvgTag)
    ensures !Contains(FixSvgHeader(text), SvgTag)
  {
    var r := FixSvgHeader(text);
    var t := FixSvgHeader(text[|SvgTag|..]);
    assert r == SvgTagWithNamespace + t;
    forall i | 0 <= i <= |r| - |SvgTag| ensures !At(r, SvgTag, i) {
      if i >= 40 {
        assert r[40..] == t;
        AtShift(r, SvgTag, 40, i - 40);
      } else {
        NamespacedTagWindow(t, i);
      }
    }
  }

  /** A byte that does not start a tag, followed by a clean rest, is clean. */
  lemma NoBareTagAfterByte(text: Bytes)
    requires |SvgTag| <= |text| && text[..|SvgTag|] != SvgTag
    requires !Contains(FixSvgHeader(text[1..]), SvgTag)
    ensures !Contains(FixSvgHeader(text), SvgTag)
  {
    var r := FixSvgHeader(text);
    var t := FixSvgHeader(text[1..]);
    assert r == [text[0]] + t;
    forall i | 0 <= i <= |r| - |SvgTag| ensures !At(r, SvgTag, i) {
      if i >= 1 {
        assert r[1..] == t;
        AtShift(r, SvgTag, 1, i - 1);
      } else {
        FirstWindowNotTag(text);
      }
    }
  }

  /** Text that does not start with `<svg>` is not fixed into text that does. */
  lemma FirstWindowNotTag(text: Bytes)
    requires |SvgTag| <= |text| && text[..|SvgTag|] != SvgTag
    ensures !At(FixSvgHeader(text), SvgTag, 0)
  {
    var r := FixSvgHeader(text);
    var t := FixSvgHeader(text[1..]);
    assert r == [text[0]] + t;
    FixedPrefixReflected(text[1..], "svg>");
    FirstWindow(text[0], t);
    assert text == [text[0]] + text[1..];
    FirstWindow(text[0], text[1..]);
  }

  /** A byte followed by `t` starts with `<svg>` exactly when the byte is `<` and `t`
      starts with `svg>`. */
  lemma FirstWindow(c: Byte, t: Bytes)
    ensures At([c] + t, SvgTag, 0) <==> c == '<' && |t| >= 4 && t[..4] == "svg>"
  {
    var r := [c] + t;
    assert SvgTag == ['<'] + "svg>";
    if |r| >= 5 {
      assert r[..5] == [c] + t[..4];
      assert r[..5][1..] == t[..4];
    }
  }

  /** No window of five bytes starting inside the namespaced tag is `<svg>`. */
  lemma NamespacedTagWindow(t: Bytes, i: int)
    requires 0 <= i < 40 && i + 5 <= 40 + |t|
    ensures !At(SvgTagWithNamespace + t, SvgTag, i)
  {
    var r := SvgTagWithNamespace + t;
    assert r[i..i + 5][0] == r[i] == SvgTagWithNamespace[i];
    if i == 0 {
      assert r[i..i + 5][4] == r[4] == SvgTagWithNamespace[4] == ' ';
    } else {
      OneOpeningBracket(i);
    }
  }

  /** The namespaced tag has no `<` after its first byte. */
  lemma OneOpeningBracket(i: int)
    requires 0 < i < |SvgTagWithNamespace|
    ensures SvgTagWithNamespace[i] != '<'
  {
  }
}
