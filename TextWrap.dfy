/**
 * wrap_string of BashAI/bai.py and BashAI/bashai.py (the two are identical):
 * each newline-separated paragraph is cut into lines of at most `width`
 * characters, breaking at the last space that fits; a paragraph with no such
 * space is cut at `width`, and one character is always consumed at a cut.
 */
module TextWrap {
  import opened Strings

  /** s.rfind(' ', 0, hi): the last index below hi (and below |s|) holding a space, or -1. */
  function RFindSpace(s: string, hi: nat): (pos: int)
    ensures -1 <= pos < hi && pos < |s|
    ensures pos >= 0 ==> s[pos] == ' '
    ensures forall j :: pos < j < hi && j < |s| ==> s[j] != ' '
    decreases hi
  {
    if hi == 0 || s == [] then -1
    else if hi > |s| then RFindSpace(s, |s|)
    else if s[hi - 1] == ' ' then hi - 1
    else RFindSpace(s, hi - 1)
  }

  /**
   * Where a paragraph longer than width is cut: at the last space in 1..width if
   * there is one, otherwise at width.
   */
  function BreakPos(p: string, width: nat): (pos: nat)
    requires width < |p|
    ensures pos <= width
    ensures || (0 < pos && p[pos] == ' ' && forall j :: pos < j <= width ==> p[j] != ' ')
            || (pos == width && forall j :: 0 < j <= width ==> p[j] != ' ')
  {
    var pos := RFindSpace(p, width + 1);
    if pos <= 0 then width else pos
  }

  /** The lines wrap_string emits for one paragraph. */
  function WrapParagraph(p: string, width: nat): (lines: seq<string>)
    ensures |lines| >= 1
    ensures forall i :: 0 <= i < |lines| ==> |lines[i]| <= width
    decreases |p|
  {
    if |p| <= width then [p]
    else
      var pos := BreakPos(p, width);
      [p[..pos]] + WrapParagraph(p[pos + 1..], width)
  }

  /** No emitted line carries a character the paragraph lacks. */
  lemma {:induction false} WrapParagraphNoNewChar(p: string, width: nat, ch: char)
    requires ch !in p
    ensures forall i :: 0 <= i < |WrapParagraph(p, width)| ==> ch !in WrapParagraph(p, width)[i]
    decreases |p|
  {
    if |p| > width {
      var pos := BreakPos(p, width);
      var rest := p[pos + 1..];
      assert ch !in p[..pos];
      assert ch !in rest;
      WrapParagraphNoNewChar(rest, width, ch);
      assert WrapParagraph(p, width) == [p[..pos]] + WrapParagraph(rest, width);
    }
  }

  /** Each cut consumes exactly one character of the paragraph: the line lengths add up to |p| minus the cuts. */
  lemma {:induction false} OneCharacterPerCut(p: string, width: nat)
    ensures TotalLength(WrapParagraph(p, width)) + |WrapParagraph(p, width)| - 1 == |p|
    decreases |p|
  {
    if |p| > width {
      var pos := BreakPos(p, width);
      OneCharacterPerCut(p[pos + 1..], width);
      var lines := WrapParagraph(p, width);
      assert lines == [p[..pos]] + WrapParagraph(p[pos + 1..], width);
      assert lines[1..] == WrapParagraph(p[pos + 1..], width);
    }
  }

  /**
   * The first cut of a paragraph longer than width: at a space in 1..width, which is
   * consumed, the text on both sides kept; or, when there is none, at width, and the
   * character at index width (never a space once width > 0) is lost.
   */
  lemma FirstCut(p: string, width: nat)
    requires |p| > width
    ensures var pos := BreakPos(p, width);
      && WrapParagraph(p, width) == [p[..pos]] + WrapParagraph(p[pos + 1..], width)
      && (|| (0 < pos && p[pos] == ' ' && p == p[..pos] + " " + p[pos + 1..])
          || (pos == width && p[..width] + [p[width]] + p[width + 1..] == p
              && (width > 0 ==> p[width] != ' ')))
  {
    var pos := BreakPos(p, width);
    assert p == p[..pos] + [p[pos]] + p[pos + 1..];
  }

  /** A word longer than the width loses its character at index width: "abcdef" at width 3 becomes "abc" and "ef". */
  lemma HardCutLosesCharacter()
    ensures WrapParagraph("abcdef", 3) == ["abc", "ef"]
  {
    var p := "abcdef";
    assert RFindSpace(p, 4) == -1 by {
      assert RFindSpace(p, 4) == RFindSpace(p, 3) == RFindSpace(p, 2) == RFindSpace(p, 1) == RFindSpace(p, 0);
    }
    assert BreakPos(p, 3) == 3;
    assert p[..3] == "abc";
    assert p[4..] == "ef";
    assert WrapParagraph("ef", 3) == ["ef"];
  }

  /** The lines for a sequence of paragraphs: each paragraph's lines, in order. */
  function WrapAll(paragraphs: seq<string>, width: nat): (lines: seq<string>)
    ensures |lines| >= |paragraphs|
    ensures forall i :: 0 <= i < |lines| ==> |lines[i]| <= width
    decreases |paragraphs|
  {
    if paragraphs == [] then []
    else WrapAll(paragraphs[..|paragraphs| - 1], width) + WrapParagraph(paragraphs[|paragraphs| - 1], width)
  }

  /**
   * The value wrap_string(s, width) returns. It is never empty (so `if notes_lines:`
   * always holds), it has at least one line per paragraph, and every line is at
   * most width long and holds no newline.
   */
  function Wrap(s: string, width: nat): (lines: seq<string>)
    ensures |lines| >= |Split(s, '\n')| >= 1
    ensures forall i :: 0 <= i < |lines| ==> |lines[i]| <= width && '\n' !in lines[i]
  {
    WrapAllShape(Split(s, '\n'), width);
    WrapAll(Split(s, '\n'), width)
  }

  /** Paragraph lines come out in paragraph order. */
  lemma {:induction false} WrapAllAppend(a: seq<string>, b: seq<string>, width: nat)
    ensures WrapAll(a + b, width) == WrapAll(a, width) + WrapAll(b, width)
    decreases |b|
  {
    if b != [] {
      var b' := b[..|b| - 1];
      assert (a + b)[..|a + b| - 1] == a + b';
      WrapAllAppend(a, b', width);
    } else {
      assert a + b == a;
    }
  }

  /**
   * Every paragraph yields at least one line, every line is at most width long,
   * and no line holds a newline.
   */
  lemma {:induction false} WrapAllShape(paragraphs: seq<string>, width: nat)
    requires forall i :: 0 <= i < |paragraphs| ==> '\n' !in paragraphs[i]
    ensures |WrapAll(paragraphs, width)| >= |paragraphs|
    ensures forall i :: 0 <= i < |WrapAll(paragraphs, width)| ==>
      |WrapAll(paragraphs, width)[i]| <= width && '\n' !in WrapAll(paragraphs, width)[i]
    decreases |paragraphs|
  {
    if paragraphs != [] {
      var init, last := paragraphs[..|paragraphs| - 1], paragraphs[|paragraphs| - 1];
      WrapAllShape(init, width);
      WrapParagraphNoNewChar(last, width, '\n');
    }
  }

  /** When no paragraph exceeds width, wrapping is exactly s.split("\n"), so joining the lines gives s back. */
  lemma {:induction false} WrapShortIsSplit(paragraphs: seq<string>, width: nat)
    requires forall i :: 0 <= i < |paragraphs| ==> |paragraphs[i]| <= width
    ensures WrapAll(paragraphs, width) == paragraphs
    decreases |paragraphs|
  {
    if paragraphs != [] {
      var init, last := paragraphs[..|paragraphs| - 1], paragraphs[|paragraphs| - 1];
      WrapShortIsSplit(init, width);
      assert WrapParagraph(last, width) == [last];
      assert paragraphs == init + [last];
    }
  }

  lemma WrapShortRoundTrip(s: string, width: nat)
    requires forall i :: 0 <= i < |Split(s, '\n')| ==> |Split(s, '\n')[i]| <= width
    ensures Wrap(s, width) == Split(s, '\n')
    ensures Join(Wrap(s, width), '\n') == s
  {
    WrapShortIsSplit(Split(s, '\n'), width);
    JoinSplit(s, '\n');
  }

  /** One pass of the inner loop emits the first line of the paragraph's wrapping. */
  lemma CutStep(paragraph: string, width: nat, pos: nat)
    requires |paragraph| > width
    requires pos == BreakPos(paragraph, width)
    ensures pos + 1 <= |paragraph|
    ensures WrapParagraph(paragraph, width) == [paragraph[..pos]] + WrapParagraph(paragraph[pos + 1..], width)
  {
  }

  /**
   * The inner while loop of wrap_string: cut one paragraph at BreakPos until the
   * rest fits, appending each piece to lines.
   */
  method CutParagraph(paragraph: string, width: nat, before: seq<string>) returns (lines: seq<string>)
    ensures lines == before + WrapParagraph(paragraph, width)
  {
    lines := before;
    var rest := paragraph;
    while |rest| > width
      invariant lines + WrapParagraph(rest, width) == before + WrapParagraph(paragraph, width)
      decreases |rest|
    {
      var pos := RFindSpace(rest, width + 1);
      if pos <= 0 {
        pos := width;
      }
      assert pos == BreakPos(rest, width);
      CutStep(rest, width, pos);
      assert lines + WrapParagraph(rest, width) == (lines + [rest[..pos]]) + WrapParagraph(rest[pos + 1..], width);
      lines := lines + [rest[..pos]];
      rest := rest[pos + 1..];
    }
    lines := lines + [rest];
  }

  /** wrap_string(s, width); it terminates only for width >= 0, since a cut consumes pos + 1 >= 1 characters. */
  method WrapString(s: string, width: int) returns (lines: seq<string>)
    requires width >= 0
    ensures lines == Wrap(s, width)
  {
    lines := [];
    var paragraphs := Split(s, '\n');
    for i := 0 to |paragraphs|
      invariant lines == WrapAll(paragraphs[..i], width)
    {
      lines := CutParagraph(paragraphs[i], width, lines);
      assert paragraphs[..i + 1][..i] == paragraphs[..i];
    }
    assert paragraphs[..|paragraphs|] == paragraphs;
  }
}
