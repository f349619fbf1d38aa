/** The report-to-PDF formatter of `create_pdf`: each report line becomes
    one layout command carrying the text the `_write_*` helpers hand to the
    PDF library. Fonts, sizes and vertical gaps are not modelled. */
module Formatter {
  import opened Wrappers
  import opened Text
  import opened Markdown

  datatype Command =
    | Title(text: string)
    | Spacing
    | Heading(text: string)
    | LabelBlock(labelText: string, body: Option<string>, bullet: bool)
    | Bullet(text: string)
    | Paragraph(text: string)

  /** `s.startswith("- ") or s.startswith("* ")`. */
  predicate IsBulletMarker(s: string) {
    |s| >= 2 && (s[0] == '-' || s[0] == '*') && s[1] == ' '
  }

  /** The text left once a bullet marker is taken off: `s[2:].strip()`. */
  function Unbulleted(s: string): string {
    if IsBulletMarker(s) then Strip(s[2..]) else s
  }

  const BulletPrefix: string := "- "
  const BodyIndent: string := "    "

  // The text shaping of the _write_* helpers.

  function WriteHeading(text: string): Command {
    Heading(text)
  }

  function WriteParagraph(text: string): Command {
    Paragraph(StripMarkdown(text))
  }

  function WriteBullet(text: string): Command {
    Bullet(BulletPrefix + StripMarkdown(text))
  }

  function WriteLabelBlock(labelText: string, body: Option<string>, bullet: bool): Command {
    LabelBlock(
      if bullet then BulletPrefix + labelText else labelText,
      if body.Some? && body.value != [] then
        Some(if bullet then BodyIndent + StripMarkdown(body.value) else StripMarkdown(body.value))
      else None,
      bullet)
  }

  /** `group(2).lstrip(" :").strip() or None`. */
  function LabelBody(rest: string): Option<string> {
    var b := Strip(TrimLeft(rest, SpaceColon));
    if b == [] then None else Some(b)
  }

  /** The patterns tried on the text of a non-blank line, once any bullet
      marker is off: a full bold wrap (on a non-bullet line only), then a
      leading bold span, then plain text. */
  function ClassifyText(text: string, bullet: bool): Command {
    if IsHeadingForm(text) && !bullet then WriteHeading(Strip(HeadingText(text)))
    else
      match LabelMatch(text)
      case Some(k) =>
        var name := Strip(text[2..k]);
        var body := LabelBody(EndGroup(text[k + 2..]));
        WriteLabelBlock(if body.Some? then name + ":" else name, body, bullet)
      case None =>
        if bullet then WriteBullet(text) else WriteParagraph(text)
  }

  /** One iteration of the line loop of `create_pdf`. */
  function ClassifyLine(raw: string): Command {
    var stripped := Strip(raw);
    if stripped == [] then Spacing
    else ClassifyText(Unbulleted(stripped), IsBulletMarker(stripped))
  }

  /** The commands for a sequence of report lines, one per line, in order. */
  function FormatLines(lines: seq<string>): (cmds: seq<Command>)
    ensures |cmds| == |lines|
  {
    if lines == [] then [] else FormatLines(lines[..|lines| - 1]) + [ClassifyLine(lines[|lines| - 1])]
  }

  lemma {:induction false} FormatLinesAt(lines: seq<string>, i: nat)
    requires i < |lines|
    ensures FormatLines(lines)[i] == ClassifyLine(lines[i])
  {
    var init := lines[..|lines| - 1];
    if i < |init| {
      FormatLinesAt(init, i);
      assert FormatLines(lines)[i] == FormatLines(init)[i];
      assert init[i] == lines[i];
    }
  }

  lemma FormatLinesSnoc(lines: seq<string>, n: nat)
    requires n < |lines|
    ensures FormatLines(lines[..n + 1]) == FormatLines(lines[..n]) + [ClassifyLine(lines[n])]
  {
    assert lines[..n + 1][..n] == lines[..n];
  }

  /** The body of the line loop of `create_pdf`: strip the line, take off
      one bullet marker, then try heading, label and plain text in turn. */
  method FormatLine(line: string) returns (cmd: Command)
    ensures cmd == ClassifyLine(line)
  {
    var stripped := Strip(line);
    if stripped == [] {
      return Spacing;
    }
    var bullet := false;
    if IsBulletMarker(stripped) {
      bullet := true;
      stripped := Strip(stripped[2..]);
    }
    if IsHeadingForm(stripped) && !bullet {
      return WriteHeading(Strip(HeadingText(stripped)));
    }
    var labelMatch := LabelMatch(stripped);
    if labelMatch.Some? {
      var k := labelMatch.value;
      var name := Strip(stripped[2..k]);
      var body := LabelBody(EndGroup(stripped[k + 2..]));
      var labelText := if body.Some? then name + ":" else name;
      return WriteLabelBlock(labelText, body, bullet);
    }
    if bullet {
      cmd := WriteBullet(stripped);
    } else {
      cmd := WriteParagraph(stripped);
    }
  }

  /** `create_pdf` without the PDF library: the title, then the command each
      line of the report becomes. */
  method CreatePdf(reportLines: seq<string>, title: string) returns (cmds: seq<Command>)
    ensures |cmds| == |reportLines| + 1 && cmds[0] == Title(title)
    ensures cmds[1..] == FormatLines(reportLines)
  {
    cmds := [Title(title)];
    for n := 0 to |reportLines|
      invariant |cmds| == n + 1 && cmds[0] == Title(title)
      invariant cmds[1..] == FormatLines(reportLines[..n])
    {
      var cmd := FormatLine(reportLines[n]);
      FormatLinesSnoc(reportLines, n);
      cmds := cmds + [cmd];
    }
    assert reportLines[..|reportLines|] == reportLines;
  }

  // ---------------------------------------------------------------------
  // Properties of the line classifier

  /** The command comes from a bullet line: a bullet, or a label block drawn as one. */
  predicate IsBulletCommand(c: Command) {
    c.Bullet? || (c.LabelBlock? && c.bullet)
  }

  /** Exactly the lines made only of whitespace become spacing, and no line
      becomes a title. */
  lemma ClassifyBlank(raw: string)
    ensures ClassifyLine(raw) == Spacing <==> AllIn(raw, Whitespace)
    ensures !ClassifyLine(raw).Title?
  {
    StripShape(raw);
  }

  /** The order in which the patterns are tried: blank, then (after one
      bullet marker is taken off) a full bold wrap on a non-bullet line,
      then a leading bold span, then bullet or paragraph. */
  lemma ClassifyPrecedence(raw: string)
    ensures var s := Strip(raw); var b := IsBulletMarker(s); var t := Unbulleted(s);
      && (ClassifyLine(raw).Spacing? <==> s == [])
      && (ClassifyLine(raw).Heading? <==> s != [] && !b && IsHeadingForm(t))
      && (ClassifyLine(raw).LabelBlock? <==>
            s != [] && !(!b && IsHeadingForm(t)) && exists k :: IsLabelSplit(t, k))
      && (ClassifyLine(raw).Bullet? <==> s != [] && b && forall k :: !IsLabelSplit(t, k))
      && (ClassifyLine(raw).Paragraph? <==>
            s != [] && !b && !IsHeadingForm(t) && forall k :: !IsLabelSplit(t, k))
      && (s != [] ==> (IsBulletCommand(ClassifyLine(raw)) <==> b))
  {
  }

  /** After a bullet marker the remaining text is non-empty and starts with
      a non-space character: `s[2:].strip()` of a stripped bullet line. */
  lemma BulletRest(raw: string)
    requires IsBulletMarker(Strip(raw))
    ensures Unbulleted(Strip(raw)) != [] && !Whitespace.Has(Unbulleted(Strip(raw))[0])
  {
    var s := Strip(raw);
    StripShape(raw);
    assert s[1] == ' ' && Whitespace.Has(' ');
    assert |s| >= 3;
    var r := s[2..];
    assert r[|r| - 1] == s[|s| - 1] && !Whitespace.Has(r[|r| - 1]);
    StripShape(r);
  }

  /** A heading carries the stripped inner text of the full bold wrap,
      with no markdown stripping. */
  lemma ClassifyHeadingText(raw: string)
    requires ClassifyLine(raw).Heading?
    ensures var s := Strip(raw); ClassifyLine(raw).text == Strip(s[2..|s| - 2])
  {
    var s := Strip(raw);
    assert !IsBulletMarker(s) && Unbulleted(s) == s;
  }

  /** A label block for the first split `k` of the label pattern: the label
      is the stripped bold span, with `- ` before it on a bullet line and a
      `:` after it exactly when there is a body; the body is the rest with
      leading spaces and colons and surrounding whitespace removed, markdown
      stripped, and indented on a bullet line. */
  lemma ClassifyLabelText(raw: string, k: nat)
    requires var s := Strip(raw); var t := Unbulleted(s);
      s != [] && !(!IsBulletMarker(s) && IsHeadingForm(t)) &&
      IsLabelSplit(t, k) && forall j: nat :: j < k ==> !IsLabelSplit(t, j)
    ensures var s := Strip(raw); var b := IsBulletMarker(s); var t := Unbulleted(s);
      var name := Strip(t[2..k]);
      var body := Strip(TrimLeft(EndGroup(t[k + 2..]), SpaceColon));
      var shown := if body != [] then name + ":" else name;
      ClassifyLine(raw) == LabelBlock(
        if b then "- " + shown else shown,
        if body == [] then None
        else if b then Some("    " + StripMarkdown(body))
        else Some(StripMarkdown(body)),
        b)
  {
    var s := Strip(raw);
    var b := IsBulletMarker(s);
    var t := Unbulleted(s);
    LabelMatchFirst(t, k);
    assert ClassifyLine(raw) == ClassifyText(t, b);
    ClassifyTextLabel(t, b, k);
  }

  lemma ClassifyTextLabel(t: string, b: bool, k: nat)
    requires !(IsHeadingForm(t) && !b) && LabelMatch(t) == Some(k)
    ensures var body := LabelBody(EndGroup(t[k + 2..]));
      var name := Strip(t[2..k]);
      ClassifyText(t, b) == WriteLabelBlock(if body.Some? then name + ":" else name, body, b)
  {
  }

  /** Text that matches neither bold pattern is markdown-stripped and, on a
      bullet line, given a `- ` prefix. */
  lemma ClassifyPlainText(raw: string)
    requires ClassifyLine(raw).Bullet? || ClassifyLine(raw).Paragraph?
    ensures var s := Strip(raw);
      ClassifyLine(raw) == if IsBulletMarker(s) then Bullet("- " + StripMarkdown(Unbulleted(s)))
                           else Paragraph(StripMarkdown(s))
  {
  }

  /** A bullet line whose text is a full bold wrap is never a heading: the
      label pattern takes it, and when the wrap holds no inner `**` it is a
      label block with no body. */
  lemma BulletBoldIsLabel(raw: string)
    requires IsBulletMarker(Strip(raw)) && IsHeadingForm(Unbulleted(Strip(raw)))
    ensures ClassifyLine(raw).LabelBlock? && ClassifyLine(raw).bullet
    ensures var t := Unbulleted(Strip(raw));
      (forall j :: 3 <= j < |t| - 2 ==> !MarkerAt(t, j)) ==>
        ClassifyLine(raw) == LabelBlock("- " + Strip(t[2..|t| - 2]), None, true)
  {
    var t := Unbulleted(Strip(raw));
    var e := |t| - 2;
    assert t[e + 2..] == [];
    assert IsLabelSplit(t, e);
    if forall j :: 3 <= j < |t| - 2 ==> !MarkerAt(t, j) {
      assert LabelMatch(t) == Some(e);
      assert TrimLeft([], SpaceColon) == [];
    }
  }

  // ---------------------------------------------------------------------
  // Properties of the whole report

  /** The number of commands that carry text. */
  function TextCommands(cmds: seq<Command>): nat {
    if cmds == [] then 0
    else TextCommands(cmds[..|cmds| - 1]) + (if cmds[|cmds| - 1] == Spacing then 0 else 1)
  }

  /** The number of lines that are not blank after `strip()`. */
  function NonBlankLines(lines: seq<string>): nat {
    if lines == [] then 0
    else NonBlankLines(lines[..|lines| - 1]) + (if Strip(lines[|lines| - 1]) == [] then 0 else 1)
  }

  /** Every non-blank line yields exactly one text-carrying command. */
  lemma {:induction false} NonBlankCount(lines: seq<string>)
    ensures TextCommands(FormatLines(lines)) == NonBlankLines(lines)
  {
    if lines != [] {
      var init := lines[..|lines| - 1];
      NonBlankCount(init);
      var cmds := FormatLines(lines);
      assert cmds[..|cmds| - 1] == FormatLines(init);
    }
  }

  /** A report of blank lines gives only spacing after the title. */
  lemma AllBlankIsSpacing(lines: seq<string>)
    requires forall i :: 0 <= i < |lines| ==> AllIn(lines[i], Whitespace)
    ensures forall i :: 0 <= i < |lines| ==> FormatLines(lines)[i] == Spacing
  {
    forall i | 0 <= i < |lines| ensures FormatLines(lines)[i] == Spacing {
      FormatLinesAt(lines, i);
      ClassifyBlank(lines[i]);
    }
  }
}
