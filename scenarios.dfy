/** Concrete report lines and what the formatter makes of them. */
module Scenarios {
  import opened Wrappers
  import opened Text
  import opened Markdown
  import opened Formatter

  lemma BlankLine()
    ensures ClassifyLine("") == Spacing && ClassifyLine(" \t ") == Spacing
  {
  }

  lemma FullWrapIsHeading()
    ensures ClassifyLine("**Title**") == Heading("Title")
  {
    var s := "**Title**";
    StripFixed(s);
    assert !IsBulletMarker(s) && IsHeadingForm(s);
    assert HeadingText(s) == "Title";
    StripFixed("Title");
  }

  /** The heading is the greedy inner text, inner markers and all. */
  lemma HeadingKeepsInnerMarkers()
    ensures ClassifyLine("**a** and **b**") == Heading("a** and **b")
  {
    var s := "**a** and **b**";
    assert Strip(s) == s && !IsBulletMarker(s) by { StripFixed(s); }
    assert Unbulleted(Strip(s)) == s;
    assert IsHeadingForm(s);
    assert HeadingText(s) == "a** and **b";
    StripFixed("a** and **b");
    assert ClassifyLine(s) == ClassifyText(s, false);
  }

  lemma LabelSplitOfExample()
    ensures LabelMatch("**Label:** body text") == Some(8)
  {
    var s := "**Label:** body text";
    assert IsLabelSplit(s, 8);
    forall j: nat | 2 < j < 8 ensures !MarkerAt(s, j) { }
    LabelMatchFirst(s, 8);
  }

  lemma LabelPartsOfExample()
    ensures Strip("**Label:** body text"[2..8]) == "Label:"
    ensures Strip(TrimLeft(EndGroup("**Label:** body text"[10..]), SpaceColon)) == "body text"
    ensures StripMarkdown("body text") == "body text"
  {
    var s := "**Label:** body text";
    assert s[2..8] == "Label:";
    StripFixed("Label:");
    assert EndGroup(s[10..]) == " body text";
    assert TrimLeft(" body text", SpaceColon) == "body text";
    assert "body text"[0] == 'b' && "body text"[8] == 't';
    StripFixed("body text");
    StripMarkdownPlain("body text");
  }

  lemma ExampleLineShape()
    ensures var s := "**Label:** body text";
      Strip(s) == s && !IsBulletMarker(s) && !IsHeadingForm(s) && Unbulleted(s) == s
  {
    StripFixed("**Label:** body text");
  }

  /** A colon is appended whenever there is a body, also after a label that
      already ends in one. */
  lemma LabelWithColonInside()
    ensures ClassifyLine("**Label:** body text") == LabelBlock("Label::", Some("body text"), false)
  {
    var s := "**Label:** body text";
    ExampleLineShape();
    assert ClassifyLine(s) == ClassifyText(s, false);
    LabelSplitOfExample();
    LabelPartsOfExample();
    assert "Label:" + ":" == "Label::";
    ClassifyTextLabel(s, false, 8);
  }

  /** `- **Note**` is a label block with no body, not a heading. */
  lemma BulletWrapIsLabel()
    ensures ClassifyLine("- **Note**") == LabelBlock("- Note", None, true)
  {
    var s := "- **Note**";
    var t := "**Note**";
    assert Strip(s) == s by { StripFixed(s); }
    assert IsBulletMarker(s) && s[2..] == t;
    assert Unbulleted(Strip(s)) == t by { StripFixed(t); }
    assert IsHeadingForm(t);
    assert forall j :: 3 <= j < |t| - 2 ==> !MarkerAt(t, j);
    assert t[2..|t| - 2] == "Note";
    StripFixed("Note");
    assert "- " + "Note" == "- Note";
    BulletBoldIsLabel(s);
  }

  lemma PlainBullet()
    ensures ClassifyLine("- item") == Bullet("- item")
  {
    var s := "- item";
    assert Strip(s) == s by { StripFixed(s); }
    assert IsBulletMarker(s) && s[2..] == "item";
    assert Unbulleted(Strip(s)) == "item" by { StripFixed("item"); }
    assert LabelMatch("item") == None by { assert !MarkerAt("item", 0); }
    assert StripMarkdown("item") == "item" by { StripMarkdownPlain("item"); }
    assert "- " + "item" == "- item";
    assert ClassifyLine(s) == ClassifyText("item", true);
  }

  /** Only one bullet marker is taken off. */
  lemma OneMarkerOnly()
    ensures ClassifyLine("- - x") == Bullet("- - x")
  {
    var s := "- - x";
    assert Strip(s) == s by { StripFixed(s); }
    assert IsBulletMarker(s) && s[2..] == "- x";
    assert Unbulleted(Strip(s)) == "- x" by { StripFixed("- x"); }
    assert LabelMatch("- x") == None by { assert !MarkerAt("- x", 0); }
    assert StripMarkdown("- x") == "- x" by { StripMarkdownPlain("- x"); }
    assert "- " + "- x" == "- - x";
    assert ClassifyLine(s) == ClassifyText("- x", true);
  }

  /** An unclosed marker stays as literal text. */
  lemma UnclosedMarker()
    ensures StripMarkdown("a **b") == "a **b"
  {
    var s := "a **b";
    StripMarkdownLiteral(s);
    assert s[1..] == " **b";
    StripMarkdownLiteral(" **b");
    assert " **b"[1..] == "**b";
    assert forall j :: !IsClose("**b", 2, j);
    StripMarkdownLiteral("**b");
    assert "**b"[1..] == "*b";
    StripMarkdownPlain("*b");
  }
}
