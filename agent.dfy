/** The two pure helpers around the research agent: the audience text for
    a depth level, and the fallback that recovers report text from the
    agent's message history. */
module Agent {
  import opened Wrappers

  const BeginnerText: string :=
    "Explain as if to a 1st\U{2013}2nd year student. "
    + "Use simple language, basic examples, and avoid heavy math or jargon."
  const IntermediateText: string :=
    "Explain for a B.Tech AI & DS student in 3rd\U{2013}4th year. "
    + "Use technical terms where needed, include some depth, and practical examples."
  const AdvancedText: string :=
    "Explain for someone preparing for research or interviews. "
    + "Include deeper technical details, trade-offs, and where relevant, math/architecture."

  /** `get_level_description`: "Beginner" and "Intermediate" have their own
      text, and every other level, not only "Advanced", gets the advanced one. */
  function LevelDescription(level: string): (d: string)
    ensures d == BeginnerText <==> level == "Beginner"
    ensures d == IntermediateText <==> level == "Intermediate"
    ensures d == AdvancedText <==> level != "Beginner" && level != "Intermediate"
  {
    if level == "Beginner" then BeginnerText
    else if level == "Intermediate" then IntermediateText
    else AdvancedText
  }

  // ---------------------------------------------------------------------
  // _extract_text

  /** One element of a list content: a dictionary, with its "text" entry if
      it has one, or anything else. */
  datatype Piece = Dict(text: Option<string>) | NotDict

  /** The `content` attribute of a message: absent or None, a string, a
      list, or a value of any other type. */
  datatype Content = NoContent | Str(s: string) | List(pieces: seq<Piece>) | OtherContent

  datatype Message = Message(content: Content)

  /** `[piece.get("text", "") for piece in content if isinstance(piece, dict)]`. */
  function DictTexts(pieces: seq<Piece>): (parts: seq<string>)
    ensures parts == [] <==> forall i :: 0 <= i < |pieces| ==> !pieces[i].Dict?
    ensures |parts| <= |pieces|
    ensures forall i :: 0 <= i < |pieces| && pieces[i].Dict? ==> pieces[i].text.GetOr("") in parts
    ensures forall p :: p in parts ==>
      exists i :: 0 <= i < |pieces| && pieces[i].Dict? && pieces[i].text.GetOr("") == p
  {
    if pieces == [] then []
    else
      var rest := DictTexts(pieces[1..]);
      if pieces[0].Dict? then [pieces[0].text.GetOr("")] + rest
      else
        assert forall i :: 1 <= i < |pieces| ==> pieces[i] == pieces[1..][i - 1];
        rest
  }

  /** The number of dictionary elements in a list content. */
  function DictCount(pieces: seq<Piece>): nat {
    if pieces == [] then 0 else (if pieces[0].Dict? then 1 else 0) + DictCount(pieces[1..])
  }

  /** The comprehension keeps order and multiplicity: one text per
      dictionary element, and the dictionary at index `i` gives the text at
      the position that counts the dictionaries before it. */
  lemma {:induction false} DictTextsOrder(pieces: seq<Piece>)
    ensures |DictTexts(pieces)| == DictCount(pieces)
    ensures forall i :: 0 <= i < |pieces| && pieces[i].Dict? ==>
      DictCount(pieces[..i]) < |DictTexts(pieces)| &&
      DictTexts(pieces)[DictCount(pieces[..i])] == pieces[i].text.GetOr("")
  {
    if pieces != [] {
      var tail := pieces[1..];
      DictTextsOrder(tail);
      forall i | 0 < i < |pieces| && pieces[i].Dict?
        ensures DictCount(pieces[..i]) < |DictTexts(pieces)|
        ensures DictTexts(pieces)[DictCount(pieces[..i])] == pieces[i].text.GetOr("")
      {
        assert pieces[..i][1..] == tail[..i - 1];
        assert pieces[i] == tail[i - 1];
      }
      assert DictCount(pieces[..0]) == 0 by { assert pieces[..0] == []; }
    }
  }

  /** `"".join(parts)`. */
  function Join(parts: seq<string>): string {
    if parts == [] then "" else parts[0] + Join(parts[1..])
  }

  /** The message content `_extract_text` stops at. */
  predicate Usable(c: Content) {
    c.Str? || (c.List? && DictTexts(c.pieces) != [])
  }

  /** What `_extract_text` returns for a content it stops at. */
  function UsableText(c: Content): string
    requires Usable(c)
  {
    if c.Str? then c.s else Join(DictTexts(c.pieces))
  }

  /** `_extract_text`: scan the messages from last to first and return the
      text of the first usable content, or "" when there is none. */
  method ExtractText(messages: seq<Message>) returns (text: string)
    ensures (forall i :: 0 <= i < |messages| ==> !Usable(messages[i].content)) ==> text == ""
    ensures forall j ::
      (0 <= j < |messages| && Usable(messages[j].content) &&
       forall i :: j < i < |messages| ==> !Usable(messages[i].content))
      ==> text == UsableText(messages[j].content)
  {
    var n := |messages|;
    while n > 0
      invariant 0 <= n <= |messages|
      invariant forall i :: n <= i < |messages| ==> !Usable(messages[i].content)
    {
      n := n - 1;
      var content := messages[n].content;
      if content.Str? {
        return content.s;
      }
      if content.List? {
        var parts := DictTexts(content.pieces);
        if parts != [] {
          return Join(parts);
        }
      }
    }
    return "";
  }
}
