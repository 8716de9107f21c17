/** A response as it is to be stored: header, title, and the lines of its text trimmed. */
module Responses {
  import opened Text
  import opened Lines
  import opened Blocks
  import opened Partfiles
  import opened Repaging

  datatype Title = NoTitle | Title(text: Text)

  datatype Change = Change(header: Text, title: Title, text: Text)

  function TrimAll(ls: seq<Text>): (r: seq<Text>)
    ensures |r| == |ls|
  {
    if ls == [] then [] else [Trim(ls[0])] + TrimAll(ls[1..])
  }

  function TitleLines(t: Title): seq<Text> {
    match t
    case NoTitle => []
    case Title(text) => [text]
  }

  function Need(c: Change): nat {
    |LinesOf(c.text)|
  }

  function NewBlock(c: Change): Block {
    Block(c.header, TitleLines(c.title) + TrimAll(LinesOf(c.text)))
  }

  lemma NewBlockSized(c: Change)
    requires IsHeader(c.header)
    ensures Sized(NewBlock(c), Need(c))
    ensures |NewBlock(c).vals| == Need(c) + |TitleLines(c.title)|
  {
  }

  /** Count the lines of the text. */
  method CountLines(text: Text) returns (needslines: nat)
    ensures needslines == |LinesOf(text)|
  {
    hide LinesFrom;
    needslines := 0;
    var pos := 0;
    var code, templine, next := ChxNextLine(text, pos);
    while code != 0
      invariant 0 <= pos <= |text|
      invariant code == 0 <==> LinesFrom(text, pos) == []
      invariant code != 0 ==> pos < next <= |text| && LinesFrom(text, pos) == [templine] + LinesFrom(text, next)
      invariant needslines + |LinesFrom(text, pos)| == |LinesOf(text)|
      decreases |text| - pos
    {
      needslines := needslines + 1;
      pos := next;
      code, templine, next := ChxNextLine(text, pos);
    }
  }
}
