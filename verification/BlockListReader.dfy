/** The server's side of a put-block-list request: how the text of its body is read.  The reader knows the
    element names of the service's documentation and nothing of the client's code. */
module BlockListReader {
  import opened Basics
  import opened Strings
  import opened Base64

  /** Where the service looks for a listed block. */
  datatype Where = AmongCommitted | AmongUncommitted | Anywhere

  datatype Listed = Listed(id: string, from: Where)

  /** The bytes of a decoded id as characters. */
  function Text(d: seq<Byte>): (s: string)
    ensures |s| == |d|
  {
    seq(|d|, i requires 0 <= i < |d| => d[i] as char)
  }

  /** An id up to the next '<', and the closing tag behind it; also what follows. */
  function ReadId(s: string, from: Where, close: string): (r: Option<(Listed, string)>)
    ensures r.Some? ==> |r.value.1| <= |s|
  {
    var n := IndexOf(s, '<');
    var d := Decode(s[..n]);
    if d.None? || !(close <= s[n..]) then None else Some((Listed(Text(d.value), from), s[n + |close|..]))
  }

  function ReadEntry(s: string): (r: Option<(Listed, string)>)
    ensures r.Some? ==> |r.value.1| < |s|
  {
    if "<Committed>" <= s then ReadId(s[11..], AmongCommitted, "</Committed>")
    else if "<Uncommitted>" <= s then ReadId(s[13..], AmongUncommitted, "</Uncommitted>")
    else if "<Latest>" <= s then ReadId(s[8..], Anywhere, "</Latest>")
    else None
  }

  /** Entries up to the closing tag of the list, which must end the text. */
  function ReadEntries(s: string): Option<seq<Listed>>
    decreases |s|
  {
    if s == "</BlockList>" then Some([])
    else
      var first := ReadEntry(s);
      if first.None? then None
      else
        var rest := ReadEntries(first.value.1);
        if rest.None? then None else Some([first.value.0] + rest.value)
  }

  /** The blocks a body lists, in order; None for a body the service does not take. */
  function ReadBody(text: string): Option<seq<Listed>> {
    var head := "<?xml version=\"1.0\" encoding=\"utf-8\"?><BlockList>";
    if head <= text then ReadEntries(text[|head|..]) else None
  }
}
