/** The editor's document as a mutable text buffer, with the two edits the
    intentions make on it: replacing a range and inserting at an offset. */
module Text {

  /** `t` with the range `[start, end)` replaced by `s`. */
  function Splice(t: string, start: nat, end: nat, s: string): (r: string)
    requires start <= end <= |t|
    ensures |r| == |t| - (end - start) + |s|
    ensures r[..start] == t[..start]
    ensures r[start..start + |s|] == s
    ensures r[start + |s|..] == t[end..]
  {
    t[..start] + s + t[end..]
  }

  class Document {
    var text: string

    constructor (initial: string)
      ensures text == initial
    {
      text := initial;
    }

    /** `Document.replaceString`. */
    method ReplaceString(start: nat, end: nat, s: string)
      requires start <= end <= |text|
      modifies this
      ensures text == Splice(old(text), start, end, s)
    {
      text := text[..start] + s + text[end..];
    }

    /** `Document.insertString`: an empty range replaced. */
    method InsertString(offset: nat, s: string)
      requires offset <= |text|
      modifies this
      ensures text == Splice(old(text), offset, offset, s)
    {
      text := text[..offset] + s + text[offset..];
    }
  }
}
