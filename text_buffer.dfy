/** Java's `StringBuffer`, reduced to the operations the decoders use on it: appending,
    deleting one character and overwriting one character, all in place. */
module TextBuffer {

  class StringBuffer {
    var chars: string

    constructor ()
      ensures chars == []
    {
      chars := [];
    }

    method Append(s: string)
      modifies this
      ensures chars == old(chars) + s
    {
      chars := chars + s;
    }

    /** `deleteCharAt(i)`: the characters after `i` move down by one. */
    method DeleteCharAt(i: nat)
      requires i < |chars|
      modifies this
      ensures chars == old(chars)[..i] + old(chars)[i + 1..]
    {
      chars := chars[..i] + chars[i + 1..];
    }

    /** `setCharAt(i, c)`. */
    method SetCharAt(i: nat, c: char)
      requires i < |chars|
      modifies this
      ensures chars == old(chars)[i := c]
    {
      chars := chars[i := c];
    }
  }
}
