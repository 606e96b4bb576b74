/** The growable character buffer that the serialiser appends to. */
module StringBuilders {

  class StringBuilder {
    /** The characters appended so far. */
    var chars: string

    constructor ()
      ensures chars == ""
    {
      chars := "";
    }

    method Append(s: string)
      modifies this
      ensures chars == old(chars) + s
    {
      chars := chars + s;
    }

    method AppendChar(c: char)
      modifies this
      ensures chars == old(chars) + [c]
    {
      chars := chars + [c];
    }

    /** The text built so far: exactly the characters appended since construction. */
    function ToString(): (s: string)
      reads this
      ensures s == chars
    {
      chars
    }
  }
}
