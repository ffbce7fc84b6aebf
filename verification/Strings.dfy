/** The growing strings that text is put together in. */
module Strings {
  import opened Bytes

  class String {
    var bytes: seq<byte>

    constructor ()
      ensures bytes == []
    {
      bytes := [];
    }

    method Append(text: seq<byte>)
      modifies this
      ensures bytes == old(bytes) + text
    {
      bytes := bytes + text;
    }
  }
}
