/**
 * BString: a byte-string value whose content lives in a shared buffer
 * (the `ValueType` handle). Reading the value hands out that buffer
 * handle; replacing the value from raw bytes installs a fresh buffer.
 */
module BStrings {
  import opened BValues

  /** The heap-allocated byte buffer that a `ValueType` handle points to. */
  class StringBuffer {
    var content: Bytes

    constructor (s: Bytes)
      ensures content == s
    {
      content := s;
    }
  }

  class BString {
    /** The buffer handle; the only field, replaced as a unit by SetValue. */
    var buffer: StringBuffer

    /** The current byte content, read through the buffer handle. */
    function Content(): Bytes
      reads this, buffer
    {
      buffer.content
    }

    /** create(std::string): copies the bytes into a buffer of its own. */
    constructor FromString(s: Bytes)
      ensures fresh(buffer)
      ensures Content() == s
    {
      buffer := new StringBuffer(s);
    }

    /** create(ValueType): adopts the caller's buffer handle without copying. */
    constructor FromBuffer(b: StringBuffer)
      ensures buffer == b
      ensures Content() == b.content
    {
      buffer := b;
    }

    /** value(): the very buffer handle held, not a copy of it. */
    method Value() returns (b: StringBuffer)
      ensures b == buffer
      ensures b.content == Content()
    {
      b := buffer;
    }

    /** setValue(ValueType): adopts the given buffer handle. */
    method SetBuffer(b: StringBuffer)
      modifies this
      ensures buffer == b
      ensures Content() == b.content
    {
      buffer := b;
    }

    /**
     * setValue(std::string): installs a fresh buffer holding `s`; a handle
     * obtained earlier from Value() keeps the old content.
     */
    method SetValue(s: Bytes)
      modifies this
      ensures fresh(buffer)
      ensures Content() == s
      ensures old(buffer).content == old(Content())
    {
      buffer := new StringBuffer(s);
    }

    /** length(): the byte count of the current content, never negative. */
    method Length() returns (n: int)
      ensures 0 <= n
      ensures n == |Content()|
    {
      n := |buffer.content|;
    }
  }
}
