/** The SHIFT-JIS character classifier (source/src/jma_ctype_sjis.cpp). */
module CTypeSJIS {
  import opened Text

  /** `JMA_CType_SJIS::getByteCount`: the length in bytes of the character at the
      start of the buffer `p` (its content before the terminating NUL).
      A lead byte of 0x80 or more starts a two-byte character; the source asserts
      that its second byte is not the terminator. */
  function GetByteCount(p: Bytes): (r: nat)
    requires ByteAt(p, 0) >= 0x80 ==> ByteAt(p, 1) != 0
    ensures r <= 2
    ensures r == 0 <==> ByteAt(p, 0) == 0
    ensures r == 1 <==> 0 < ByteAt(p, 0) < 0x80
    ensures r == 2 <==> ByteAt(p, 0) >= 0x80
    ensures r <= NonNulLength(p)
  {
    if ByteAt(p, 0) == 0 then 0
    else if ByteAt(p, 0) < 0x80 then 1
    else
      assert NonNulLength(p) == 1 + NonNulLength(p[1..]);
      assert NonNulLength(p[1..]) >= 1 by { assert p[1..][0] == p[1]; }
      2
  }

  /** The byte count the release build answers for any buffer, where the
      assertion on the second byte is not checked; it is the one the character
      tokenizer and the separator lookup of a Shift-JIS session use. */
  function ByteCounter(p: Bytes): (r: nat)
    ensures (ByteAt(p, 0) >= 0x80 ==> ByteAt(p, 1) != 0) ==> r == GetByteCount(p)
    ensures r == 2 <==> ByteAt(p, 0) >= 0x80
  {
    if ByteAt(p, 0) == 0 then 0 else if ByteAt(p, 0) < 0x80 then 1 else 2
  }
}
