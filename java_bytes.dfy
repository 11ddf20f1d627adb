/**
 * The byte-level behaviour of java.io.DataOutputStream.writeBytes(String),
 * which the request body builder uses for every delimiter and header line:
 * each char is written as one byte, its high eight bits discarded.
 */
module JavaBytes {

  /** One octet of the body buffer. */
  type Byte = b: int | 0 <= b < 256

  /** DataOutputStream.writeBytes(s): the low byte of every char of s, in order. */
  function WriteBytes(s: string): (r: seq<Byte>)
  {
    seq(|s|, i requires 0 <= i < |s| => (s[i] as int) % 256)
  }

  /** Every character fits in one byte (ISO 8859-1), so writeBytes loses nothing. */
  predicate IsLatin1(s: string)
  {
    forall i :: 0 <= i < |s| ==> s[i] as int < 256
  }

  /** Reads every byte back as the character with that code (ISO 8859-1 decoding). */
  function Latin1Decode(bytes: seq<Byte>): (s: string)
    ensures |s| == |bytes|
    ensures IsLatin1(s)
    ensures forall i :: 0 <= i < |s| ==> s[i] as int == bytes[i]
  {
    seq(|bytes|, i requires 0 <= i < |bytes| => bytes[i] as char)
  }

  /** Writing two strings one after the other writes the bytes of their concatenation. */
  lemma WriteBytesAppend(a: string, b: string)
    ensures WriteBytes(a + b) == WriteBytes(a) + WriteBytes(b)
  {
  }

  /** The same for three and for four strings written one after the other. */
  lemma WriteBytesAppend3(a: string, b: string, c: string)
    ensures WriteBytes(a + b + c) == WriteBytes(a) + WriteBytes(b) + WriteBytes(c)
  {
    WriteBytesAppend(a, b);
    WriteBytesAppend(a + b, c);
  }

  lemma WriteBytesAppend4(a: string, b: string, c: string, d: string)
    ensures WriteBytes(a + b + c + d) == WriteBytes(a) + WriteBytes(b) + WriteBytes(c) + WriteBytes(d)
  {
    WriteBytesAppend3(a, b, c);
    WriteBytesAppend(a + b + c, d);
  }

  /** Decoding the written bytes as ISO 8859-1 recovers ISO 8859-1 text. */
  lemma DecodeWriteBytes(s: string)
    requires IsLatin1(s)
    ensures Latin1Decode(WriteBytes(s)) == s
  {
    assert forall i :: 0 <= i < |s| ==> Latin1Decode(WriteBytes(s))[i] == s[i];
  }

  /** Decoding two byte runs one after the other decodes their concatenation. */
  lemma Latin1DecodeAppend(a: seq<Byte>, b: seq<Byte>)
    ensures Latin1Decode(a + b) == Latin1Decode(a) + Latin1Decode(b)
  {
  }

  /** Writing decoded bytes back reproduces the bytes. */
  lemma WriteBytesDecode(bytes: seq<Byte>)
    ensures WriteBytes(Latin1Decode(bytes)) == bytes
  {
  }
}
