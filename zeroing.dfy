/**
 * `SslUtils.zeroout`: wiping a buffer that held key material.
 */
module Zeroing {
  import opened JavaInts
  import opened Buffers
  import opened SslRecords
  import opened PacketLength

  /** `zeroout(buffer)`: a writable buffer is filled with zeros over its
      whole capacity; a read-only one is left as it is. */
  method Zeroout(buffer: ByteBuf)
    modifies buffer.data
    ensures buffer.readOnly ==> unchanged(buffer.data)
    ensures !buffer.readOnly ==> forall k :: 0 <= k < buffer.data.Length ==> buffer.data[k] == 0
  {
    if !buffer.readOnly {
      buffer.SetZero(0, buffer.data.Length);
    }
  }

  /** A wiped buffer holds no record: every five bytes of it read as
      "not encrypted". */
  lemma WipedBufferIsNotEncrypted(buffer: ByteBuf, offset: nat)
    requires offset + SSL_RECORD_HEADER_LENGTH <= buffer.data.Length
    requires forall k :: 0 <= k < buffer.data.Length ==> buffer.data[k] == 0
    ensures EncryptedPacketLength(buffer, offset) == NOT_ENCRYPTED
  {
    EncryptedPacketLengthIsRecordLength(buffer, offset);
    var h: Header := buffer.data[offset..offset + SSL_RECORD_HEADER_LENGTH];
    assert h[0] == 0 && h[4] == 0;
  }
}
