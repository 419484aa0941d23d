/**
 * The record headers the detector recognises, stated field by field as the
 * protocols lay them out, and the record length (or sentinel) each header
 * announces. This is the reference the three detector variants are proved
 * against.
 *
 * - A TLS/SSLv3 record (section 5.1 of RFC 8446, section 6.2.1 of RFC 5246)
 *   starts with a 5-byte header: content type, protocol version (major,
 *   minor), and the big-endian length of the fragment that follows. The
 *   GMSSL protocol reuses the header with version 1.1.
 * - An SSL 2.0 record (Appendix E.2 of RFC 5246) has a 2-byte header when
 *   bit 7 of the first byte is set (15 length bits) and a 3-byte header
 *   otherwise (14 length bits). The byte after the header and message type
 *   holds the major version of an SSL 2.0 compatible ClientHello.
 */
module SslRecords {
  import opened JavaInts

  const SSL_CONTENT_TYPE_CHANGE_CIPHER_SPEC := 20
  const SSL_CONTENT_TYPE_ALERT := 21
  const SSL_CONTENT_TYPE_HANDSHAKE := 22
  const SSL_CONTENT_TYPE_APPLICATION_DATA := 23
  const SSL_CONTENT_TYPE_EXTENSION_HEARTBEAT := 24

  /** GMSSL version 1.1, as the short made of the two version bytes. */
  const GMSSL_PROTOCOL_VERSION := 0x101

  /** The length of a TLS/SSLv3 record header. */
  const SSL_RECORD_HEADER_LENGTH := 5

  /** Sentinel: the buffered bytes do not tell the record length yet. */
  const NOT_ENOUGH_DATA := -1

  /** Sentinel: the bytes are not an SSL/TLS record at all. */
  const NOT_ENCRYPTED := -2

  /** The five bytes the detector inspects. */
  type Header = h: seq<Octet> | |h| == SSL_RECORD_HEADER_LENGTH witness [0, 0, 0, 0, 0]

  /** An unsigned 16-bit field sent in network (big-endian) order. */
  function Uint16(hi: Octet, lo: Octet): nat
  {
    hi * 0x100 + lo
  }

  predicate IsTlsContentType(t: Octet)
  {
    SSL_CONTENT_TYPE_CHANGE_CIPHER_SPEC <= t <= SSL_CONTENT_TYPE_EXTENSION_HEARTBEAT
  }

  /** Major version 3 (SSLv3 and every TLS version), or GMSSL 1.1. */
  predicate IsTlsVersion(major: Octet, minor: Octet)
  {
    major == 3 || (major == 1 && minor == 1)
  }

  function TlsFragmentLength(h: Header): nat
  {
    Uint16(h[3], h[4])
  }

  /** A header accepted as TLS: known type, known version, non-empty fragment. */
  predicate IsTlsHeader(h: Header)
  {
    IsTlsContentType(h[0]) && IsTlsVersion(h[1], h[2]) && TlsFragmentLength(h) > 0
  }

  /** Bit 7 of the first byte selects the 2-byte SSL 2.0 header. */
  function Ssl2HeaderLength(h: Header): nat
  {
    if h[0] >= 0x80 then 2 else 3
  }

  /** The length bits of the SSL 2.0 header: 15 bits after the flag bit in a
      2-byte header, 14 bits after the flag and escape bits in a 3-byte one. */
  function Ssl2PayloadLength(h: Header): nat
  {
    if Ssl2HeaderLength(h) == 2 then Uint16(h[0] - 0x80, h[1]) else Uint16(h[0] % 0x40, h[1])
  }

  /** The SSL 2.0 version byte is major version 2 or 3. */
  predicate IsSsl2Version(h: Header)
  {
    h[Ssl2HeaderLength(h) + 1] == 2 || h[Ssl2HeaderLength(h) + 1] == 3
  }

  /**
   * The length of the whole record (header included) that the header
   * announces; NOT_ENCRYPTED when the header is neither TLS nor SSL 2.0, and
   * NOT_ENOUGH_DATA when it is SSL 2.0 with a zero length field.
   */
  function RecordLength(h: Header): int
  {
    if IsTlsHeader(h) then TlsFragmentLength(h) + SSL_RECORD_HEADER_LENGTH
    else if !IsSsl2Version(h) then NOT_ENCRYPTED
    else if Ssl2PayloadLength(h) == 0 then NOT_ENOUGH_DATA
    else Ssl2HeaderLength(h) + Ssl2PayloadLength(h)
  }

  /** A TLS header with a non-zero length gives that length plus 5. */
  lemma TlsRecordAccepted(h: Header)
    requires IsTlsContentType(h[0]) && IsTlsVersion(h[1], h[2]) && Uint16(h[3], h[4]) != 0
    ensures RecordLength(h) == Uint16(h[3], h[4]) + 5
  {
  }

  /** A header with a TLS content type but an unknown version or a zero
      length is judged by the SSL 2.0 rules instead. */
  lemma TlsFallsBackToSsl2(h: Header)
    requires IsTlsContentType(h[0])
    requires !IsTlsVersion(h[1], h[2]) || Uint16(h[3], h[4]) == 0
    ensures h[Ssl2HeaderLength(h) + 1] !in {2, 3} ==> RecordLength(h) == NOT_ENCRYPTED
    ensures h[Ssl2HeaderLength(h) + 1] in {2, 3} && Ssl2PayloadLength(h) > 0 ==>
      RecordLength(h) == Ssl2HeaderLength(h) + Ssl2PayloadLength(h)
  {
  }

  /** The SSL 2.0 length of a non-TLS header, in the 15-bit / 14-bit masks
      the two header sizes use. */
  lemma Ssl2Length(h: Header)
    requires !IsTlsHeader(h) && IsSsl2Version(h) && Ssl2PayloadLength(h) > 0
    ensures h[0] >= 0x80 ==> RecordLength(h) == Uint16(h[0], h[1]) % 0x8000 + 2
    ensures h[0] < 0x80 ==> RecordLength(h) == Uint16(h[0], h[1]) % 0x4000 + 3
  {
    if h[0] >= 0x80 {
      DivMod(Uint16(h[0], h[1]), 1, Uint16(h[0] - 0x80, h[1]), 0x8000);
    } else {
      DivMod(Uint16(h[0], h[1]), h[0] / 0x40, Uint16(h[0] % 0x40, h[1]), 0x4000);
    }
  }

  /**
   * The sentinels and the range of real lengths: NOT_ENCRYPTED exactly when
   * the header is neither TLS nor carries an SSL 2.0 version; NOT_ENOUGH_DATA
   * exactly when it is SSL 2.0 with a zero length; every other result lies
   * in 3..65540 and exceeds the header length of its family.
   */
  lemma SentinelsAndBounds(h: Header)
    ensures RecordLength(h) == NOT_ENCRYPTED <==> !IsTlsHeader(h) && !IsSsl2Version(h)
    ensures RecordLength(h) == NOT_ENOUGH_DATA <==>
      !IsTlsHeader(h) && IsSsl2Version(h) && Ssl2PayloadLength(h) == 0
    ensures RecordLength(h) < 0 ==> RecordLength(h) in {NOT_ENCRYPTED, NOT_ENOUGH_DATA}
    ensures RecordLength(h) >= 0 ==> 3 <= RecordLength(h) <= 0xFFFF + SSL_RECORD_HEADER_LENGTH
    ensures IsTlsHeader(h) ==> RecordLength(h) > SSL_RECORD_HEADER_LENGTH
    ensures !IsTlsHeader(h) && RecordLength(h) >= 0 ==> RecordLength(h) > Ssl2HeaderLength(h)
  {
  }
}
