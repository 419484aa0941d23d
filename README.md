# SslUtils record-length detection and helpers, modelled in Dafny

This project models the core of netty's `SslUtils` class
(`handler/src/main/java/io/netty/handler/ssl/SslUtils.java`):

- **Record-length detection.** `getEncryptedPacketLength` looks at the first
  five bytes of inbound data and returns the length of the SSL/TLS record
  they announce, `NOT_ENOUGH_DATA` (-1) or `NOT_ENCRYPTED` (-2). It comes in
  three forms: over a netty `ByteBuf` at an offset, over a
  `java.nio.ByteBuffer` at its position, and over an array of `ByteBuffer`
  segments that may split the header. The last form copies the header into
  a five-byte scratch buffer. Each form is modelled as the Java code is
  written. That means a TLS/SSLv3/GMSSL phase followed by an SSL 2.0 phase,
  with reads in the buffer's byte order that are swapped back when the
  buffer is little-endian. Each form is proved equal to one reference
  function, `SslRecords.RecordLength`. That function states the header
  layouts field by field, as section 5.1 of RFC 8446, section 6.2.1 of
  RFC 5246 and Appendix E.2 of RFC 5246 describe them.
- **Cipher-suite helpers.** `arrayContains`, `addIfSupported`,
  `useFallbackCiphersIfDefaultIsEmpty` and `isTLSv13Cipher`, with the
  constants `TLSV13_CIPHERS`, `TLSV13_CIPHER_SUITES` and `INVALID_CIPHER`.
- **SNI host-name check.** `isValidHostNameForSNI` (section 3 of RFC 6066).
- **Buffer wiping.** `zeroout`.

Modules:

| file | module | contents |
|---|---|---|
| `java_ints.dfy` | `JavaInts` | Java `byte`/`short`/`int` as bounded integers, narrowing casts, `Short.reverseBytes`, `Integer.reverseBytes`, `>>> 16` |
| `buffers.dfy` | `Buffers` | the parts of `ByteBuf` (absolute reads, `setZero`) and heap `ByteBuffer` (`allocate`, `duplicate`, `limit`, `flip`, `put`, absolute `get`/`getShort`) the core uses |
| `ssl_records.dfy` | `SslRecords` | the constants, the header layouts and `RecordLength`, the reference |
| `packet_length.dfy` | `PacketLength` | the three `getEncryptedPacketLength` forms and the byte-order helpers, proved against `RecordLength` |
| `cipher_suites.dfy` | `CipherSuites` | the list helpers and the TLSv1.3 cipher set |
| `host_names.dfy` | `HostNames` | the SNI host-name check |
| `zeroing.dfy` | `Zeroing` | `zeroout` |
| `java_strings.dfy` | `JavaStrings` | the `String` queries `startsWith`, `endsWith`, `contains` and `indexOf` |

Java integers are modelled as unbounded integers constrained to their
ranges, and every narrowing is written out (`ToShort`, `ToInt`). A mask
`x & 0x7FFF` on a sign-extended short is `x % 0x8000` under Dafny's
Euclidean remainder. A `ByteBuf` or `ByteBuffer` is a class over an
`array` of octets. The array-of-segments form gets a ghost argument: the
remaining bytes of each segment. That lets its contract name the
concatenated bytes.

The Javadoc of `getEncryptedPacketLength` (lines 262-273 of `SslUtils.java`)
asks for at least five readable bytes, and lines 266-270 promise
`NOT_ENOUGH_DATA` "if not enough data is present". The code never checks
how many bytes are readable. It reads the bytes it needs at absolute
indices: four for a 2-byte SSL 2.0 header, five otherwise. `NOT_ENOUGH_DATA`
comes only from an SSL 2.0 header whose length field is zero. The model
requires the five bytes the Javadoc asks for. A read past the buffer's
capacity or limit would throw `IndexOutOfBoundsException`, and the model
has no such path.

## Model

| member | source | states |
|---|---|---|
| PacketLength.EncryptedPacketLength | handler/src/main/java/io/netty/handler/ssl/SslUtils.java:275-325 | the `ByteBuf` detector; its contract, equality with `RecordLength` of the five bytes at `offset`, is `EncryptedPacketLengthIsRecordLength` |
| PacketLength.TlsPhase | handler/src/main/java/io/netty/handler/ssl/SslUtils.java:278-307 | the TLS phase of the `ByteBuf` detector; its contract is `TlsPhaseIsTlsHeader` |
| PacketLength.Ssl2Phase | handler/src/main/java/io/netty/handler/ssl/SslUtils.java:309-323 | the SSL 2.0 phase of the `ByteBuf` detector; its contract is `Ssl2PhaseIsSsl2Length` |
| PacketLength.EncryptedPacketLengthNio | handler/src/main/java/io/netty/handler/ssl/SslUtils.java:386-436 | the `ByteBuffer` detector; its contract, equality with `RecordLength` of the five bytes at the position, is `EncryptedPacketLengthNioIsRecordLength` |
| PacketLength.TlsPhaseNio | handler/src/main/java/io/netty/handler/ssl/SslUtils.java:389-418 | the TLS phase of the `ByteBuffer` detector; its contract is `TlsPhaseNioIsTlsHeader` |
| PacketLength.Ssl2PhaseNio | handler/src/main/java/io/netty/handler/ssl/SslUtils.java:420-434 | the SSL 2.0 phase of the `ByteBuffer` detector; its contract is `Ssl2PhaseNioIsSsl2Length` |
| PacketLength.UnsignedShortBE | handler/src/main/java/io/netty/handler/ssl/SslUtils.java:329-335 | `unsignedShortBE(ByteBuf)`; its contract, the big-endian value in either order, is `UnsignedShortBEIsNetworkOrder` |
| PacketLength.ShortBE | handler/src/main/java/io/netty/handler/ssl/SslUtils.java:339-345 | `shortBE(ByteBuf)`; its contract is `ShortBEIsNetworkOrder` |
| PacketLength.UnsignedShortBENio | handler/src/main/java/io/netty/handler/ssl/SslUtils.java:352-354 | `unsignedShortBE(ByteBuffer)`; its contract is `UnsignedShortBENioIsNetworkOrder` |
| PacketLength.ShortBENio | handler/src/main/java/io/netty/handler/ssl/SslUtils.java:357-360 | `shortBE(ByteBuffer)`; its contract is `ShortBENioIsNetworkOrder` |
| HostNames.IsValidHostNameForSNI | handler/src/main/java/io/netty/handler/ssl/SslUtils.java:480-489 | the SNI check; its contract, an if-and-only-if in plain sequence terms, is `ValidHostNameCharacterization`, and `ValidHostNameHasHostAndDomain` follows from it |
| CipherSuites.IsTLSv13Cipher | handler/src/main/java/io/netty/handler/ssl/SslUtils.java:494-497 | membership in `TLSV13_CIPHERS`; `TlsV13CipherNames`, `TlsV13CipherSuitesAreTlsV13` and `TlsV13CiphersSurviveFallback` state its properties |
| PacketLength.EncryptedPacketLengthIsRecordLength | handler/src/main/java/io/netty/handler/ssl/SslUtils.java:275-325 | the `ByteBuf` detector returns `RecordLength` of the five bytes at `offset`, for either byte order |
| PacketLength.TlsPhaseIsTlsHeader | handler/src/main/java/io/netty/handler/ssl/SslUtils.java:278-307 | the TLS phase keeps `tls` exactly for a TLS content type, version major 3 or GMSSL 1.1, and a non-zero length; the packet length is then that length plus 5 |
| PacketLength.Ssl2PhaseIsSsl2Length | handler/src/main/java/io/netty/handler/ssl/SslUtils.java:309-323 | the SSL 2.0 phase returns NOT_ENCRYPTED without version byte 2 or 3, NOT_ENOUGH_DATA for a zero 15/14-bit length, and otherwise header length plus that length |
| PacketLength.EncryptedPacketLengthNioIsRecordLength | handler/src/main/java/io/netty/handler/ssl/SslUtils.java:386-436 | the `ByteBuffer` detector returns `RecordLength` of the five bytes at the buffer's position |
| PacketLength.TlsPhaseNioIsTlsHeader | handler/src/main/java/io/netty/handler/ssl/SslUtils.java:389-418 | the TLS phase of the `ByteBuffer` form accepts exactly the TLS headers, with their length plus 5 |
| PacketLength.Ssl2PhaseNioIsSsl2Length | handler/src/main/java/io/netty/handler/ssl/SslUtils.java:420-434 | the SSL 2.0 phase of the `ByteBuffer` form gives the SSL 2.0 length or the right sentinel |
| PacketLength.EncryptedPacketLengthOfSegments | handler/src/main/java/io/netty/handler/ssl/SslUtils.java:362-384 | over segments, the result is `RecordLength` of the first five bytes of the concatenated remaining bytes from `offset` on, whether the first segment holds them all or they are copied; the segments are not modified |
| PacketLength.CopyHeader | handler/src/main/java/io/netty/handler/ssl/SslUtils.java:370-379 | the copy loop fills the scratch buffer with exactly the first five concatenated bytes |
| PacketLength.PutDuplicate | handler/src/main/java/io/netty/handler/ssl/SslUtils.java:374-378 | one step copies the first min(remaining, room) bytes of a segment after what is already in the scratch buffer |
| PacketLength.EncryptedPacketLengthIgnoresByteOrder | handler/src/main/java/io/netty/handler/ssl/SslUtils.java:275-345 | two `ByteBuf`s holding the same five bytes give the same result, whatever their byte orders and offsets |
| PacketLength.NioAgreesWithByteBuf | handler/src/main/java/io/netty/handler/ssl/SslUtils.java:386-436 | the `ByteBuffer` form and the `ByteBuf` form agree on the same five bytes |
| PacketLength.UnsignedShortBEIsNetworkOrder | handler/src/main/java/io/netty/handler/ssl/SslUtils.java:329-335 | `unsignedShortBE(ByteBuf)` is the big-endian unsigned value of the two bytes in either byte order |
| PacketLength.ShortBEIsNetworkOrder | handler/src/main/java/io/netty/handler/ssl/SslUtils.java:339-345 | `shortBE(ByteBuf)` is the big-endian signed short of the two bytes in either byte order |
| PacketLength.UnsignedShortBENioIsNetworkOrder | handler/src/main/java/io/netty/handler/ssl/SslUtils.java:352-354 | `unsignedShortBE(ByteBuffer)` is the big-endian unsigned value of the two bytes in either byte order |
| PacketLength.ShortBENioIsNetworkOrder | handler/src/main/java/io/netty/handler/ssl/SslUtils.java:357-360 | `shortBE(ByteBuffer)` is the big-endian signed short of the two bytes in either byte order |
| PacketLength.UnsignedByte | handler/src/main/java/io/netty/handler/ssl/SslUtils.java:347-349 | `unsignedByte` maps a signed byte to the octet with the same low 8 bits |
| PacketLength.GmsslVersionIsOrderFree | handler/src/main/java/io/netty/handler/ssl/SslUtils.java:296 | the GMSSL comparison `getShort(offset + 1) == 0x101` holds exactly when both version bytes are 1, whatever the byte order |
| PacketLength.MaskedShort | handler/src/main/java/io/netty/handler/ssl/SslUtils.java:315-316 | masking the sign-extended short with 0x7FFF or 0x3FFF keeps the 7 or 6 low bits of the first byte followed by the second byte |
| SslRecords.TlsRecordAccepted | handler/src/main/java/io/netty/handler/ssl/SslUtils.java:280-298 | a TLS content type, version major 3 or GMSSL 1.1, and a non-zero length give that length plus 5 |
| SslRecords.TlsFallsBackToSsl2 | handler/src/main/java/io/netty/handler/ssl/SslUtils.java:299-313 | a TLS content type with an unknown version or a zero length is judged by the SSL 2.0 rules |
| SslRecords.Ssl2Length | handler/src/main/java/io/netty/handler/ssl/SslUtils.java:311-316 | a non-TLS SSL 2.0 header gives its first two bytes masked to 15 bits plus 2, or to 14 bits plus 3 |
| SslRecords.SentinelsAndBounds | handler/src/main/java/io/netty/handler/ssl/SslUtils.java:309-324 | NOT_ENCRYPTED iff neither TLS nor SSL 2.0 version; NOT_ENOUGH_DATA iff SSL 2.0 with zero length; no other negative results; other results lie in 3..65540 and exceed their header length |
| CipherSuites.ArrayContains | handler/src/main/java/io/netty/handler/ssl/SslUtils.java:212-219 | the scan returns true exactly when the value is among the elements |
| CipherSuites.AddIfSupported | handler/src/main/java/io/netty/handler/ssl/SslUtils.java:224-230 | the list becomes its old contents followed by the supported names, in the order given |
| CipherSuites.SupportedMembership | handler/src/main/java/io/netty/handler/ssl/SslUtils.java:224-230 | a name is appended exactly when it is offered and supported |
| CipherSuites.FilterAppend | handler/src/main/java/io/netty/handler/ssl/SslUtils.java:225-229 | filtering a list element by element distributes over concatenation, so the appended names keep their order |
| CipherSuites.UseFallbackCiphersIfDefaultIsEmpty | handler/src/main/java/io/netty/handler/ssl/SslUtils.java:232-241 | a non-empty list is unchanged; an empty one becomes the usable fallback ciphers, in order |
| CipherSuites.UsableFallbackMembership | handler/src/main/java/io/netty/handler/ssl/SslUtils.java:234-239 | a fallback cipher is adopted exactly when it neither starts with `SSL_` nor contains `_RC4_` |
| CipherSuites.TlsV13CipherNames | handler/src/main/java/io/netty/handler/ssl/SslUtils.java:54-57 | the TLSv1.3 set is five distinct `TLS_` names and excludes `INVALID_CIPHER` |
| CipherSuites.TlsV13CipherSuitesAreTlsV13 | handler/src/main/java/io/netty/handler/ssl/SslUtils.java:108 | both suites of `TLSV13_CIPHER_SUITES` are TLSv1.3 ciphers per `isTLSv13Cipher` |
| CipherSuites.TlsV13CiphersSurviveFallback | handler/src/main/java/io/netty/handler/ssl/SslUtils.java:494-497 | an offered TLSv1.3 cipher is always kept by the fallback filter |
| CipherSuites.InvalidCipherNeverFallsBack | handler/src/main/java/io/netty/handler/ssl/SslUtils.java:64 | `INVALID_CIPHER` is never adopted as a fallback cipher |
| JavaStrings.MissingCharacter | handler/src/main/java/io/netty/handler/ssl/SslUtils.java:235 | a string that lacks a character of `_RC4_` does not contain it |
| JavaStrings.IndexOf | handler/src/main/java/io/netty/handler/ssl/SslUtils.java:485 | `indexOf('.')` is -1 exactly when there is no dot, and otherwise the first index of a dot |
| HostNames.ValidHostNameCharacterization | handler/src/main/java/io/netty/handler/ssl/SslUtils.java:480-489 | the check holds iff the name is non-null, has a dot, neither starts nor ends with a dot, does not start with `/`, and is neither an IPv4 nor an IPv6 address |
| HostNames.ValidHostNameHasHostAndDomain | handler/src/main/java/io/netty/handler/ssl/SslUtils.java:483-485 | a name that passes has a dot strictly inside it: a non-empty host part and a non-empty domain part |
| Zeroing.Zeroout | handler/src/main/java/io/netty/handler/ssl/SslUtils.java:451-455 | a writable buffer becomes all zeros over its capacity; a read-only one is unchanged |
| Zeroing.WipedBufferIsNotEncrypted | handler/src/main/java/io/netty/handler/ssl/SslUtils.java:451-455 | five bytes of a wiped buffer read as NOT_ENCRYPTED |
| Buffers.ByteBuf.SetZero | handler/src/main/java/io/netty/handler/ssl/SslUtils.java:453 | `setZero(index, length)` zeroes exactly that range and keeps every other byte |

## Left out

- The static initialiser, the JDK TLSv1.3 probing, `newInitContext`, `getSSLContext` and the `DEFAULT_CIPHER_SUITES` setup (lines 113-210): they depend on the JDK's security providers at run time.
- `handleHandshakeFailure` (lines 438-446): it acts on a channel pipeline, which is I/O.
- `toBase64` (lines 470-475): it delegates to netty's Base64 codec, which is not part of this model.
- `zerooutAndRelease` (lines 460-463): reference-count release is outside the model. Its zeroing is `Zeroout`.
- `toSSLHandshakeException` (lines 250-256): exception wrapping has no counterpart in the model.
- `Bootstrap.java`, `OpenSslSession.java` and `TcpDnsQueryContext.java` are not part of this model.
- PacketLength.EncryptedPacketLength: the model requires the five readable bytes the Javadoc asks for. It does not model the code's actual reads (four bytes suffice for a 2-byte SSL 2.0 header, and a `ByteBuf` reads up to its capacity), nor the `IndexOutOfBoundsException` a read past the capacity or limit throws.
- PacketLength.EncryptedPacketLengthNio: the same five-byte requirement at the buffer's position.
- PacketLength.EncryptedPacketLengthOfSegments: the caller must supply five bytes across the segments from `offset` on. When they run out, Java throws `ArrayIndexOutOfBoundsException`; the model makes this a precondition.
- HostNames.IsValidHostNameForSNI: `NetUtil.isValidIpV4Address` and `isValidIpV6Address` are parameters, so their own rules are not modelled.
- Buffers.ByteBuf: reader and writer indices, reference counts and capacity growth are not modelled. The detector uses only absolute reads.
- Buffers.ByteBuffer: only heap buffers are modelled. The mark, read-only views and direct memory are left out. `duplicate` gives big-endian order, as the JDK does.
- CipherSuites.UseFallbackCiphersIfDefaultIsEmpty: the varargs overload (lines 243-245) passes its array through `asList` and is the same method over a sequence. `null` elements are not modelled.
- CipherSuites.ArrayContains: `null` is not modelled. A `null` element never matches, because `value.equals(null)` is false. A `null` value throws `NullPointerException` at line 214 when the array is non-empty; the model cannot express that case.
