/**
 * `SslUtils.getEncryptedPacketLength` in its three forms, with the helpers
 * that read length fields big-endian whatever the buffer's byte order.
 * Each form is written as the Java code computes it, in its two phases
 * (the TLS/SSLv3 check, then the SSL 2.0 check for what did not pass),
 * and proved equal to `SslRecords.RecordLength` of the five header bytes
 * it looks at.
 */
module PacketLength {
  import opened JavaInts
  import opened Buffers
  import opened SslRecords

  /** The `switch` on the first byte: one of the five TLS content types. */
  function IsTlsContentTypeCase(b: int): bool
  {
    match b
    case 20 | 21 | 22 | 23 | 24 => true
    case _ => false
  }

  /** The state after the TLS phase: the `tls` flag and `packetLength`. */
  datatype TlsCheck = TlsCheck(tls: bool, packetLength: int)

  // ----- ByteBuf -----

  /** `unsignedShortBE(ByteBuf, offset)`: the unsigned short read in the
      buffer's order, byte-swapped back when the buffer is little-endian. */
  function UnsignedShortBE(buffer: ByteBuf, offset: nat): int
    reads buffer.data
    requires offset + 2 <= buffer.data.Length
  {
    var value := buffer.GetUnsignedShort(offset);
    if buffer.order == LittleEndian then UnsignedShiftRight16(ReverseBytesInt(value)) else value
  }

  /** `shortBE(ByteBuf, offset)`: the short read in the buffer's order,
      byte-swapped back when the buffer is little-endian. */
  function ShortBE(buffer: ByteBuf, offset: nat): JShort
    reads buffer.data
    requires offset + 2 <= buffer.data.Length
  {
    var value := buffer.GetShort(offset);
    if buffer.order == LittleEndian then ReverseBytesShort(value) else value
  }

  /** The TLS phase of `getEncryptedPacketLength(ByteBuf, offset)`: content
      type, then version (major 3 or the GMSSL short), then a length that
      must make the record longer than its header. */
  function TlsPhase(buffer: ByteBuf, offset: nat): TlsCheck
    reads buffer.data
    requires offset + SSL_RECORD_HEADER_LENGTH <= buffer.data.Length
  {
    if !IsTlsContentTypeCase(buffer.GetUnsignedByte(offset)) then TlsCheck(false, 0)
    else if buffer.GetUnsignedByte(offset + 1) == 3 || buffer.GetShort(offset + 1) == GMSSL_PROTOCOL_VERSION then
      var packetLength := UnsignedShortBE(buffer, offset + 3) + SSL_RECORD_HEADER_LENGTH;
      TlsCheck(packetLength > SSL_RECORD_HEADER_LENGTH, packetLength)
    else
      TlsCheck(false, 0)
  }

  /** The SSL 2.0 phase of `getEncryptedPacketLength(ByteBuf, offset)`. */
  function Ssl2Phase(buffer: ByteBuf, offset: nat): int
    reads buffer.data
    requires offset + SSL_RECORD_HEADER_LENGTH <= buffer.data.Length
  {
    // `(b & 0x80) != 0` for the unsigned byte b
    var headerLength := if buffer.GetUnsignedByte(offset) >= 0x80 then 2 else 3;
    var majorVersion := buffer.GetUnsignedByte(offset + headerLength + 1);
    if majorVersion == 2 || majorVersion == 3 then
      // `shortBE(..) & 0x7FFF` and `& 0x3FFF`: the short is sign-extended
      // to int before the mask, which keeps its low 15 or 14 bits
      var packetLength := if headerLength == 2 then ShortBE(buffer, offset) % 0x8000 + 2
                          else ShortBE(buffer, offset) % 0x4000 + 3;
      if packetLength <= headerLength then NOT_ENOUGH_DATA else packetLength
    else
      NOT_ENCRYPTED
  }

  /** `getEncryptedPacketLength(ByteBuf, offset)`. The caller guarantees
      five readable bytes at `offset`; nothing is read beyond them, and
      only absolute reads are used. */
  function EncryptedPacketLength(buffer: ByteBuf, offset: nat): int
    reads buffer.data
    requires offset + SSL_RECORD_HEADER_LENGTH <= buffer.data.Length
  {
    var check := TlsPhase(buffer, offset);
    if check.tls then check.packetLength else Ssl2Phase(buffer, offset)
  }

  // ----- ByteBuffer -----

  /** `unsignedByte(b)`: `(short) (b & 0xFF)`. */
  function UnsignedByte(b: JByte): (r: int)
    ensures r == b % 0x100
  {
    ToShort(b % 0x100)
  }

  /** `shortBE(ByteBuffer, offset)`: the short read in the buffer's order,
      swapped when the buffer is not big-endian. */
  function ShortBENio(buffer: ByteBuffer, offset: nat): JShort
    reads buffer, buffer.hb
    requires buffer.Valid() && offset + 2 <= buffer.limit
  {
    if buffer.order == BigEndian then buffer.GetShort(offset) else ReverseBytesShort(buffer.GetShort(offset))
  }

  /** `unsignedShortBE(ByteBuffer, offset)`: `shortBE(..) & 0xFFFF`. */
  function UnsignedShortBENio(buffer: ByteBuffer, offset: nat): int
    reads buffer, buffer.hb
    requires buffer.Valid() && offset + 2 <= buffer.limit
  {
    ShortBENio(buffer, offset) % 0x1_0000
  }

  /** The TLS phase of `getEncryptedPacketLength(ByteBuffer)`. */
  function TlsPhaseNio(buffer: ByteBuffer): TlsCheck
    reads buffer, buffer.hb
    requires buffer.Valid() && buffer.Remaining() >= SSL_RECORD_HEADER_LENGTH
  {
    var pos := buffer.position;
    if !IsTlsContentTypeCase(UnsignedByte(buffer.Get(pos))) then TlsCheck(false, 0)
    else if UnsignedByte(buffer.Get(pos + 1)) == 3 || buffer.GetShort(pos + 1) == GMSSL_PROTOCOL_VERSION then
      var packetLength := UnsignedShortBENio(buffer, pos + 3) + SSL_RECORD_HEADER_LENGTH;
      TlsCheck(packetLength > SSL_RECORD_HEADER_LENGTH, packetLength)
    else
      TlsCheck(false, 0)
  }

  /** The SSL 2.0 phase of `getEncryptedPacketLength(ByteBuffer)`. */
  function Ssl2PhaseNio(buffer: ByteBuffer): int
    reads buffer, buffer.hb
    requires buffer.Valid() && buffer.Remaining() >= SSL_RECORD_HEADER_LENGTH
  {
    var pos := buffer.position;
    var headerLength := if UnsignedByte(buffer.Get(pos)) >= 0x80 then 2 else 3;
    var majorVersion := UnsignedByte(buffer.Get(pos + headerLength + 1));
    if majorVersion == 2 || majorVersion == 3 then
      var packetLength := if headerLength == 2 then ShortBENio(buffer, pos) % 0x8000 + 2
                          else ShortBENio(buffer, pos) % 0x4000 + 3;
      if packetLength <= headerLength then NOT_ENOUGH_DATA else packetLength
    else
      NOT_ENCRYPTED
  }

  /** `getEncryptedPacketLength(ByteBuffer)`: the same decision as the
      `ByteBuf` form, at the buffer's position, with absolute reads only. */
  function EncryptedPacketLengthNio(buffer: ByteBuffer): int
    reads buffer, buffer.hb
    requires buffer.Valid() && buffer.Remaining() >= SSL_RECORD_HEADER_LENGTH
  {
    var check := TlsPhaseNio(buffer);
    if check.tls then check.packetLength else Ssl2PhaseNio(buffer)
  }

  // ----- byte order -----

  /** The GMSSL comparison does not depend on the byte order: 0x0101 reads
      the same both ways. */
  lemma GmsslVersionIsOrderFree(data: seq<Octet>, i: nat, order: ByteOrder)
    requires i + 2 <= |data|
    ensures ShortAt(data, i, order) == GMSSL_PROTOCOL_VERSION <==> data[i] == 1 && data[i + 1] == 1
  {
    var hi, lo := data[i], data[i + 1];
    DivMod(Uint16(hi, lo), hi, lo, 0x100);
    DivMod(Uint16(lo, hi), lo, hi, 0x100);
    assert ShortOf(hi, lo) == GMSSL_PROTOCOL_VERSION <==> Uint16(hi, lo) == 0x101;
    assert ShortOf(lo, hi) == GMSSL_PROTOCOL_VERSION <==> Uint16(lo, hi) == 0x101;
  }

  /** The low 15 and 14 bits of a big-endian short are the SSL 2.0 length
      bits of its first byte followed by its second byte. */
  lemma MaskedShort(hi: Octet, lo: Octet)
    ensures ShortOf(hi, lo) % 0x8000 == Uint16(hi % 0x80, lo)
    ensures ShortOf(hi, lo) % 0x4000 == Uint16(hi % 0x40, lo)
  {
    var s := ShortOf(hi, lo);
    var c := if s == hi * 0x100 + lo then 0 else 1;
    assert s == hi * 0x100 + lo - c * 0x1_0000;
    var k, r := hi / 0x80, hi % 0x80;
    assert s == (k - 2 * c) * 0x8000 + (r * 0x100 + lo);
    DivMod(s, k - 2 * c, r * 0x100 + lo, 0x8000);
    var k', r' := hi / 0x40, hi % 0x40;
    assert s == (k' - 4 * c) * 0x4000 + (r' * 0x100 + lo);
    DivMod(s, k' - 4 * c, r' * 0x100 + lo, 0x4000);
  }

  /** The masked short plus the header length is the SSL 2.0 record length
      the header announces. */
  lemma Ssl2LengthOfShort(h: Header, s: JShort)
    requires s == ShortOf(h[0], h[1])
    ensures Ssl2HeaderLength(h) == 2 ==> s % 0x8000 + 2 == Ssl2HeaderLength(h) + Ssl2PayloadLength(h)
    ensures Ssl2HeaderLength(h) == 3 ==> s % 0x4000 + 3 == Ssl2HeaderLength(h) + Ssl2PayloadLength(h)
  {
    MaskedShort(h[0], h[1]);
    if h[0] >= 0x80 {
      assert h[0] % 0x80 == h[0] - 0x80;
    }
  }

  /** `unsignedShortBE(ByteBuf)` reads the field big-endian in either order. */
  lemma UnsignedShortBEIsNetworkOrder(buffer: ByteBuf, offset: nat)
    requires offset + 2 <= buffer.data.Length
    ensures UnsignedShortBE(buffer, offset) == Uint16(buffer.data[offset], buffer.data[offset + 1])
  {
    var hi, lo := buffer.data[offset], buffer.data[offset + 1];
    assert ShortOf(hi, lo) % 0x1_0000 == Uint16(hi, lo);
    assert ShortOf(lo, hi) % 0x1_0000 == Uint16(lo, hi);
    if buffer.order == LittleEndian {
      ReverseUnsignedShort(hi, lo);
    }
  }

  /** `shortBE(ByteBuf)` reads the field big-endian in either order. */
  lemma ShortBEIsNetworkOrder(buffer: ByteBuf, offset: nat)
    requires offset + 2 <= buffer.data.Length
    ensures ShortBE(buffer, offset) == ShortOf(buffer.data[offset], buffer.data[offset + 1])
  {
    if buffer.order == LittleEndian {
      ReverseShortOf(buffer.data[offset], buffer.data[offset + 1]);
    }
  }

  /** `shortBE(ByteBuffer)` reads the field big-endian in either order. */
  lemma ShortBENioIsNetworkOrder(buffer: ByteBuffer, offset: nat)
    requires buffer.Valid() && offset + 2 <= buffer.limit
    ensures ShortBENio(buffer, offset) == ShortOf(buffer.hb[offset], buffer.hb[offset + 1])
  {
    if buffer.order == LittleEndian {
      ReverseShortOf(buffer.hb[offset], buffer.hb[offset + 1]);
    }
  }

  /** `unsignedShortBE(ByteBuffer)` reads the field big-endian in either order. */
  lemma UnsignedShortBENioIsNetworkOrder(buffer: ByteBuffer, offset: nat)
    requires buffer.Valid() && offset + 2 <= buffer.limit
    ensures UnsignedShortBENio(buffer, offset) == Uint16(buffer.hb[offset], buffer.hb[offset + 1])
  {
    ShortBENioIsNetworkOrder(buffer, offset);
    assert ShortOf(buffer.hb[offset], buffer.hb[offset + 1]) % 0x1_0000
        == Uint16(buffer.hb[offset], buffer.hb[offset + 1]);
  }

  // ----- agreement with the reference -----

  /** The TLS phase accepts exactly the TLS headers, with their length. */
  lemma TlsPhaseIsTlsHeader(buffer: ByteBuf, offset: nat)
    requires offset + SSL_RECORD_HEADER_LENGTH <= buffer.data.Length
    ensures var h: Header := buffer.data[offset..offset + SSL_RECORD_HEADER_LENGTH];
      TlsPhase(buffer, offset).tls == IsTlsHeader(h)
      && (IsTlsHeader(h) ==> TlsPhase(buffer, offset).packetLength == TlsFragmentLength(h) + SSL_RECORD_HEADER_LENGTH)
  {
    GmsslVersionIsOrderFree(buffer.data[..], offset + 1, buffer.order);
    UnsignedShortBEIsNetworkOrder(buffer, offset + 3);
  }

  /** The SSL 2.0 phase gives the SSL 2.0 length or the sentinels. */
  lemma Ssl2PhaseIsSsl2Length(buffer: ByteBuf, offset: nat)
    requires offset + SSL_RECORD_HEADER_LENGTH <= buffer.data.Length
    ensures var h: Header := buffer.data[offset..offset + SSL_RECORD_HEADER_LENGTH];
      Ssl2Phase(buffer, offset)
      == if !IsSsl2Version(h) then NOT_ENCRYPTED
         else if Ssl2PayloadLength(h) == 0 then NOT_ENOUGH_DATA
         else Ssl2HeaderLength(h) + Ssl2PayloadLength(h)
  {
    ShortBEIsNetworkOrder(buffer, offset);
    Ssl2LengthOfShort(buffer.data[offset..offset + SSL_RECORD_HEADER_LENGTH], ShortBE(buffer, offset));
  }

  /** The `ByteBuf` form returns the record length its five header bytes
      announce. */
  lemma EncryptedPacketLengthIsRecordLength(buffer: ByteBuf, offset: nat)
    requires offset + SSL_RECORD_HEADER_LENGTH <= buffer.data.Length
    ensures EncryptedPacketLength(buffer, offset) == RecordLength(buffer.data[offset..offset + SSL_RECORD_HEADER_LENGTH])
  {
    TlsPhaseIsTlsHeader(buffer, offset);
    Ssl2PhaseIsSsl2Length(buffer, offset);
  }

  /** The TLS phase of the `ByteBuffer` form accepts exactly the TLS headers. */
  lemma TlsPhaseNioIsTlsHeader(buffer: ByteBuffer)
    requires buffer.Valid() && buffer.Remaining() >= SSL_RECORD_HEADER_LENGTH
    ensures var h: Header := buffer.hb[buffer.position..buffer.position + SSL_RECORD_HEADER_LENGTH];
      TlsPhaseNio(buffer).tls == IsTlsHeader(h)
      && (IsTlsHeader(h) ==> TlsPhaseNio(buffer).packetLength == TlsFragmentLength(h) + SSL_RECORD_HEADER_LENGTH)
  {
    GmsslVersionIsOrderFree(buffer.hb[..], buffer.position + 1, buffer.order);
    UnsignedShortBENioIsNetworkOrder(buffer, buffer.position + 3);
  }

  /** The SSL 2.0 phase of the `ByteBuffer` form. */
  lemma Ssl2PhaseNioIsSsl2Length(buffer: ByteBuffer)
    requires buffer.Valid() && buffer.Remaining() >= SSL_RECORD_HEADER_LENGTH
    ensures var h: Header := buffer.hb[buffer.position..buffer.position + SSL_RECORD_HEADER_LENGTH];
      Ssl2PhaseNio(buffer)
      == if !IsSsl2Version(h) then NOT_ENCRYPTED
         else if Ssl2PayloadLength(h) == 0 then NOT_ENOUGH_DATA
         else Ssl2HeaderLength(h) + Ssl2PayloadLength(h)
  {
    var pos := buffer.position;
    var h: Header := buffer.hb[pos..pos + SSL_RECORD_HEADER_LENGTH];
    ShortBENioIsNetworkOrder(buffer, pos);
    Ssl2LengthOfShort(h, ShortBENio(buffer, pos));
    if h[0] >= 0x80 {
      assert UnsignedByte(buffer.Get(pos + 3)) == h[3];
    } else {
      assert UnsignedByte(buffer.Get(pos + 4)) == h[4];
    }
  }

  /** The `ByteBuffer` form returns the record length its five header bytes
      announce. */
  lemma EncryptedPacketLengthNioIsRecordLength(buffer: ByteBuffer)
    requires buffer.Valid() && buffer.Remaining() >= SSL_RECORD_HEADER_LENGTH
    ensures EncryptedPacketLengthNio(buffer)
         == RecordLength(buffer.hb[buffer.position..buffer.position + SSL_RECORD_HEADER_LENGTH])
  {
    TlsPhaseNioIsTlsHeader(buffer);
    Ssl2PhaseNioIsSsl2Length(buffer);
  }

  /** The result depends on the five header bytes only: not on the offset,
      and not on the buffer's byte order. */
  lemma EncryptedPacketLengthIgnoresByteOrder(a: ByteBuf, aOffset: nat, b: ByteBuf, bOffset: nat)
    requires aOffset + SSL_RECORD_HEADER_LENGTH <= a.data.Length
    requires bOffset + SSL_RECORD_HEADER_LENGTH <= b.data.Length
    requires a.data[aOffset..aOffset + SSL_RECORD_HEADER_LENGTH] == b.data[bOffset..bOffset + SSL_RECORD_HEADER_LENGTH]
    ensures EncryptedPacketLength(a, aOffset) == EncryptedPacketLength(b, bOffset)
  {
    EncryptedPacketLengthIsRecordLength(a, aOffset);
    EncryptedPacketLengthIsRecordLength(b, bOffset);
  }

  /** The `ByteBuffer` form and the `ByteBuf` form agree on the same bytes. */
  lemma NioAgreesWithByteBuf(nio: ByteBuffer, buffer: ByteBuf, offset: nat)
    requires nio.Valid() && nio.Remaining() >= SSL_RECORD_HEADER_LENGTH
    requires offset + SSL_RECORD_HEADER_LENGTH <= buffer.data.Length
    requires nio.hb[nio.position..nio.position + SSL_RECORD_HEADER_LENGTH]
          == buffer.data[offset..offset + SSL_RECORD_HEADER_LENGTH]
    ensures EncryptedPacketLengthNio(nio) == EncryptedPacketLength(buffer, offset)
  {
    EncryptedPacketLengthNioIsRecordLength(nio);
    EncryptedPacketLengthIsRecordLength(buffer, offset);
  }

  // ----- ByteBuffer[] -----

  /** `windows` lists the remaining bytes of each of the segments. */
  ghost predicate WindowsOf(segments: seq<ByteBuffer>, windows: seq<seq<Octet>>)
    reads set b | b in segments, set b | b in segments :: b.hb
  {
    |windows| == |segments|
    && forall k :: 0 <= k < |segments| ==> segments[k].Valid() && segments[k].Window() == windows[k]
  }

  /** Byte sequences one after the other. */
  function Concat(ws: seq<seq<Octet>>): seq<Octet>
  {
    if ws == [] then [] else ws[0] + Concat(ws[1..])
  }

  lemma {:induction false} ConcatAppend(front: seq<seq<Octet>>, back: seq<seq<Octet>>)
    ensures Concat(front + back) == Concat(front) + Concat(back)
  {
    if front != [] {
      assert (front + back)[1..] == front[1..] + back;
      ConcatAppend(front[1..], back);
    } else {
      assert front + back == back;
    }
  }

  /** Splitting the windows from `offset` at window `i`. */
  lemma ConcatAt(ws: seq<seq<Octet>>, offset: nat, i: nat)
    requires offset <= i < |ws|
    ensures Concat(ws[offset..]) == Concat(ws[offset..i]) + ws[i] + Concat(ws[i + 1..])
    ensures Concat(ws[offset..i + 1]) == Concat(ws[offset..i]) + ws[i]
  {
    assert ws[offset..] == ws[offset..i] + ws[i..];
    ConcatAppend(ws[offset..i], ws[i..]);
    assert ws[i..] == [ws[i]] + ws[i + 1..];
    ConcatAppend([ws[i]], ws[i + 1..]);
    assert ws[offset..i + 1] == ws[offset..i] + [ws[i]];
    ConcatAppend(ws[offset..i], [ws[i]]);
    assert Concat([ws[i]]) == ws[i] + Concat([]);
  }

  /** While fewer than `need` bytes have been copied from the windows
      `offset..i`, and the windows from `offset` hold `need` bytes, there
      is a window `i` left to copy from. */
  lemma WindowLeft(ws: seq<seq<Octet>>, offset: nat, i: nat, copied: nat, need: nat)
    requires offset <= i <= |ws|
    requires |Concat(ws[offset..])| >= need > copied
    requires copied == |Concat(ws[offset..i])|
    ensures i < |ws|
  {
    assert ws[offset..] == ws[offset..i] + ws[i..];
    ConcatAppend(ws[offset..i], ws[i..]);
  }

  /**
   * One pass of the copy loop, on values: `before` bytes (all of windows
   * `offset..k`, or `need` bytes) are held; the pass appends the first `n`
   * bytes of window `k`, `n` being what fits. Afterwards the held bytes are
   * still a prefix of the concatenation, covering windows `offset..k + 1`
   * unless `need` bytes are held.
   */
  lemma CopyStep(ws: seq<seq<Octet>>, offset: nat, k: nat, need: nat, before: nat, n: nat, held: seq<Octet>)
    requires offset <= k < |ws|
    requires |Concat(ws[offset..])| >= need > before == |Concat(ws[offset..k])|
    requires n == if |ws[k]| > need - before then need - before else |ws[k]|
    requires held == Concat(ws[offset..])[..before] + ws[k][..n]
    ensures before + n <= need && before + n <= |Concat(ws[offset..k + 1])|
    ensures before + n < need ==> before + n == |Concat(ws[offset..k + 1])|
    ensures held == Concat(ws[offset..])[..before + n]
  {
    ConcatAt(ws, offset, k);
    var all := Concat(ws[offset..]);
    assert all[before..before + n] == ws[k][..n];
    assert all[..before + n] == all[..before] + all[before..before + n];
  }

  /**
   * One pass of the copy loop: a duplicate of `segment`, its limit lowered
   * so that it holds no more than `tmp` has room for, is put into `tmp`.
   * The segment itself is left as it was.
   */
  method PutDuplicate(tmp: ByteBuffer, segment: ByteBuffer)
    requires tmp.Valid() && segment.Valid() && tmp != segment && tmp.hb != segment.hb
    modifies tmp, tmp.hb
    ensures tmp.Valid() && tmp.limit == old(tmp.limit)
    ensures var n := if old(segment.Remaining()) > old(tmp.Remaining()) then old(tmp.Remaining())
                     else old(segment.Remaining());
            tmp.position == old(tmp.position) + n
            && tmp.hb[..tmp.position] == old(tmp.hb[..tmp.position]) + old(segment.Window())[..n]
    ensures tmp.order == old(tmp.order)
    ensures tmp.hb[tmp.position..] == old(tmp.hb[..])[tmp.position..]
  {
    var buffer := segment.Duplicate();
    if buffer.Remaining() > tmp.Remaining() {
      buffer.SetLimit(buffer.position + tmp.Remaining());
    }
    ghost var before, piece := tmp.hb[..tmp.position], buffer.Window();
    tmp.Put(buffer);
    assert tmp.hb[..tmp.position] == before + piece;
  }

  /**
   * The copy loop of the segmented form: starting at segment `offset`,
   * put duplicates of consecutive segments into the empty five-byte
   * scratch buffer `tmp` until it is full. Afterwards `tmp` holds the
   * first five bytes the segments hold together.
   */
  method CopyHeader(buffers: seq<ByteBuffer>, offset: nat, tmp: ByteBuffer, ghost windows: seq<seq<Octet>>)
    requires offset < |buffers| && WindowsOf(buffers, windows)
    requires forall b :: b in buffers ==> b != tmp && b.hb != tmp.hb
    requires |Concat(windows[offset..])| >= SSL_RECORD_HEADER_LENGTH
    requires tmp.Valid() && tmp.position == 0 && tmp.limit == tmp.hb.Length == SSL_RECORD_HEADER_LENGTH
    modifies tmp, tmp.hb
    ensures tmp.Valid() && tmp.position == tmp.limit == SSL_RECORD_HEADER_LENGTH
    ensures tmp.hb[..] == Concat(windows[offset..])[..SSL_RECORD_HEADER_LENGTH]
    ensures tmp.order == old(tmp.order)
  {
    ghost var all := Concat(windows[offset..]);
    var i := offset;
    assert windows[offset..i] == [];
    // The do-while body runs at least once: the empty scratch buffer has
    // five bytes remaining.
    while tmp.HasRemaining()
      invariant offset <= i <= |buffers|
      invariant tmp.Valid() && tmp.limit == SSL_RECORD_HEADER_LENGTH && tmp.order == old(tmp.order)
      invariant tmp.position <= |Concat(windows[offset..i])|
      invariant tmp.position < SSL_RECORD_HEADER_LENGTH ==> tmp.position == |Concat(windows[offset..i])|
      invariant tmp.hb[..tmp.position] == all[..tmp.position]
      decreases |buffers| - i
    {
      WindowLeft(windows, offset, i, tmp.position, SSL_RECORD_HEADER_LENGTH);
      ghost var before := tmp.position;
      PutDuplicate(tmp, buffers[i]);
      CopyStep(windows, offset, i, SSL_RECORD_HEADER_LENGTH, before, tmp.position - before, tmp.hb[..tmp.position]);
      i := i + 1;
    }
    assert tmp.hb[..] == tmp.hb[..tmp.position];
  }

  /**
   * `getEncryptedPacketLength(ByteBuffer[], offset)`: the header may span
   * several segments. When the first segment holds five bytes it is parsed
   * directly; otherwise exactly five bytes are copied, segment by segment
   * through duplicates, into a fresh big-endian scratch buffer that is then
   * parsed. The callers' segments are not modified (no `modifies` clause).
   * `windows` names the bytes each segment holds, for the specification;
   * the caller guarantees five bytes across the segments from `offset` on.
   */
  method EncryptedPacketLengthOfSegments(buffers: seq<ByteBuffer>, offset: nat, ghost windows: seq<seq<Octet>>)
    returns (r: int)
    requires offset < |buffers| && WindowsOf(buffers, windows)
    requires |Concat(windows[offset..])| >= SSL_RECORD_HEADER_LENGTH
    ensures r == RecordLength(Concat(windows[offset..])[..SSL_RECORD_HEADER_LENGTH])
  {
    ghost var header := Concat(windows[offset..])[..SSL_RECORD_HEADER_LENGTH];
    var buffer := buffers[offset];

    // Everything needed is in one segment: the fast path.
    if buffer.Remaining() >= SSL_RECORD_HEADER_LENGTH {
      r := EncryptedPacketLengthNio(buffer);
      assert r == RecordLength(header) by {
        ConcatAt(windows, offset, offset);
        assert windows[offset..offset] == [];
        EncryptedPacketLengthNioIsRecordLength(buffer);
        assert header == buffer.hb[buffer.position..buffer.position + SSL_RECORD_HEADER_LENGTH];
      }
      return;
    }

    // Copy five bytes into a scratch buffer, then parse them from there.
    var tmp := new ByteBuffer.Allocate(SSL_RECORD_HEADER_LENGTH);
    CopyHeader(buffers, offset, tmp, windows);
    tmp.Flip();
    r := EncryptedPacketLengthNio(tmp);
    assert r == RecordLength(header) by {
      EncryptedPacketLengthNioIsRecordLength(tmp);
      assert tmp.hb[tmp.position..tmp.position + SSL_RECORD_HEADER_LENGTH] == tmp.hb[..];
    }
  }
}
