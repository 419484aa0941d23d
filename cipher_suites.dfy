/**
 * The cipher-suite list helpers of `SslUtils`: membership in an array,
 * appending the supported names to an enabled list, falling back to a
 * filtered cipher list when the default one is empty, and recognising
 * the TLSv1.3 cipher suites (RFC 8446, Appendix B.4).
 */
module CipherSuites {
  import opened JavaStrings


  // ----- filtering -----

  /** The elements of `s` that `keep` accepts, in their order. */
  function Filter<T>(s: seq<T>, keep: T -> bool): (r: seq<T>)
    ensures |r| <= |s|
  {
    if s == [] then [] else Filter(s[..|s| - 1], keep) + (if keep(s[|s| - 1]) then [s[|s| - 1]] else [])
  }

  /** Filtering keeps exactly the accepted elements. */
  lemma {:induction false} FilterMembership<T>(s: seq<T>, keep: T -> bool, x: T)
    ensures x in Filter(s, keep) <==> x in s && keep(x)
  {
    if s != [] {
      var front := s[..|s| - 1];
      FilterMembership(front, keep, x);
      assert s == front + [s[|s| - 1]];
    }
  }

  /** Filtering distributes over concatenation, so it keeps the order. */
  lemma {:induction false} FilterAppend<T>(a: seq<T>, b: seq<T>, keep: T -> bool)
    ensures Filter(a + b, keep) == Filter(a, keep) + Filter(b, keep)
    decreases |b|
  {
    if b != [] {
      var front := b[..|b| - 1];
      assert (a + b)[..|a + b| - 1] == a + front;
      FilterAppend(a, front, keep);
    } else {
      assert a + b == a;
    }
  }

  // ----- arrayContains -----

  /** `arrayContains(array, value)`: a linear scan that stops at the first
      equal element. */
  method ArrayContains(elements: seq<string>, value: string) returns (found: bool)
    ensures found <==> value in elements
  {
    for i := 0 to |elements|
      invariant value !in elements[..i]
    {
      if value == elements[i] {
        return true;
      }
    }
    return false;
  }

  // ----- lists -----

  /** A `java.util.List<String>` that the helpers append to. */
  class StringList {
    var items: seq<string>

    constructor (items: seq<string>)
      ensures this.items == items
    {
      this.items := items;
    }

    /** `isEmpty()`. */
    function IsEmpty(): (b: bool)
      reads this
      ensures b <==> |items| == 0
    {
      items == []
    }

    /** `add(name)`: appends at the end. */
    method Add(name: string)
      modifies this
      ensures items == old(items) + [name]
    {
      items := items + [name];
    }
  }

  /** The names of `names` that are in `supported`, in the order given. */
  function Supported(names: seq<string>, supported: set<string>): seq<string>
  {
    Filter(names, n => n in supported)
  }

  /** `addIfSupported(supported, enabled, names...)`: appends, in order,
      each name that is in `supported`; what `enabled` held stays in front. */
  method AddIfSupported(supported: set<string>, enabled: StringList, names: seq<string>)
    modifies enabled
    ensures enabled.items == old(enabled.items) + Supported(names, supported)
  {
    for i := 0 to |names|
      invariant enabled.items == old(enabled.items) + Supported(names[..i], supported)
    {
      assert names[..i + 1] == names[..i] + [names[i]];
      FilterAppend(names[..i], [names[i]], n => n in supported);
      if names[i] in supported {
        enabled.Add(names[i]);
      }
    }
    assert names[..|names|] == names;
  }

  /** A name ends up in the list exactly when it was offered and is supported. */
  lemma SupportedMembership(names: seq<string>, supported: set<string>, n: string)
    ensures n in Supported(names, supported) <==> n in names && n in supported
  {
    FilterMembership(names, n => n in supported, n);
  }

  /** A fallback cipher is used unless it is an SSL-prefixed name or an RC4
      suite. */
  predicate IsUsableFallback(cipher: string)
  {
    !StartsWith(cipher, "SSL_") && !Contains(cipher, "_RC4_")
  }

  /** The fallback ciphers that may be used, in the order given. */
  function UsableFallback(fallbackCiphers: seq<string>): seq<string>
  {
    Filter(fallbackCiphers, IsUsableFallback)
  }

  /** `useFallbackCiphersIfDefaultIsEmpty(defaultCiphers, fallbackCiphers)`:
      a non-empty list is left alone; an empty one receives the usable
      fallback ciphers in order. */
  method UseFallbackCiphersIfDefaultIsEmpty(defaultCiphers: StringList, fallbackCiphers: seq<string>)
    modifies defaultCiphers
    ensures old(defaultCiphers.items) != [] ==> defaultCiphers.items == old(defaultCiphers.items)
    ensures old(defaultCiphers.items) == [] ==> defaultCiphers.items == UsableFallback(fallbackCiphers)
  {
    if defaultCiphers.IsEmpty() {
      for i := 0 to |fallbackCiphers|
        invariant defaultCiphers.items == UsableFallback(fallbackCiphers[..i])
      {
        var cipher := fallbackCiphers[i];
        assert fallbackCiphers[..i + 1] == fallbackCiphers[..i] + [cipher];
        FilterAppend(fallbackCiphers[..i], [cipher], IsUsableFallback);
        if StartsWith(cipher, "SSL_") || Contains(cipher, "_RC4_") {
          continue;
        }
        defaultCiphers.Add(cipher);
      }
      assert fallbackCiphers[..|fallbackCiphers|] == fallbackCiphers;
    }
  }

  /** A fallback cipher is adopted exactly when it is offered and usable. */
  lemma UsableFallbackMembership(fallbackCiphers: seq<string>, cipher: string)
    ensures cipher in UsableFallback(fallbackCiphers)
        <==> cipher in fallbackCiphers && !StartsWith(cipher, "SSL_") && !Contains(cipher, "_RC4_")
  {
    FilterMembership(fallbackCiphers, IsUsableFallback, cipher);
  }

  // ----- TLSv1.3 -----

  /** `TLSV13_CIPHERS`, in its insertion order. */
  const TLSV13_CIPHERS: seq<string> := [
    "TLS_AES_256_GCM_SHA384", "TLS_CHACHA20_POLY1305_SHA256",
    "TLS_AES_128_GCM_SHA256", "TLS_AES_128_CCM_8_SHA256",
    "TLS_AES_128_CCM_SHA256"]

  /** `TLSV13_CIPHER_SUITES`. */
  const TLSV13_CIPHER_SUITES: seq<string> := ["TLS_AES_128_GCM_SHA256", "TLS_AES_256_GCM_SHA384"]

  /** `INVALID_CIPHER`. */
  const INVALID_CIPHER: string := "SSL_NULL_WITH_NULL_NULL"

  /** `isTLSv13Cipher(cipher)`: membership in `TLSV13_CIPHERS`. */
  predicate IsTLSv13Cipher(cipher: string)
  {
    cipher in TLSV13_CIPHERS
  }

  /** The TLSv1.3 suites are five distinct names, each in the `TLS_`
      namespace of RFC 8446; the invalid cipher is not one of them. */
  lemma TlsV13CipherNames()
    ensures |TLSV13_CIPHERS| == 5
    ensures forall i, j :: 0 <= i < j < |TLSV13_CIPHERS| ==> TLSV13_CIPHERS[i] != TLSV13_CIPHERS[j]
    ensures forall c :: IsTLSv13Cipher(c) ==> StartsWith(c, "TLS_")
    ensures !IsTLSv13Cipher(INVALID_CIPHER)
  {
  }

  /** Every suite of `TLSV13_CIPHER_SUITES` is a TLSv1.3 cipher. */
  lemma TlsV13CipherSuitesAreTlsV13()
    ensures forall c :: c in TLSV13_CIPHER_SUITES ==> IsTLSv13Cipher(c)
  {
  }

  /** The fallback filter never drops a TLSv1.3 cipher. */
  lemma TlsV13CiphersSurviveFallback(fallbackCiphers: seq<string>, cipher: string)
    requires IsTLSv13Cipher(cipher) && cipher in fallbackCiphers
    ensures cipher in UsableFallback(fallbackCiphers)
  {
    TlsV13CipherNames();
    assert cipher[0] == 'T' && "SSL_"[0] == 'S';
    assert 'R' in "_RC4_";
    assert 'R' !in cipher by {
      assert cipher == TLSV13_CIPHERS[0] || cipher == TLSV13_CIPHERS[1] || cipher == TLSV13_CIPHERS[2]
          || cipher == TLSV13_CIPHERS[3] || cipher == TLSV13_CIPHERS[4];
    }
    MissingCharacter(cipher, "_RC4_", 'R');
    UsableFallbackMembership(fallbackCiphers, cipher);
  }

  /** The fallback filter always drops `INVALID_CIPHER`. */
  lemma InvalidCipherNeverFallsBack(fallbackCiphers: seq<string>)
    ensures INVALID_CIPHER !in UsableFallback(fallbackCiphers)
  {
    assert INVALID_CIPHER[..4] == "SSL_";
    UsableFallbackMembership(fallbackCiphers, INVALID_CIPHER);
  }
}
