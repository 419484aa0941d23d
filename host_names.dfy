/**
 * `SslUtils.isValidHostNameForSNI`: whether a host name may be sent in the
 * server_name extension (section 3 of RFC 6066), which wants a fully
 * qualified DNS name and no IP literal. The IPv4 and IPv6 address
 * validators are parameters of the model.
 */
module HostNames {
  import opened JavaStrings

  /** A Java reference that may be `null`. */
  datatype Option<T> = None | Some(value: T)

  /** `isValidHostNameForSNI(hostname)`, the IP validators given as
      `isIpV4` and `isIpV6`. */
  function IsValidHostNameForSNI(hostname: Option<string>, isIpV4: string -> bool, isIpV6: string -> bool): bool
  {
    hostname.Some? &&
    IndexOf(hostname.value, '.') > 0 &&
    !EndsWith(hostname.value, ".") && !StartsWith(hostname.value, "/") &&
    !isIpV4(hostname.value) &&
    !isIpV6(hostname.value)
  }

  /** The check spelled out: a non-null name with a dot that is neither its
      first nor its last character, not starting with '/', and not an IP
      address. */
  lemma ValidHostNameCharacterization(hostname: Option<string>, isIpV4: string -> bool, isIpV6: string -> bool)
    ensures IsValidHostNameForSNI(hostname, isIpV4, isIpV6) <==>
      hostname.Some? && var h := hostname.value;
      '.' in h && h[0] != '.' && h[|h| - 1] != '.' && h[0] != '/' && !isIpV4(h) && !isIpV6(h)
  {
    if hostname.Some? && '.' in hostname.value {
      var h := hostname.value;
      var i := IndexOf(h, '.');
      assert i == 0 <==> h[0] == '.';
      assert h[|h| - 1..] == [h[|h| - 1]] && h[..1] == [h[0]];
    }
  }

  /** A name that passes has a non-empty label before some dot and a
      non-empty remainder after it: a host name and a domain part. */
  lemma ValidHostNameHasHostAndDomain(hostname: Option<string>, isIpV4: string -> bool, isIpV6: string -> bool)
    requires IsValidHostNameForSNI(hostname, isIpV4, isIpV6)
    ensures exists i :: 0 < i < |hostname.value| - 1 && hostname.value[i] == '.'
  {
    var h := hostname.value;
    var i := IndexOf(h, '.');
    assert h[|h| - 1..] == [h[|h| - 1]];
    assert 0 < i < |hostname.value| - 1 && hostname.value[i] == '.';
  }
}
