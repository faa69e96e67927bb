/**
 * How a voter and the address a vote came from are turned into the opaque
 * keys that the ledger stores. SHA-256 is not modelled: it is the parameter
 * `sha`, an arbitrary function from the payload string to its hex digest.
 */
module Identity {
  import opened Wrappers
  import opened Text

  /** The string hashed for a fingerprint: `salt|fingerprint`. */
  function FingerprintPayload(salt: string, fingerprint: string): (p: string)
    ensures |p| == |salt| + 1 + |fingerprint|
    ensures p[..|salt|] == salt && p[|salt|] == '|' && p[|salt| + 1..] == fingerprint
  {
    salt + "|" + fingerprint
  }

  /** The string hashed for a client address: `salt|ip|address`. */
  function IpPayload(salt: string, ip: string): (p: string)
    ensures |p| == |salt| + 4 + |ip|
    ensures p[..|salt|] == salt && p[|salt|..|salt| + 4] == "|ip|" && p[|salt| + 4..] == ip
  {
    salt + "|ip|" + ip
  }

  /**
   * `hash_fingerprint`: the digest of the fingerprint payload. A fingerprint
   * that starts with `ip|` is hashed as the address payload of the rest.
   */
  function HashFingerprint(fingerprint: string, salt: string, sha: string -> string): (h: string)
    ensures |fingerprint| >= 3 && fingerprint[..3] == "ip|" ==> h == sha(IpPayload(salt, fingerprint[3..]))
  {
    assert |fingerprint| >= 3 && fingerprint[..3] == "ip|" ==>
      FingerprintPayload(salt, fingerprint) == IpPayload(salt, fingerprint[3..]);
    sha(FingerprintPayload(salt, fingerprint))
  }

  /** `hash_ip`: the digest of the address payload, which is the fingerprint payload of `ip|` and the address. */
  function HashIp(ip: string, salt: string, sha: string -> string): (h: string)
    ensures h == sha(FingerprintPayload(salt, "ip|" + ip))
  {
    assert FingerprintPayload(salt, "ip|" + ip) == IpPayload(salt, ip);
    sha(IpPayload(salt, ip))
  }

  /** The fingerprint is recovered from its payload by dropping `salt|`. */
  lemma FingerprintPayloadRoundTrip(salt: string, fingerprint: string)
    ensures FingerprintPayload(salt, fingerprint)[..|salt| + 1] == salt + "|"
    ensures FingerprintPayload(salt, fingerprint)[|salt| + 1..] == fingerprint
  {
  }

  /**
   * Under one salt, distinct fingerprints give distinct payloads, so any two
   * fingerprints with different hashes are different fingerprints and a
   * collision can only come from the hash function itself.
   */
  lemma FingerprintPayloadInjective(salt: string, a: string, b: string)
    requires FingerprintPayload(salt, a) == FingerprintPayload(salt, b)
    ensures a == b
  {
    FingerprintPayloadRoundTrip(salt, a);
    FingerprintPayloadRoundTrip(salt, b);
  }

  /** For one and the same input string the two payloads always differ. */
  lemma PayloadsDifferOnEqualInput(salt: string, x: string)
    ensures FingerprintPayload(salt, x) != IpPayload(salt, x)
  {
  }

  /**
   * The two namespaces are not disjoint: the fingerprint `ip|x` is hashed
   * exactly as the address `x`, whatever the hash function is.
   */
  lemma CrossNamespaceCollision(salt: string, x: string, sha: string -> string)
    ensures HashFingerprint("ip|" + x, salt, sha) == HashIp(x, salt, sha)
  {
    assert FingerprintPayload(salt, "ip|" + x) == IpPayload(salt, x);
  }

  /**
   * The client address: the first comma-separated element of the
   * `X-Forwarded-For` header, stripped, when the header is present and not
   * empty; otherwise the remote address, or the empty string when there is
   * none. An empty first element yields the empty string; the remote address
   * is not consulted then.
   */
  function ClientIp(forwardedFor: Option<string>, remoteAddr: Option<string>): (ip: string)
    ensures OrEmpty(forwardedFor) != "" ==> ',' !in ip
    ensures OrEmpty(forwardedFor) != "" ==> ip == Strip(FirstField(OrEmpty(forwardedFor), ','))
    ensures OrEmpty(forwardedFor) == "" ==> ip == OrEmpty(remoteAddr)
  {
    var header := OrEmpty(forwardedFor);
    if header != "" then
      var first := FirstField(header, ',');
      var ip := Strip(first);
      assert ',' !in ip by {
        var i, j :| 0 <= i <= j <= |first| && ip == first[i..j];
        assert forall k :: 0 <= k < |ip| ==> ip[k] == first[i + k];
      }
      ip
    else
      OrEmpty(remoteAddr)
  }

  /**
   * Only the first hop of the header counts: with `a` free of commas, the
   * header `a,rest` yields `a` stripped, whatever follows and whatever the
   * remote address is.
   */
  lemma ClientIpFirstHop(a: string, rest: string, remoteAddr: Option<string>)
    requires ',' !in a
    ensures ClientIp(Some(a + "," + rest), remoteAddr) == Strip(a)
  {
    FirstFieldBeforeSeparator(a, ',', rest);
  }

  /** A header with a single address yields that address stripped. */
  lemma ClientIpSingleHop(header: string, remoteAddr: Option<string>)
    requires header != "" && ',' !in header
    ensures ClientIp(Some(header), remoteAddr) == Strip(header)
  {
    FirstFieldWhole(header, ',');
  }

  /**
   * A header whose first element is blank gives the empty address; the
   * remote address is not consulted.
   */
  lemma BlankFirstHop(blank: string, rest: string, remoteAddr: Option<string>)
    requires AllSpace(blank) && ',' !in blank
    ensures ClientIp(Some(blank + "," + rest), remoteAddr) == ""
  {
    ClientIpFirstHop(blank, rest, remoteAddr);
  }
}
