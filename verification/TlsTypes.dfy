/** The TLS facts the monitor keeps for a connection. */
module TlsTypes {
  import opened Bytes

  datatype TlsVersion = Tls10 | Tls11 | Tls12 | Tls13

  datatype TlsInfo = TlsInfo(version: Option<TlsVersion>, sni: Option<Octets>, alpn: seq<Octets>,
                             cipherSuite: Option<nat>)

  const NO_TLS := TlsInfo(None, None, [], None)

  /** The bytes of "[PARTIAL]". */
  const PARTIAL_MARKER: Octets := [0x5b, 0x50, 0x41, 0x52, 0x54, 0x49, 0x41, 0x4c, 0x5d]

  /** `is_partial_sni`. */
  predicate IsPartialSni(s: Octets) {
    |s| >= |PARTIAL_MARKER| && s[|s| - |PARTIAL_MARKER|..] == PARTIAL_MARKER
  }

  function MarkPartial(s: Octets): Octets {
    s + PARTIAL_MARKER
  }

  /** A name counts as partial exactly when it could be the marked part of one. */
  lemma PartialIsMarked(s: Octets)
    ensures IsPartialSni(s) <==> exists part: Octets :: s == MarkPartial(part)
  {
    if IsPartialSni(s) {
      assert s == MarkPartial(s[..|s| - |PARTIAL_MARKER|]);
    }
  }
}
