/** The resumable state of a TLS 1.2 session (Go's `sessionState`) and its
    hand-rolled big-endian encoding:

      vers(2) cipherSuite(2) len(2) masterSecret numCerts(2) {len(4) certificate}*
 */
module Session {
  import opened Bytes

  datatype SessionState = SessionState(
    vers: uint16,
    cipherSuite: uint16,
    masterSecret: seq<uint8>,
    /** The peer's certificate chain, each certificate an opaque blob. */
    certificates: seq<seq<uint8>>,
    /** Set by the caller when the ticket came from an older key; it is not
        part of the encoding and not compared by Equal. */
    usedOldKey: bool)

  /** Field-wise comparison of everything the encoding carries. */
  predicate Equal(s: SessionState, t: SessionState)
    ensures Equal(s, t) <==> s.(usedOldKey := false) == t.(usedOldKey := false)
  {
    && s.vers == t.vers
    && s.cipherSuite == t.cipherSuite
    && s.masterSecret == t.masterSecret
    && |s.certificates| == |t.certificates|
    && forall i :: 0 <= i < |s.certificates| ==> s.certificates[i] == t.certificates[i]
  }

  /** Every length fits the field that carries it: 16 bits for the master
      secret and the certificate count, 32 bits for each certificate. */
  predicate WellSized(s: SessionState)
  {
    && |s.masterSecret| < 0x1_0000
    && |s.certificates| < 0x1_0000
    && CertificatesFit(s.certificates)
  }

  predicate CertificatesFit(certs: seq<seq<uint8>>)
  {
    forall c <- certs :: |c| < 0x1_0000_0000
  }

  /** The bytes the certificates occupy: a 4-byte length and the blob each. */
  function CertificatesSize(certs: seq<seq<uint8>>): (r: nat)
  {
    if |certs| == 0 then 0 else 4 + |certs[0]| + CertificatesSize(certs[1..])
  }

  /** The certificate list after its count, one length-prefixed blob each. */
  function MarshalCertificates(certs: seq<seq<uint8>>): (r: seq<uint8>)
    ensures |r| == CertificatesSize(certs)
  {
    if |certs| == 0 then [] else Prefixed32(certs[0]) + MarshalCertificates(certs[1..])
  }

  /** The certificate count, cut to 16 bits, and the certificates. */
  function CertificateList(certs: seq<seq<uint8>>): (r: seq<uint8>)
    ensures |r| == 2 + CertificatesSize(certs)
  {
    BE16(|certs| % 0x1_0000) + MarshalCertificates(certs)
  }

  /** The encoding as `marshal` writes it: a length or count that does not
      fit its field keeps only its low-order bytes. */
  function Marshal(s: SessionState): (r: seq<uint8>)
    ensures |r| == 8 + |s.masterSecret| + CertificatesSize(s.certificates)
  {
    BE16(s.vers) + (BE16(s.cipherSuite) + (Prefixed16(s.masterSecret) + CertificateList(s.certificates)))
  }

  /** An encoding followed by more bytes, regrouped field by field. */
  lemma MarshalAppend(s: SessionState, e: seq<uint8>)
    ensures Marshal(s) + e
      == BE16(s.vers) + (BE16(s.cipherSuite) + (Prefixed16(s.masterSecret) + (CertificateList(s.certificates) + e)))
  {
    var p, c := Prefixed16(s.masterSecret), CertificateList(s.certificates);
    AppendAssoc(p, c, e);
    AppendAssoc(BE16(s.cipherSuite), p + c, e);
    AppendAssoc(BE16(s.vers), BE16(s.cipherSuite) + (p + c), e);
  }

  /** What a reader finds where `marshal` writes each field: version, suite
      and secret length big-endian, the secret, the certificate count (all
      cut to 16 bits), then the certificates. */
  lemma MarshalLayout(s: SessionState)
    ensures var r, l := Marshal(s), |s.masterSecret|;
      && Uint16At(r, 0) == s.vers && Uint16At(r, 2) == s.cipherSuite
      && Uint16At(r, 4) == l % 0x1_0000
      && r[6..6 + l] == s.masterSecret
      && Uint16At(r, 6 + l) == |s.certificates| % 0x1_0000
      && r[8 + l..] == MarshalCertificates(s.certificates)
  {
    var r, l := Marshal(s), |s.masterSecret|;
    var c := CertificateList(s.certificates);
    MarshalFront(s);
    var t := r[6..];
    assert t[..l] == s.masterSecret && t[l..] == c;
    assert r[6..6 + l] == s.masterSecret && r[6 + l..] == c;
    ReadBE16(|s.certificates| % 0x1_0000, MarshalCertificates(s.certificates));
    ReadAtOffset(r, 6 + l);
  }

  /** The same for the fields before the certificate count. */
  lemma MarshalFront(s: SessionState)
    ensures var r := Marshal(s);
      && Uint16At(r, 0) == s.vers && Uint16At(r, 2) == s.cipherSuite
      && Uint16At(r, 4) == |s.masterSecret| % 0x1_0000
      && r[6..] == s.masterSecret + CertificateList(s.certificates)
  {
    var r, n := Marshal(s), |s.masterSecret| % 0x1_0000;
    var c := CertificateList(s.certificates);
    var r4 := Prefixed16(s.masterSecret) + c;
    var r2 := BE16(s.cipherSuite) + r4;
    ReadBE16(s.vers, r2);
    ReadBE16(s.cipherSuite, r4);
    AppendAssoc(BE16(n), s.masterSecret, c);
    ReadBE16(n, s.masterSecret + c);
    assert r[2..] == r2 && r[4..] == r4;
    ReadAtOffset(r, 2);
    ReadAtOffset(r, 4);
  }

  /** One more certificate at the front of the list. */
  lemma MarshalCons(cert: seq<uint8>, certs: seq<seq<uint8>>, tail: seq<uint8>)
    ensures MarshalCertificates([cert] + certs) + tail == Prefixed32(cert) + (MarshalCertificates(certs) + tail)
  {
    assert ([cert] + certs)[1..] == certs;
    AppendAssoc(Prefixed32(cert), MarshalCertificates(certs), tail);
  }

  /** The loop of `unmarshal`: reads n length-prefixed certificates from the
      front of data and returns them with the bytes left over. The length is
      read unsigned, with no separate `certLen < 0` test: with a 64-bit Go int
      that test never fires, and with a 32-bit int it fires only for lengths
      of 2^31 or more, which the bounds check refuses anyway, so one unsigned
      check gives the same answer. */
  function UnmarshalCertificates(data: seq<uint8>, n: nat): (r: Option<(seq<seq<uint8>>, seq<uint8>)>)
    ensures r.Some? ==> |r.value.0| == n
    ensures r.Some? ==> CertificatesFit(r.value.0) && MarshalCertificates(r.value.0) + r.value.1 == data
    ensures n > 0 && |data| < 4 ==> r.None?
    ensures n > 0 && |data| >= 4 && |data| - 4 < Uint32At(data, 0) ==> r.None?
  {
    if n == 0 then Some(([], data))
    else if |data| < 4 then None
    else
      var certLen := Uint32At(data, 0);
      var rest := data[4..];
      if |rest| < certLen then None
      else
        match UnmarshalCertificates(rest[certLen..], n - 1)
        case None => None
        case Some((certs, tail)) =>
          var cert := rest[..certLen];
          SplitPrefixed32(data);
          MarshalCons(cert, certs, tail);
          Some(([cert] + certs, tail))
  }

  /** `unmarshal`: decodes a whole input or fails; the decoded state has
      `usedOldKey` unset, as Go leaves it for the caller to fill in. */
  function Unmarshal(data: seq<uint8>): (r: Option<SessionState>)
    ensures |data| < 8 ==> r.None?
    ensures |data| >= 8 && |data| < 8 + Uint16At(data, 4) ==> r.None?
    ensures r.Some? ==> WellSized(r.value) && !r.value.usedOldKey && Marshal(r.value) == data
  {
    if |data| < 8 then None
    else
      var vers := Uint16At(data, 0);
      var cipherSuite := Uint16At(data, 2);
      var masterSecretLen := Uint16At(data, 4);
      var rest := data[6..];
      if |rest| < masterSecretLen then None
      else
        var masterSecret := rest[..masterSecretLen];
        var rest := rest[masterSecretLen..];
        if |rest| < 2 then None
        else
          var numCerts := Uint16At(rest, 0);
          match UnmarshalCertificates(rest[2..], numCerts)
          case None => None
          case Some((certificates, tail)) =>
            if |tail| != 0 then None
            else
              var s := SessionState(vers, cipherSuite, masterSecret, certificates, false);
              MarshalOfDecodedFields(data, rest, s);
              Some(s)
  }

  /** The step of Unmarshal's contract that reassembles the input from the
      fields it decoded; rest is the input after the master secret. */
  lemma MarshalOfDecodedFields(data: seq<uint8>, rest: seq<uint8>, s: SessionState)
    requires |data| >= 8
    requires s.vers == Uint16At(data, 0) && s.cipherSuite == Uint16At(data, 2)
    requires |s.masterSecret| == Uint16At(data, 4) && 6 + |s.masterSecret| <= |data|
    requires s.masterSecret == data[6..][..|s.masterSecret|]
    requires rest == data[6..][|s.masterSecret|..] && |rest| >= 2
    requires |s.certificates| == Uint16At(rest, 0) && CertificatesFit(s.certificates)
    requires MarshalCertificates(s.certificates) == rest[2..]
    ensures WellSized(s) && Marshal(s) == data
  {
    assert |s.masterSecret| < 0x1_0000 && |s.certificates| < 0x1_0000;
    FrontOfDecodedFields(data, s);
    SplitBE16(rest);
    assert rest == CertificateList(s.certificates);
    assert data == BE16(s.vers) + (BE16(s.cipherSuite) + (Prefixed16(s.masterSecret) + rest));
  }

  /** The bytes before the certificate list, reassembled. */
  lemma FrontOfDecodedFields(data: seq<uint8>, s: SessionState)
    requires |data| >= 6
    requires s.vers == Uint16At(data, 0) && s.cipherSuite == Uint16At(data, 2)
    requires |s.masterSecret| == Uint16At(data, 4) && 6 + |s.masterSecret| <= |data|
    requires s.masterSecret == data[6..][..|s.masterSecret|]
    ensures data == BE16(s.vers) + (BE16(s.cipherSuite)
      + (Prefixed16(s.masterSecret) + data[6..][|s.masterSecret|..]))
  {
    var l := |s.masterSecret|;
    var d2, d4 := data[2..], data[4..];
    ReadAtOffset(data, 2);
    ReadAtOffset(data, 4);
    SplitBE16(data);
    SplitBE16(d2);
    assert d2[2..] == d4;
    SplitPrefixed16(d4);
    assert d4[2..2 + l] == s.masterSecret && d4[2 + l..] == data[6..][l..];
  }

  lemma {:induction false} UnmarshalMarshalCertificates(certs: seq<seq<uint8>>, tail: seq<uint8>)
    requires CertificatesFit(certs)
    ensures UnmarshalCertificates(MarshalCertificates(certs) + tail, |certs|) == Some((certs, tail))
  {
    if |certs| > 0 {
      var c, more := certs[0], certs[1..];
      var rest := MarshalCertificates(more) + tail;
      var d := MarshalCertificates(certs) + tail;
      AppendAssoc(Prefixed32(c), MarshalCertificates(more), tail);
      assert d == Prefixed32(c) + rest;
      ReadPrefixed32(c, rest);
      assert Uint32At(d, 0) == |c|;
      assert d[4..][..|c|] == c;
      assert d[4..][|c|..] == rest;
      UnmarshalMarshalCertificates(more, tail);
      assert UnmarshalCertificates(rest, |certs| - 1) == Some((more, tail));
      assert [c] + more == certs;
    } else {
      assert MarshalCertificates(certs) + tail == tail;
    }
  }

  /** Round trip: a state whose lengths fit their fields decodes from its
      encoding to a state Equal to it. */
  lemma RoundTrip(s: SessionState)
    requires WellSized(s)
    ensures Unmarshal(Marshal(s)) == Some(s.(usedOldKey := false))
    ensures Equal(Unmarshal(Marshal(s)).value, s)
  {
    var data, l, n := Marshal(s), |s.masterSecret|, |s.certificates|;
    assert l % 0x1_0000 == l && n % 0x1_0000 == n;
    var c := CertificateList(s.certificates);
    MarshalFront(s);
    var rest := data[6..];
    assert rest[..l] == s.masterSecret && rest[l..] == c;
    ReadBE16(n, MarshalCertificates(s.certificates));
    assert Uint16At(c, 0) == n;
    assert c[2..] == MarshalCertificates(s.certificates) + [];
    UnmarshalMarshalCertificates(s.certificates, []);
    assert Unmarshal(data) == Some(SessionState(s.vers, s.cipherSuite, s.masterSecret, s.certificates, false));
  }

  /** Unmarshal accepts exactly the encodings of well-sized states. */
  lemma UnmarshalAcceptsExactlyEncodings(data: seq<uint8>, t: SessionState)
    ensures Unmarshal(data) == Some(t) <==> WellSized(t) && !t.usedOldKey && Marshal(t) == data
  {
    if WellSized(t) && !t.usedOldKey && Marshal(t) == data {
      RoundTrip(t);
    }
  }

  /** Equally many certificates: no encoding of the list is a proper prefix of another. */
  lemma CertificatesPrefixFree(a: seq<seq<uint8>>, b: seq<seq<uint8>>, e: seq<uint8>)
    requires CertificatesFit(a) && CertificatesFit(b) && |a| == |b|
    requires MarshalCertificates(a) + e == MarshalCertificates(b)
    ensures e == []
  {
    assert MarshalCertificates(b) == MarshalCertificates(b) + [];
    UnmarshalMarshalCertificates(a, e);
    UnmarshalMarshalCertificates(b, []);
  }

  /** No encoding of a well-sized state is a proper prefix of another. */
  lemma MarshalPrefixFree(s: SessionState, t: SessionState, e: seq<uint8>)
    requires WellSized(s) && WellSized(t)
    requires Marshal(s) + e == Marshal(t)
    ensures e == []
  {
    var ps, pt := Prefixed16(s.masterSecret), Prefixed16(t.masterSecret);
    var cs, ct := CertificateList(s.certificates), CertificateList(t.certificates);
    MarshalAppend(s, e);
    EqualAppends(BE16(s.vers), BE16(s.cipherSuite) + (ps + (cs + e)), BE16(t.vers), BE16(t.cipherSuite) + (pt + ct));
    EqualAppends(BE16(s.cipherSuite), ps + (cs + e), BE16(t.cipherSuite), pt + ct);
    Prefixed16Unambiguous(s.masterSecret, t.masterSecret, cs + e, ct);
    CertificateListPrefixFree(s.certificates, t.certificates, e);
  }

  /** No certificate list that fits its fields is a proper prefix of another. */
  lemma CertificateListPrefixFree(a: seq<seq<uint8>>, b: seq<seq<uint8>>, e: seq<uint8>)
    requires |a| < 0x1_0000 && |b| < 0x1_0000 && CertificatesFit(a) && CertificatesFit(b)
    requires CertificateList(a) + e == CertificateList(b)
    ensures e == []
  {
    var ma, mb := MarshalCertificates(a), MarshalCertificates(b);
    var na, nb := |a| % 0x1_0000, |b| % 0x1_0000;
    AppendAssoc(BE16(na), ma, e);
    EqualAppends(BE16(na), ma + e, BE16(nb), mb);
    ReadBE16(na, ma + e);
    ReadBE16(nb, mb);
    assert na == |a| && nb == |b|;
    CertificatesPrefixFree(a, b, e);
  }

  /** Any byte appended to a valid encoding makes Unmarshal fail. */
  lemma UnmarshalRejectsExtension(s: SessionState, e: seq<uint8>)
    requires WellSized(s) && |e| > 0
    ensures Unmarshal(Marshal(s) + e) == None
  {
    var r := Unmarshal(Marshal(s) + e);
    if r.Some? {
      MarshalPrefixFree(s, r.value, e);
    }
  }

  /** Any proper prefix of a valid encoding makes Unmarshal fail. */
  lemma UnmarshalRejectsTruncation(s: SessionState, k: nat)
    requires WellSized(s) && k < |Marshal(s)|
    ensures Unmarshal(Marshal(s)[..k]) == None
  {
    var d := Marshal(s);
    var front, back := d[..k], d[k..];
    assert d == front + back;
    var r := Unmarshal(front);
    if r.Some? {
      MarshalPrefixFree(r.value, s, back);
    }
  }

  /** A state with an oversized field does not survive the encoding as
      written: whatever Unmarshal makes of it differs from it. */
  lemma OversizedStateDoesNotRoundTrip(s: SessionState)
    requires !WellSized(s)
    ensures Unmarshal(Marshal(s)).Some? ==> !Equal(Unmarshal(Marshal(s)).value, s)
  {
  }

  /** The encoder that refuses oversized fields instead of cutting them. */
  function MarshalChecked(s: SessionState): (r: Option<seq<uint8>>)
    ensures r.Some? <==> WellSized(s)
    ensures r.Some? ==> Unmarshal(r.value) == Some(s.(usedOldKey := false))
  {
    if WellSized(s) then RoundTrip(s); Some(Marshal(s)) else None
  }
}
