/** The resumable state of a TLS 1.3 session (Go's `sessionState13`) and its
    hand-rolled big-endian encoding:

      vers(2) suite(2) ageAdd(4) createdAt(8) maxEarlyDataLen(4)
      len(2) resumptionSecret len(2) alpnProtocol len(2) SNI
 */
module Session13 {
  import opened Bytes

  /** Go's strings `alpnProtocol` and `SNI` are byte strings, and so are these. */
  datatype SessionState13 = SessionState13(
    vers: uint16,
    suite: uint16,
    ageAdd: uint32,
    createdAt: uint64,
    maxEarlyDataLen: uint32,
    resumptionSecret: seq<uint8>,
    alpnProtocol: seq<uint8>,
    sni: seq<uint8>)

  /** Field-wise comparison of all eight fields. */
  predicate Equal(s: SessionState13, t: SessionState13)
    ensures Equal(s, t) <==> s == t
  {
    && s.vers == t.vers
    && s.suite == t.suite
    && s.ageAdd == t.ageAdd
    && s.createdAt == t.createdAt
    && s.maxEarlyDataLen == t.maxEarlyDataLen
    && s.resumptionSecret == t.resumptionSecret
    && s.alpnProtocol == t.alpnProtocol
    && s.sni == t.sni
  }

  /** Each variable-length field fits its 16-bit length prefix. */
  predicate WellSized(s: SessionState13)
  {
    && |s.resumptionSecret| < 0x1_0000
    && |s.alpnProtocol| < 0x1_0000
    && |s.sni| < 0x1_0000
  }

  /** The 20 fixed-width bytes at the front of the encoding. */
  function Header(s: SessionState13): (r: seq<uint8>)
    ensures |r| == 20
  {
    BE16(s.vers) + (BE16(s.suite) + (BE32(s.ageAdd) + (BE64(s.createdAt) + BE32(s.maxEarlyDataLen))))
  }

  /** The three length-prefixed fields after the header. */
  function Body(s: SessionState13): (r: seq<uint8>)
    ensures |r| == 6 + |s.resumptionSecret| + |s.alpnProtocol| + |s.sni|
  {
    Prefixed16(s.resumptionSecret) + (Prefixed16(s.alpnProtocol) + Prefixed16(s.sni))
  }

  /** The encoding as `marshal` writes it: a length that does not fit its
      field keeps only its low-order bytes. */
  function Marshal(s: SessionState13): (r: seq<uint8>)
    ensures |r| == 26 + |s.resumptionSecret| + |s.alpnProtocol| + |s.sni|
  {
    Header(s) + Body(s)
  }

  /** Reading each fixed-width field back from the front of a header and
      what follows it gives the value written, the 64-bit creation time
      included, and the bytes after the header untouched. */
  lemma ReadHeader(s: SessionState13, rest: seq<uint8>)
    ensures var d := Header(s) + rest;
      && Uint16At(d, 0) == s.vers && Uint16At(d, 2) == s.suite
      && Uint32At(d, 4) == s.ageAdd && Uint64At(d, 8) == s.createdAt
      && Uint32At(d, 16) == s.maxEarlyDataLen && d[20..] == rest
  {
    var d := Header(s) + rest;
    var d16 := BE32(s.maxEarlyDataLen) + rest;
    var d8 := BE64(s.createdAt) + d16;
    var d4 := BE32(s.ageAdd) + d8;
    var d2 := BE16(s.suite) + d4;
    AppendAssoc(BE64(s.createdAt), BE32(s.maxEarlyDataLen), rest);
    AppendAssoc(BE32(s.ageAdd), BE64(s.createdAt) + BE32(s.maxEarlyDataLen), rest);
    AppendAssoc(BE16(s.suite), BE32(s.ageAdd) + (BE64(s.createdAt) + BE32(s.maxEarlyDataLen)), rest);
    AppendAssoc(BE16(s.vers), BE16(s.suite) + (BE32(s.ageAdd) + (BE64(s.createdAt) + BE32(s.maxEarlyDataLen))), rest);
    assert d == BE16(s.vers) + d2;
    ReadBE16(s.vers, d2);
    ReadBE16(s.suite, d4);
    ReadBE32(s.ageAdd, d8);
    ReadBE64(s.createdAt, d16);
    ReadBE32(s.maxEarlyDataLen, rest);
    assert d[2..] == d2 && d[4..] == d4 && d[8..] == d8 && d[16..] == d16;
    ReadAtOffset(d, 2);
    ReadAtOffset(d, 4);
    ReadAtOffset(d, 8);
    ReadAtOffset(d, 16);
  }

  /** Conversely, an input of at least 20 bytes is the header of any state
      whose fixed-width fields are what it reads as, followed by the rest. */
  lemma SplitHeader(d: seq<uint8>, s: SessionState13)
    requires |d| >= 20
    requires s.vers == Uint16At(d, 0) && s.suite == Uint16At(d, 2)
    requires s.ageAdd == Uint32At(d, 4) && s.createdAt == Uint64At(d, 8)
    requires s.maxEarlyDataLen == Uint32At(d, 16)
    ensures Header(s) + d[20..] == d
  {
    var d2, d4, d8, d16 := d[2..], d[4..], d[8..], d[16..];
    ReadAtOffset(d, 2);
    ReadAtOffset(d, 4);
    ReadAtOffset(d, 8);
    ReadAtOffset(d, 16);
    SplitBE16(d);
    SplitBE16(d2);
    SplitBE32(d4);
    SplitBE64(d8);
    SplitBE32(d16);
    assert d2[2..] == d4 && d4[4..] == d8 && d8[8..] == d16 && d16[4..] == d[20..];
    var rest := d[20..];
    assert d == BE16(s.vers) + (BE16(s.suite) + (BE32(s.ageAdd) + (BE64(s.createdAt) + (BE32(s.maxEarlyDataLen) + rest))));
    AppendAssoc(BE64(s.createdAt), BE32(s.maxEarlyDataLen), rest);
    AppendAssoc(BE32(s.ageAdd), BE64(s.createdAt) + BE32(s.maxEarlyDataLen), rest);
    AppendAssoc(BE16(s.suite), BE32(s.ageAdd) + (BE64(s.createdAt) + BE32(s.maxEarlyDataLen)), rest);
    AppendAssoc(BE16(s.vers), BE16(s.suite) + (BE32(s.ageAdd) + (BE64(s.createdAt) + BE32(s.maxEarlyDataLen))), rest);
  }

  /** `unmarshal`: every slice is preceded by a check that it is in bounds,
      and the server name must end exactly where the input ends. */
  function Unmarshal(data: seq<uint8>): (r: Option<SessionState13>)
    ensures |data| < 24 ==> r.None?
    ensures |data| >= 24 && |data| < 22 + Uint16At(data, 20) + 2 ==> r.None?
    ensures r.Some? ==> WellSized(r.value) && Marshal(r.value) == data
  {
    if |data| < 24 then None
    else
      var l := Uint16At(data, 20);
      if |data| < 22 + l + 2 then None
      else
        var resumptionSecret := data[22..22 + l];
        var z := data[22 + l..];
        var l' := Uint16At(z, 0);
        if |z| < 2 + l' + 2 then None
        else
          var alpnProtocol := z[2..2 + l'];
          var z' := z[2 + l'..];
          var l'' := Uint16At(z', 0);
          if |z'| != 2 + l'' then None
          else
            var s := SessionState13(
              Uint16At(data, 0), Uint16At(data, 2), Uint32At(data, 4),
              Uint64At(data, 8), Uint32At(data, 16),
              resumptionSecret, alpnProtocol, z'[2..2 + l'']);
            MarshalOfDecodedFields(data, z, z', s);
            Some(s)
  }

  /** The step of Unmarshal's contract that reassembles the input from the
      fields it decoded; z and z' are the input after the resumption secret
      and after the ALPN protocol. */
  lemma MarshalOfDecodedFields(data: seq<uint8>, z: seq<uint8>, z': seq<uint8>, s: SessionState13)
    requires |data| >= 22
    requires s.vers == Uint16At(data, 0) && s.suite == Uint16At(data, 2)
    requires s.ageAdd == Uint32At(data, 4) && s.createdAt == Uint64At(data, 8)
    requires s.maxEarlyDataLen == Uint32At(data, 16)
    requires |s.resumptionSecret| == Uint16At(data, 20) && 22 + |s.resumptionSecret| <= |data|
    requires s.resumptionSecret == data[22..22 + |s.resumptionSecret|]
    requires z == data[22 + |s.resumptionSecret|..]
    requires |z| >= 2 && |s.alpnProtocol| == Uint16At(z, 0) && 2 + |s.alpnProtocol| <= |z|
    requires s.alpnProtocol == z[2..2 + |s.alpnProtocol|] && z' == z[2 + |s.alpnProtocol|..]
    requires |z'| >= 2 && |s.sni| == Uint16At(z', 0) && |z'| == 2 + |s.sni|
    requires s.sni == z'[2..2 + |s.sni|]
    ensures WellSized(s) && Marshal(s) == data
  {
    var l := |s.resumptionSecret|;
    SplitHeader(data, s);
    var w := data[20..];
    ReadAtOffset(data, 20);
    assert w[2..2 + l] == s.resumptionSecret && w[2 + l..] == z;
    BodyOfDecodedFields(w, z, z', s);
  }

  /** The same for the bytes after the header, w. */
  lemma BodyOfDecodedFields(w: seq<uint8>, z: seq<uint8>, z': seq<uint8>, s: SessionState13)
    requires |w| >= 2 && |s.resumptionSecret| == Uint16At(w, 0) && 2 + |s.resumptionSecret| <= |w|
    requires s.resumptionSecret == w[2..2 + |s.resumptionSecret|] && z == w[2 + |s.resumptionSecret|..]
    requires |z| >= 2 && |s.alpnProtocol| == Uint16At(z, 0) && 2 + |s.alpnProtocol| <= |z|
    requires s.alpnProtocol == z[2..2 + |s.alpnProtocol|] && z' == z[2 + |s.alpnProtocol|..]
    requires |z'| >= 2 && |s.sni| == Uint16At(z', 0) && |z'| == 2 + |s.sni|
    requires s.sni == z'[2..2 + |s.sni|]
    ensures WellSized(s) && Body(s) == w
  {
    SplitPrefixed16(w);
    SplitPrefixed16(z);
    SplitPrefixed16(z');
    assert z'[2 + |s.sni|..] == [];
    var a, b, c := Prefixed16(s.resumptionSecret), Prefixed16(s.alpnProtocol), Prefixed16(s.sni);
    assert z' == c;
    assert z == b + c;
    assert w == a + (b + c);
  }

  /** Round trip: a state whose fields fit their length prefixes decodes
      from its encoding to a state Equal to it, down to the 32- and 64-bit
      integers. */
  lemma RoundTrip(s: SessionState13)
    requires WellSized(s)
    ensures Unmarshal(Marshal(s)) == Some(s)
    ensures Equal(Unmarshal(Marshal(s)).value, s)
  {
    var data, body := Marshal(s), Body(s);
    var l := |s.resumptionSecret|;
    ReadHeader(s, body);
    assert data[20..] == body;
    ReadAtOffset(data, 20);
    ReadBody(s);
    assert Uint16At(data, 20) == l && |data| >= 22 + l + 2;
    assert data[22..22 + l] == body[2..2 + l];
    var z := data[22 + l..];
    assert z == body[2 + l..];
    var l' := |s.alpnProtocol|;
    var z' := z[2 + l'..];
    assert Uint16At(z, 0) == l' && |z| >= 2 + l' + 2 && z[2..2 + l'] == s.alpnProtocol;
    assert Uint16At(z', 0) == |s.sni| && |z'| == 2 + |s.sni| && z'[2..2 + |s.sni|] == s.sni;
    assert Unmarshal(data) == Some(s);
  }

  /** What Unmarshal finds in the body of a well-sized state's encoding,
      step by step as it slices it. */
  lemma ReadBody(s: SessionState13)
    requires WellSized(s)
    ensures var w, l, l', l'' := Body(s), |s.resumptionSecret|, |s.alpnProtocol|, |s.sni|;
      && Uint16At(w, 0) == l && w[2..2 + l] == s.resumptionSecret
      && var z := w[2 + l..];
      && |z| >= 2 + l' + 2 && Uint16At(z, 0) == l' && z[2..2 + l'] == s.alpnProtocol
      && var z' := z[2 + l'..];
      && |z'| == 2 + l'' && Uint16At(z', 0) == l'' && z'[2..2 + l''] == s.sni
  {
    var b, c := Prefixed16(s.alpnProtocol), Prefixed16(s.sni);
    ReadPrefixed16(s.resumptionSecret, b + c);
    ReadPrefixed16(s.alpnProtocol, c);
    assert c == c + [];
    ReadPrefixed16(s.sni, []);
  }

  /** Unmarshal accepts exactly the encodings of well-sized states. */
  lemma UnmarshalAcceptsExactlyEncodings(data: seq<uint8>, t: SessionState13)
    ensures Unmarshal(data) == Some(t) <==> WellSized(t) && Marshal(t) == data
  {
    if WellSized(t) && Marshal(t) == data {
      RoundTrip(t);
    }
  }

  /** No encoding of a well-sized state is a proper prefix of another. */
  lemma MarshalPrefixFree(s: SessionState13, t: SessionState13, e: seq<uint8>)
    requires WellSized(s) && WellSized(t)
    requires Marshal(s) + e == Marshal(t)
    ensures e == []
  {
    var rs, rt := Prefixed16(s.resumptionSecret), Prefixed16(t.resumptionSecret);
    var bs, bt := Prefixed16(s.alpnProtocol), Prefixed16(t.alpnProtocol);
    var cs, ct := Prefixed16(s.sni), Prefixed16(t.sni);
    AppendAssoc(bs, cs, e);
    AppendAssoc(rs, bs + cs, e);
    AppendAssoc(Header(s), Body(s), e);
    EqualAppends(Header(s), rs + (bs + (cs + e)), Header(t), rt + (bt + ct));
    Prefixed16Unambiguous(s.resumptionSecret, t.resumptionSecret, bs + (cs + e), bt + ct);
    Prefixed16Unambiguous(s.alpnProtocol, t.alpnProtocol, cs + e, ct);
    assert ct == ct + [];
    Prefixed16Unambiguous(s.sni, t.sni, e, []);
  }

  /** Any byte appended to a valid encoding makes Unmarshal fail. */
  lemma UnmarshalRejectsExtension(s: SessionState13, e: seq<uint8>)
    requires WellSized(s) && |e| > 0
    ensures Unmarshal(Marshal(s) + e) == None
  {
    var r := Unmarshal(Marshal(s) + e);
    if r.Some? {
      MarshalPrefixFree(s, r.value, e);
    }
  }

  /** Any proper prefix of a valid encoding makes Unmarshal fail. */
  lemma UnmarshalRejectsTruncation(s: SessionState13, k: nat)
    requires WellSized(s) && k < |Marshal(s)|
    ensures Unmarshal(Marshal(s)[..k]) == None
  {
    var d := Marshal(s);
    var front, back := d[..k], d[k..];
    assert d == front + back;
    var r := Unmarshal(front);
    if r.Some? {
      MarshalPrefixFree(r.value, s, back);
    }
  }

  /** A state with an oversized field does not survive the encoding as
      written: whatever Unmarshal makes of it differs from it. */
  lemma OversizedStateDoesNotRoundTrip(s: SessionState13)
    requires !WellSized(s)
    ensures Unmarshal(Marshal(s)).Some? ==> !Equal(Unmarshal(Marshal(s)).value, s)
  {
  }

  /** The encoder that refuses oversized fields instead of cutting them. */
  function MarshalChecked(s: SessionState13): (r: Option<seq<uint8>>)
    ensures r.Some? <==> WellSized(s)
    ensures r.Some? ==> Unmarshal(r.value) == Some(s)
  {
    if WellSized(s) then RoundTrip(s); Some(Marshal(s)) else None
  }
}
