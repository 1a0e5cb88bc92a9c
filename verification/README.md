# Session tickets of tls-tris, modelled in Dafny

A TLS server that issues session tickets keeps no per-client state. It
serializes the resumable state of a session, seals it, and hands it to the
client. The client later presents the ticket, and the server opens it and
resumes the session. `ticket.go` holds both halves of this:

- **Two session-state codecs.** `sessionState` (TLS 1.2) and
  `sessionState13` (TLS 1.3) each have `marshal`, `unmarshal` and `equal`.
  Both are hand-rolled, big-endian and length-prefixed.
- **The ticket envelope.** `encryptTicket` and `decryptTicket` build and
  split `keyName(16) | IV(16) | AES-CTR(state) | HMAC-SHA256(32)`.
  Sealing uses the current key. Opening uses the first key whose name
  matches, and reports whether that key was an older one.

The model has four modules, one per file:

- `Bytes` (`bytes.dfy`) holds the shared vocabulary:
  - Go's unsigned integer widths as bounded `int` subset types;
  - `Option`;
  - big-endian writers (`BE16/32/64`) and readers (`Uint16At/32At/64At`);
  - 2- and 4-byte length-prefixed fields;
  - byte-wise XOR.
- `Session` (`session.dfy`) and `Session13` (`session13.dfy`) are the two
  codecs.
  - `Marshal` is written as the Go code behaves: a length that does not fit
    its field is cut to its low-order bytes.
  - `Unmarshal` is a pure function returning `Option`. It makes the same
    bounds checks in the same order as Go, and requires the input to end
    exactly where the encoding ends.
- `Ticket` (`ticket.dfy`) is the envelope.
  - The block cipher and the MAC are functions inside a `Crypto` value: the
    i-th key-stream byte for a key and IV, and a 32-byte MAC.
  - Every property about the envelope therefore holds for any cipher and
    any MAC.
  - The IV (the result of reading the random source), the key list and the
    "tickets disabled" switch are parameters.

Main results:

- Round trip for both codecs, under the stated size bounds.
- `Unmarshal` accepts exactly the encodings of well-sized states, and
  rejects every proper prefix and every extension of one.
- The envelope layout as a reader finds it.
- Every reject path of `decryptTicket`, as an if-and-only-if.
- Opening a ticket sealed under any key in the list returns the sealed state,
  provided no earlier key in the list carries the same name. The "old key"
  flag is then set exactly when that key is not the first. When an earlier key
  shares the name, opening picks that earlier key, as Go's search does, and
  its MAC decides.
- Conversely, every accepted ticket is exactly the sealing of what it opens
  to.

## Model

| member | source | states |
|---|---|---|
| Bytes.ReadBE64 | ticket.go:171-178 | reading back the eight big-endian bytes written for a 64-bit value gives that value, and the bytes after them are untouched |
| Bytes.SplitBE64 | ticket.go:206-207 | any eight bytes are the big-endian encoding of the 64-bit value they read as |
| Bytes.ReadPrefixed16 | ticket.go:67-71 | a field shorter than 2^16 bytes, written as its 2-byte length and its bytes, reads back as that length, that field and the untouched rest |
| Bytes.Prefixed16Unambiguous | ticket.go:96-103 | two length-prefixed fields that start equal inputs are equal, and so are the bytes after them |
| Bytes.XorBytesTwice | ticket.go:248 | XOR with the same key stream twice returns the original bytes |
| Session.Equal | ticket.go:30-53 | `equal` holds exactly when the two states agree on every field except `usedOldKey` |
| Session.Marshal | ticket.go:55-87 | the encoding is 8 + len(masterSecret) + Σ(4 + len(cert)) bytes long, as the size computation at lines 56-59 says |
| Session.MarshalCertificates | ticket.go:56-84 | the certificates as the write loop at lines 77-84 lays them out occupy Σ(4 + len(cert)) bytes, the size the loop at lines 57-59 allocates |
| Session.MarshalLayout | ticket.go:63-84 | at offsets 0, 2 and 4 a reader finds vers, cipherSuite and the secret length cut to 16 bits; then the secret, the certificate count cut to 16 bits, then the certificates |
| Session.MarshalFront | ticket.go:63-71 | the fields before the certificate count read back as written, and the secret is followed by the certificate list |
| Session.UnmarshalCertificates | ticket.go:112-127 | the certificate loop returns exactly n certificates, each shorter than 2^32, that re-encode to the front of its input; it fails when fewer than 4 bytes remain before a length or when a length exceeds the bytes left |
| Session.Unmarshal | ticket.go:89-130 | fails on inputs shorter than 8 bytes and when the secret length leaves no room for the count; any state it returns is well-sized, has `usedOldKey` unset and re-encodes to exactly the input |
| Session.UnmarshalMarshalCertificates | ticket.go:77-84 | the certificate loop reads back exactly the certificates written and leaves the bytes after them |
| Session.RoundTrip | ticket.go:30-130 | a state with a secret shorter than 2^16, fewer than 2^16 certificates and each certificate shorter than 2^32 decodes from its encoding to a state `equal` to it |
| Session.UnmarshalAcceptsExactlyEncodings | ticket.go:55-130 | `unmarshal` yields t from data if and only if t is well-sized, has `usedOldKey` unset and marshals to data |
| Session.CertificatesPrefixFree | ticket.go:112-127 | among equally many certificates, no encoding is a proper prefix of another |
| Session.CertificateListPrefixFree | ticket.go:73-84 | no certificate count and list is a proper prefix of another |
| Session.MarshalPrefixFree | ticket.go:55-87 | no encoding of a well-sized state is a proper prefix of another |
| Session.UnmarshalRejectsExtension | ticket.go:129 | a valid encoding followed by any further bytes is rejected |
| Session.UnmarshalRejectsTruncation | ticket.go:89-130 | every proper prefix of a valid encoding is rejected |
| Session.OversizedStateDoesNotRoundTrip | ticket.go:67-81 | a state with a field too long for its length prefix never decodes back to a state `equal` to it |
| Session.MarshalChecked | ticket.go:55-87 | the encoder refuses exactly the states that are not well-sized, and what it produces decodes back to the state |
| Session13.Equal | ticket.go:143-157 | `equal` holds exactly when all eight fields agree |
| Session13.Marshal | ticket.go:159-196 | the encoding is 26 + the three variable field lengths long, as line 160 computes |
| Session13.ReadHeader | ticket.go:163-182 | the 20 fixed-width bytes read back as vers, suite, ageAdd, createdAt and maxEarlyDataLen at offsets 0, 2, 4, 8 and 16 |
| Session13.SplitHeader | ticket.go:203-208 | the first 20 bytes of any input are the header of the fields they read as |
| Session13.ReadBody | ticket.go:183-193 | each length-prefixed field of a well-sized state reads back at the offset where `unmarshal` slices it, and the server name ends the input |
| Session13.Unmarshal | ticket.go:198-231 | fails on inputs shorter than 24 bytes and when the secret length leaves no room for the next prefix; any state it returns is well-sized and re-encodes to exactly the input |
| Session13.RoundTrip | ticket.go:143-231 | a state whose three variable fields are each shorter than 2^16 decodes from its encoding to an `equal` state, 32- and 64-bit integers included |
| Session13.UnmarshalAcceptsExactlyEncodings | ticket.go:159-231 | `unmarshal` yields t from data if and only if t is well-sized and marshals to data |
| Session13.MarshalPrefixFree | ticket.go:159-196 | no encoding of a well-sized state is a proper prefix of another |
| Session13.UnmarshalRejectsExtension | ticket.go:225-228 | a valid encoding followed by any further bytes is rejected |
| Session13.UnmarshalRejectsTruncation | ticket.go:198-231 | every proper prefix of a valid encoding is rejected |
| Session13.OversizedStateDoesNotRoundTrip | ticket.go:183-192 | a state with a field of 2^16 bytes or more never decodes back to a state `equal` to it |
| Session13.MarshalChecked | ticket.go:159-196 | the encoder refuses exactly the states that are not well-sized, and what it produces decodes back to the state |
| Ticket.Ctr | ticket.go:248 | the output is as long as the input, and each byte is the input byte XORed with the key-stream byte at the same position for that key and IV |
| Ticket.CtrTwice | ticket.go:295 | decrypting in counter mode under the same key and IV undoes encryption |
| Ticket.FindKey | ticket.go:267-278 | the search returns the position of the first key with the ticket's name, and nothing exactly when no key has that name |
| Ticket.EncryptTicket | ticket.go:233-255 | fails exactly when reading the IV fails; otherwise the ticket is 64 + len(serialized) bytes long and holds the current key's name, the IV, the state under counter mode with the current key, then the current key's MAC of everything before it |
| Ticket.DecryptTicket | ticket.go:257-298 | refuses when tickets are disabled or the input is shorter than 64 bytes; otherwise accepts if and only if some key has the ticket's name and the first such key's MAC matches the last 32 bytes; then it returns the body under counter mode with that key and IV, flagged old exactly when that key is not the first |
| Ticket.SealOpen | ticket.go:242-297 | a ticket sealed under the i-th key (no earlier key with the same name) opens to the sealed state, flagged old exactly when i > 0 |
| Ticket.RoundTrip | ticket.go:233-298 | a ticket sealed under the current key opens to the sealed state and is not flagged old |
| Ticket.OpenedWasSealed | ticket.go:257-298 | every ticket that opens is exactly what sealing its payload under the matched key and its own IV produces |
| Ticket.SealedUnique | ticket.go:234-252 | key, IV and payload determine the whole ticket |
| Ticket.ForgedMacRejected | ticket.go:281-287 | an accepted ticket with its last 32 bytes replaced by any other 32 bytes is refused |
| Ticket.RetiredKeyRejected | ticket.go:267-278 | a ticket sealed under a key whose name is no longer in the list is refused |

## Left out

- The AES block cipher, CTR mode and HMAC-SHA256 are supplied as functions and
  not defined. As a result, the model cannot state unforgeability. It states
  only what holds for every cipher and MAC.
- `subtle.ConstantTimeCompare` (ticket.go:285) is modelled as equality of the
  two 32-byte values. Its timing behaviour is not expressible.
- The IV read (ticket.go:239) is a parameter: the bytes read, or `None` when
  the read failed. The error value itself is not modelled.
- The `aes.NewCipher` error branches (ticket.go:244-247, 289-292) are left
  out. Ticket keys have a fixed 16-byte AES key, so they cannot fire.
- `Conn`, `c.config.ticketKeys()` and `SessionTicketsDisabled` become explicit
  parameters.
- `config.ticketKeys` always supplies at least one key. `EncryptTicket`
  requires a non-empty list because Go indexes keys[0].
- `ticketKeyNameLen` and the 16-byte AES and HMAC key sizes come from
  common.go, which is not part of this model. They are the constants
  `Ticket.KeyNameLen`, `Ticket.AesKeyLen` and `Ticket.HmacKeyLen`, each with
  the upstream value 16.
- Decryption in place (ticket.go:294-295) is modelled as a function
  producing a new sequence.
- Buffer aliasing is left out: in Go, `masterSecret` (ticket.go:102), each
  certificate (ticket.go:125) and `resumptionSecret` (ticket.go:214) share
  memory with the input, while `alpnProtocol` and `SNI` are copied by
  `string(...)` (ticket.go:221, 228). The model's sequences are values.
- The interface type assertion in both `equal` methods (ticket.go:31-34,
  144-147) is left out. Two values of the same datatype are compared.
- A failed `unmarshal` leaves the Go receiver partly filled. The model
  returns `None` instead.
- The `certLen < 0` test (ticket.go:119-121) has no counterpart; the length
  is read unsigned. On 64-bit targets the test never fires. On 32-bit targets
  it fires only for lengths of 2^31 or more, which the bounds check at line
  122 refuses anyway, so the single unsigned check gives the same answer.
- Session.Unmarshal: Go's `unmarshal` leaves the `usedOldKey` flag of its
  receiver untouched; the model returns it unset. The caller sets the flag
  from `DecryptTicket`.
- Session.RoundTrip, Session13.RoundTrip: these assume each length fits its
  field. Go's `marshal` has no such precondition and silently truncates
  lengths; see Findings.

## Findings

| source | as written | input that shows it | evidently intended | confidence | as-written member | corrected member |
|---|---|---|---|---|---|---|
| ticket.go:67-81 | `marshal` writes `byte(len(x) >> 8)`, `byte(len(x))` (and four bytes for each certificate), dropping high-order bits of a length or count that does not fit | a `sessionState` with 65536 certificates writes count 0, so `unmarshal` reads no certificates and fails on the trailing bytes; one with a 65536-byte master secret writes length 0, and if that secret is `00 01 00 00 FF FC` followed by 65530 zero bytes and there are no certificates, the output decodes as a different valid state: an empty secret and one 65532-byte certificate | refuse, or never produce, a state whose lengths do not fit their fields | low (master secrets are 48 bytes in practice); not executed | Session.OversizedStateDoesNotRoundTrip | Session.MarshalChecked |
| ticket.go:183-192 | `marshal` writes the three 16-bit length prefixes with the same truncating casts | a `sessionState13` with a 65536-byte ALPN protocol or server name writes length 0 for it, so the encoding does not decode back to the state | refuse a state whose variable fields reach 2^16 bytes | low (these fields are short in practice); not executed | Session13.OversizedStateDoesNotRoundTrip | Session13.MarshalChecked |
