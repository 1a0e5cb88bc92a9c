/** The session-ticket envelope of `encryptTicket` and `decryptTicket`:

      keyName(16) IV(16) AES-CTR(serialized) HMAC-SHA256(everything before)(32)

    The block cipher and the MAC are not modelled; a `Crypto` value supplies
    them as functions, so every property below holds for any cipher and any
    MAC. */
module Ticket {
  import opened Bytes

  /** Go's ticketKeyNameLen, aes.BlockSize and sha256.Size. */
  const KeyNameLen := 16
  const BlockSize := 16
  const MacSize := 32
  /** The sizes of a ticket key's AES and HMAC secrets. */
  const AesKeyLen := 16
  const HmacKeyLen := 16
  /** The shortest envelope: name, IV and MAC around an empty body. */
  const Overhead := KeyNameLen + BlockSize + MacSize

  type KeyName = s: seq<uint8> | |s| == KeyNameLen witness seq(KeyNameLen, _ => 0)
  type AesKey = s: seq<uint8> | |s| == AesKeyLen witness seq(AesKeyLen, _ => 0)
  type HmacKey = s: seq<uint8> | |s| == HmacKeyLen witness seq(HmacKeyLen, _ => 0)
  type Iv = s: seq<uint8> | |s| == BlockSize witness seq(BlockSize, _ => 0)
  type Digest = s: seq<uint8> | |s| == MacSize witness seq(MacSize, _ => 0)

  /** Go's `ticketKey`: the name written in clear at the front of a ticket,
      and the two secrets derived for it. */
  datatype TicketKey = TicketKey(keyName: KeyName, aesKey: AesKey, hmacKey: HmacKey)

  /** The primitives: the i-th byte of the AES-CTR key stream for a key and
      an initial counter block, and HMAC-SHA256 of a message. */
  datatype Crypto = Crypto(
    keystream: (AesKey, Iv, nat) -> uint8,
    mac: (HmacKey, seq<uint8>) -> Digest)

  /** What Decrypt hands back: the serialized state and whether the key
      that opened it is not the current one. */
  datatype Decrypted = Decrypted(serialized: seq<uint8>, usedOldKey: bool)

  /** The first n bytes of the key stream. */
  function Keystream(crypto: Crypto, key: AesKey, iv: Iv, n: nat): (r: seq<uint8>)
    ensures |r| == n
  {
    seq<uint8>(n, i requires 0 <= i < n => crypto.keystream(key, iv, i))
  }

  /** Go's `cipher.NewCTR(block, iv).XORKeyStream`: the input XORed with the
      key stream, for encryption and decryption alike. */
  function Ctr(crypto: Crypto, key: AesKey, iv: Iv, input: seq<uint8>): (r: seq<uint8>)
    ensures |r| == |input|
    ensures forall i :: 0 <= i < |input| ==> r[i] == Xor(input[i], crypto.keystream(key, iv, i))
  {
    XorBytes(input, Keystream(crypto, key, iv, |input|))
  }

  /** Counter mode undoes itself under the same key and IV. */
  lemma CtrTwice(crypto: Crypto, key: AesKey, iv: Iv, input: seq<uint8>)
    ensures Ctr(crypto, key, iv, Ctr(crypto, key, iv, input)) == input
  {
    XorBytesTwice(input, Keystream(crypto, key, iv, |input|));
  }

  /** i is the position of the first key called name. */
  predicate FirstKeyNamed(keys: seq<TicketKey>, name: seq<uint8>, i: int)
  {
    && 0 <= i < |keys|
    && keys[i].keyName == name
    && forall j :: 0 <= j < i ==> keys[j].keyName != name
  }

  /** The search loop of `decryptTicket`: the index of the first key whose
      name matches, or none. */
  function FindKey(keys: seq<TicketKey>, name: seq<uint8>): (r: Option<nat>)
    ensures r.Some? ==> FirstKeyNamed(keys, name, r.value)
    ensures r.None? <==> forall j :: 0 <= j < |keys| ==> keys[j].keyName != name
  {
    if |keys| == 0 then None
    else if keys[0].keyName == name then Some(0)
    else
      match FindKey(keys[1..], name)
      case None => None
      case Some(j) => Some(j + 1)
  }

  /** How a ticket sealed under key, iv reads back: the key's name, the IV,
      the body under counter mode, and the key's MAC of all of that. */
  predicate Sealed(crypto: Crypto, key: TicketKey, iv: Iv, serialized: seq<uint8>, e: seq<uint8>)
  {
    && |e| == Overhead + |serialized|
    && e[..KeyNameLen] == key.keyName
    && e[KeyNameLen..KeyNameLen + BlockSize] == iv
    && e[KeyNameLen + BlockSize..|e| - MacSize] == Ctr(crypto, key.aesKey, iv, serialized)
    && e[|e| - MacSize..] == crypto.mac(key.hmacKey, e[..|e| - MacSize])
  }

  /** `encryptTicket`: seals under the current key, keys[0]. The IV is what
      reading the random source gave, or None when that read failed. */
  function EncryptTicket(crypto: Crypto, keys: seq<TicketKey>, random: Option<Iv>, serialized: seq<uint8>)
    : (r: Option<seq<uint8>>)
    requires |keys| > 0
    ensures r.None? <==> random.None?
    ensures r.Some? ==> Sealed(crypto, keys[0], random.value, serialized, r.value)
  {
    match random
    case None => None
    case Some(iv) =>
      var key := keys[0];
      var front := key.keyName + iv + Ctr(crypto, key.aesKey, iv, serialized);
      var e := front + crypto.mac(key.hmacKey, front);
      assert e[..|e| - MacSize] == front;
      assert e[..KeyNameLen] == key.keyName && e[KeyNameLen..KeyNameLen + BlockSize] == iv;
      Some(e)
  }

  /** The MAC at the end of e is the one the named key computes. */
  predicate MacValid(crypto: Crypto, key: TicketKey, e: seq<uint8>)
    requires |e| >= MacSize
  {
    e[|e| - MacSize..] == crypto.mac(key.hmacKey, e[..|e| - MacSize])
  }

  /** `decryptTicket`: every way it can refuse a ticket, then the payload
      under the key it found. */
  function DecryptTicket(crypto: Crypto, disabled: bool, keys: seq<TicketKey>, encrypted: seq<uint8>)
    : (r: Option<Decrypted>)
    ensures disabled || |encrypted| < Overhead ==> r.None?
    ensures r.Some? <==>
      && !disabled && |encrypted| >= Overhead
      && exists i :: FirstKeyNamed(keys, encrypted[..KeyNameLen], i) && MacValid(crypto, keys[i], encrypted)
    ensures forall i :: !disabled && |encrypted| >= Overhead && FirstKeyNamed(keys, encrypted[..KeyNameLen], i) ==>
      && (r.Some? <==> MacValid(crypto, keys[i], encrypted))
      && (r.Some? ==> r.value.usedOldKey == (i > 0))
      && (r.Some? ==> r.value.serialized == Ctr(crypto, keys[i].aesKey, encrypted[KeyNameLen..KeyNameLen + BlockSize],
                                                encrypted[KeyNameLen + BlockSize..|encrypted| - MacSize]))
  {
    if disabled || |encrypted| < Overhead then None
    else
      var keyName := encrypted[..KeyNameLen];
      var iv: Iv := encrypted[KeyNameLen..KeyNameLen + BlockSize];
      var macBytes := encrypted[|encrypted| - MacSize..];
      match FindKey(keys, keyName)
      case None => None
      case Some(keyIndex) =>
        var key := keys[keyIndex];
        FirstKeyNamedUnique(keys, keyName, keyIndex);
        var expected := crypto.mac(key.hmacKey, encrypted[..|encrypted| - MacSize]);
        // subtle.ConstantTimeCompare: the same answer as equality, in time
        // that does not depend on where the two differ.
        if macBytes != expected then None
        else
          var ciphertext := encrypted[KeyNameLen + BlockSize..|encrypted| - MacSize];
          Some(Decrypted(Ctr(crypto, key.aesKey, iv, ciphertext), keyIndex > 0))
  }

  /** At most one position is the first with a given name. */
  lemma FirstKeyNamedUnique(keys: seq<TicketKey>, name: seq<uint8>, i: int)
    requires FirstKeyNamed(keys, name, i)
    ensures forall j :: FirstKeyNamed(keys, name, j) ==> j == i
  {
  }

  /** A ticket sealed under any key in the list opens under the list to the
      state that was sealed, flagged as old exactly when that key is not the
      current one, provided no earlier key carries the same name. */
  lemma SealOpen(crypto: Crypto, keys: seq<TicketKey>, i: nat, iv: Iv, serialized: seq<uint8>)
    requires i < |keys| && FirstKeyNamed(keys, keys[i].keyName, i)
    ensures var e := EncryptTicket(crypto, keys[i..], Some(iv), serialized).value;
      DecryptTicket(crypto, false, keys, e) == Some(Decrypted(serialized, i > 0))
  {
    var e := EncryptTicket(crypto, keys[i..], Some(iv), serialized).value;
    assert keys[i..][0] == keys[i];
    CtrTwice(crypto, keys[i].aesKey, iv, serialized);
    assert FirstKeyNamed(keys, e[..KeyNameLen], i) && MacValid(crypto, keys[i], e);
  }

  /** Round trip under the current key: the state comes back and is not
      flagged as opened with an old key. */
  lemma RoundTrip(crypto: Crypto, keys: seq<TicketKey>, iv: Iv, serialized: seq<uint8>)
    requires |keys| > 0
    ensures var e := EncryptTicket(crypto, keys, Some(iv), serialized).value;
      DecryptTicket(crypto, false, keys, e) == Some(Decrypted(serialized, false))
  {
    assert keys[0..] == keys;
    SealOpen(crypto, keys, 0, iv, serialized);
  }

  /** Conversely, every ticket Decrypt accepts is exactly what Encrypt
      produces from the payload it returns, under the key that opened it and
      the IV the ticket carries. */
  lemma OpenedWasSealed(crypto: Crypto, keys: seq<TicketKey>, encrypted: seq<uint8>)
    requires DecryptTicket(crypto, false, keys, encrypted).Some?
    ensures var d := DecryptTicket(crypto, false, keys, encrypted).value;
      && FindKey(keys, encrypted[..KeyNameLen]).Some?
      && var i := FindKey(keys, encrypted[..KeyNameLen]).value;
      && d.usedOldKey == (i > 0)
      && EncryptTicket(crypto, keys[i..], Some(encrypted[KeyNameLen..KeyNameLen + BlockSize]), d.serialized)
         == Some(encrypted)
  {
    var d := DecryptTicket(crypto, false, keys, encrypted).value;
    var i := FindKey(keys, encrypted[..KeyNameLen]).value;
    var iv: Iv := encrypted[KeyNameLen..KeyNameLen + BlockSize];
    var c := encrypted[KeyNameLen + BlockSize..|encrypted| - MacSize];
    CtrTwice(crypto, keys[i].aesKey, iv, c);
    assert Sealed(crypto, keys[i], iv, d.serialized, encrypted);
    assert keys[i..][0] == keys[i];
    var e := EncryptTicket(crypto, keys[i..], Some(iv), d.serialized).value;
    SealedUnique(crypto, keys[i], iv, d.serialized, e, encrypted);
  }

  /** The key, the IV and the payload determine the whole ticket. */
  lemma SealedUnique(crypto: Crypto, key: TicketKey, iv: Iv, serialized: seq<uint8>, e: seq<uint8>, e': seq<uint8>)
    requires Sealed(crypto, key, iv, serialized, e) && Sealed(crypto, key, iv, serialized, e')
    ensures e == e'
  {
    var n := |e|;
    assert e[..n - MacSize] == e[..KeyNameLen] + e[KeyNameLen..KeyNameLen + BlockSize] + e[KeyNameLen + BlockSize..n - MacSize];
    assert e'[..n - MacSize] == e'[..KeyNameLen] + e'[KeyNameLen..KeyNameLen + BlockSize] + e'[KeyNameLen + BlockSize..n - MacSize];
    assert e == e[..n - MacSize] + e[n - MacSize..];
    assert e' == e'[..n - MacSize] + e'[n - MacSize..];
  }

  /** Replacing the MAC of an accepted ticket with any other 32 bytes makes
      Decrypt refuse it. */
  lemma ForgedMacRejected(crypto: Crypto, keys: seq<TicketKey>, encrypted: seq<uint8>, forged: Digest)
    requires DecryptTicket(crypto, false, keys, encrypted).Some?
    requires forged != encrypted[|encrypted| - MacSize..]
    ensures DecryptTicket(crypto, false, keys, encrypted[..|encrypted| - MacSize] + forged) == None
  {
    var n := |encrypted|;
    var f := encrypted[..n - MacSize] + forged;
    assert f[..n - MacSize] == encrypted[..n - MacSize] && f[n - MacSize..] == forged;
    assert f[..KeyNameLen] == encrypted[..KeyNameLen];
  }

  /** A ticket sealed under a key whose name no key in the list carries any
      more is refused, whatever its MAC. */
  lemma RetiredKeyRejected(crypto: Crypto, retired: TicketKey, keys: seq<TicketKey>, iv: Iv, serialized: seq<uint8>)
    requires forall j :: 0 <= j < |keys| ==> keys[j].keyName != retired.keyName
    ensures DecryptTicket(crypto, false, keys, EncryptTicket(crypto, [retired], Some(iv), serialized).value) == None
  {
  }
}
