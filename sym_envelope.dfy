/**
 * `symEncrypt(msg, passphrase)` in src/modules/crypto.js: a passphrase-only
 * OpenPGP message. It holds a version-4 Symmetric-Key Encrypted Session Key
 * packet (section 5.3 of RFC 4880) that carries no encrypted key, followed by
 * a Symmetrically Encrypted Integrity Protected Data packet (section 5.13).
 * With no encrypted key in the first packet, the key the S2K specifier derives
 * from the passphrase is the session key (section 3.7.2.2).
 *
 * The OpenPGP library is the parameter `lib`: its S2K key derivation and the
 * integrity-protected cipher are functions whose internals are not modelled.
 * The 8 random salt bytes are the parameter `salt`.
 */
module SymEnvelope {
  import opened Types

  /** Symmetric-key algorithm identifiers, section 9.2 of RFC 4880. */
  datatype SymmetricAlgorithm =
    | Plaintext | Idea | TripleDes | Cast5 | Blowfish | Aes128 | Aes192 | Aes256 | Twofish
  {
    function Id(): nat
    {
      match this
      case Plaintext => 0
      case Idea => 1
      case TripleDes => 2
      case Cast5 => 3
      case Blowfish => 4
      case Aes128 => 7
      case Aes192 => 8
      case Aes256 => 9
      case Twofish => 10
    }

    /** Key length in bytes. */
    function KeySize(): nat
    {
      match this
      case Plaintext => 0
      case Idea => 16
      case TripleDes => 24
      case Cast5 => 16
      case Blowfish => 16
      case Aes128 => 16
      case Aes192 => 24
      case Aes256 => 32
      case Twofish => 32
    }
  }

  const AES256_ID: nat := 9

  /** `openpgp.enums.read(openpgp.enums.symmetric, id)`: the algorithm an identifier names, `None` for an unassigned one. */
  function ReadSymmetric(id: nat): (r: Option<SymmetricAlgorithm>)
    ensures r.Some? ==> r.value.Id() == id
    ensures r.None? <==> id == 5 || id == 6 || id > 10
  {
    match id
    case 0 => Some(Plaintext)
    case 1 => Some(Idea)
    case 2 => Some(TripleDes)
    case 3 => Some(Cast5)
    case 4 => Some(Blowfish)
    case 7 => Some(Aes128)
    case 8 => Some(Aes192)
    case 9 => Some(Aes256)
    case 10 => Some(Twofish)
    case _ => None
  }

  lemma ReadSymmetricOfId(a: SymmetricAlgorithm)
    ensures ReadSymmetric(a.Id()) == Some(a)
  {
  }

  /** An S2K salt: 8 bytes (section 3.7.1.2 of RFC 4880). */
  type Salt = s: seq<Byte> | |s| == 8 witness [0, 0, 0, 0, 0, 0, 0, 0]

  /** The S2K specifier; only its salt is set by this code, the rest are library defaults. */
  datatype S2K = S2K(salt: Option<Salt>)

  /** An entry of a packet list: a caller's plaintext packet or one of the two envelope packets. */
  datatype Packet =
    | Plain(tag: nat, body: seq<Byte>)
    | SessionKey(esk: SymEncryptedSessionKey)
    | Encrypted(seip: SymEncryptedIntegrityProtected)

  /** The library operations the envelope relies on, treated as given functions. */
  datatype Library = Library(
    /** S2K `produce_key(passphrase, keySize)` with the given salt. */
    produceKey: (string, Salt, nat) -> seq<Byte>,
    /** Serialise the plaintext packets and encrypt them with integrity protection. */
    encryptPackets: (SymmetricAlgorithm, seq<Byte>, seq<Packet>) -> seq<Byte>,
    /** The matching decryption; `None` when the integrity check fails. */
    decryptPackets: (SymmetricAlgorithm, seq<Byte>, seq<Byte>) -> Option<seq<Packet>>
  )

  /** `openpgp.packet.List`. */
  class PacketList {
    var packets: seq<Packet>

    constructor ()
      ensures packets == []
    {
      packets := [];
    }

    method Push(p: Packet)
      modifies this
      ensures packets == old(packets) + [p]
    {
      packets := packets + [p];
    }
  }

  /** `openpgp.packet.SymEncryptedSessionKey`. */
  class SymEncryptedSessionKey {
    var version: nat
    var sessionKeyAlgorithm: SymmetricAlgorithm
    var s2k: Option<S2K>
    var sessionKey: Option<seq<Byte>>

    constructor ()
      ensures s2k == None && sessionKey == None
    {
      // the library's defaults; symEncrypt sets both explicitly
      version := 4;
      sessionKeyAlgorithm := Aes256;
      s2k := None;
      sessionKey := None;
    }

    /** `decrypt(passphrase)` on a packet with no encrypted key: the S2K-derived key becomes the session key. */
    method Decrypt(passphrase: string, lib: Library)
      requires s2k.Some? && s2k.value.salt.Some?
      modifies this
      ensures version == old(version) && sessionKeyAlgorithm == old(sessionKeyAlgorithm) && s2k == old(s2k)
      ensures sessionKey == Some(lib.produceKey(passphrase, s2k.value.salt.value, sessionKeyAlgorithm.KeySize()))
    {
      sessionKey := Some(lib.produceKey(passphrase, s2k.value.salt.value, sessionKeyAlgorithm.KeySize()));
    }
  }

  /** `openpgp.packet.SymEncryptedIntegrityProtected`. */
  class SymEncryptedIntegrityProtected {
    var packets: PacketList?
    var encrypted: Option<seq<Byte>>

    /** A new packet references no packet list and holds no ciphertext. */
    constructor ()
      ensures packets == null && encrypted == None
    {
      packets := null;
      encrypted := None;
    }

    /** `encrypt(algo, key)`: encrypts the packets currently referenced. */
    method Encrypt(algo: SymmetricAlgorithm, key: seq<Byte>, lib: Library)
      requires packets != null
      modifies this
      ensures packets == old(packets)
      ensures encrypted == Some(lib.encryptPackets(algo, key, packets.packets))
    {
      encrypted := Some(lib.encryptPackets(algo, key, packets.packets));
    }
  }

  /** `openpgp.message.Message`. */
  class Message {
    var packets: PacketList

    constructor (packets: PacketList)
      ensures this.packets == packets
    {
      this.packets := packets;
    }
  }

  /** The content of an envelope packet, read off the packet object. */
  datatype EnvelopePacket =
    | SessionKeyValue(version: nat, algorithm: SymmetricAlgorithm, salt: Option<Salt>, sessionKey: Option<seq<Byte>>)
    | EncryptedValue(encrypted: Option<seq<Byte>>, plaintext: seq<Packet>)

  function SessionKeyContent(e: SymEncryptedSessionKey): EnvelopePacket
    reads e
  {
    SessionKeyValue(e.version, e.sessionKeyAlgorithm, if e.s2k.Some? then e.s2k.value.salt else None, e.sessionKey)
  }

  function EncryptedContent(s: SymEncryptedIntegrityProtected): EnvelopePacket
    requires s.packets != null
    reads s, s.packets
  {
    EncryptedValue(s.encrypted, s.packets.packets)
  }

  datatype EncryptError = EmptyPassphrase

  /** The shape of a passphrase-only envelope: [ESK v4 with AES-256 and a salt, SEIP with no retained plaintext]. */
  predicate PassphraseOnly(v: seq<EnvelopePacket>)
  {
    && |v| == 2
    && v[0].SessionKeyValue? && v[0].version == 4 && v[0].algorithm.Id() == AES256_ID
    && v[0].salt.Some? && v[0].sessionKey.Some?
    && v[1].EncryptedValue? && v[1].encrypted.Some? && v[1].plaintext == []
  }

  /** The envelope `symEncrypt` builds, as packet contents. */
  function Envelope(passphrase: Option<string>, salt: Salt, plaintext: seq<Packet>, lib: Library): (r: Result<seq<EnvelopePacket>, EncryptError>)
    ensures r.Failure? <==> !Truthy(passphrase)
    ensures r.Failure? ==> r.error == EmptyPassphrase
    ensures r.Success? ==> PassphraseOnly(r.value) && r.value[0].salt == Some(salt)
    // section 3.7.2.2 of RFC 4880: the S2K-derived key is the session key
    ensures r.Success? ==> r.value[0].sessionKey == Some(lib.produceKey(passphrase.value, salt, r.value[0].algorithm.KeySize()))
    // the data packet is encrypted with the session key packet's algorithm and key
    ensures r.Success? ==> r.value[1].encrypted == Some(lib.encryptPackets(r.value[0].algorithm, r.value[0].sessionKey.value, plaintext))
  {
    if !Truthy(passphrase) then Failure(EmptyPassphrase)
    else
      var key := lib.produceKey(passphrase.value, salt, Aes256.KeySize());
      Success([SessionKeyValue(4, Aes256, Some(salt), Some(key)),
               EncryptedValue(Some(lib.encryptPackets(Aes256, key, plaintext)), [])])
  }

  /** `symEncrypt`: builds the two packets step by step and returns a new message holding them. */
  method SymEncrypt(msg: Message, passphrase: Option<string>, salt: Salt, lib: Library) returns (r: Result<Message, EncryptError>)
    ensures r.Failure? <==> !Truthy(passphrase)
    ensures r.Failure? ==> r.error == EmptyPassphrase
    ensures r.Success? ==>
      var list := r.value.packets;
      && fresh(r.value) && fresh(list) && |list.packets| == 2
      && list.packets[0].SessionKey? && fresh(list.packets[0].esk)
      && list.packets[1].Encrypted? && fresh(list.packets[1].seip) && fresh(list.packets[1].seip.packets)
      && Envelope(passphrase, salt, msg.packets.packets, lib)
         == Success([SessionKeyContent(list.packets[0].esk), EncryptedContent(list.packets[1].seip)])
  {
    if !Truthy(passphrase) {
      return Failure(EmptyPassphrase);
    }
    var algo := ReadSymmetric(AES256_ID).value;
    assert algo == Aes256;
    var packetlist := new PacketList();

    var symESKPacket := new SymEncryptedSessionKey();
    symESKPacket.version := 4;
    symESKPacket.sessionKeyAlgorithm := algo;
    symESKPacket.s2k := Some(S2K(None));
    symESKPacket.s2k := Some(symESKPacket.s2k.value.(salt := Some(salt)));
    symESKPacket.Decrypt(passphrase.value, lib);
    packetlist.Push(SessionKey(symESKPacket));
    ghost var key := lib.produceKey(passphrase.value, salt, Aes256.KeySize());
    assert SessionKeyContent(symESKPacket) == SessionKeyValue(4, Aes256, Some(salt), Some(key));

    var symEncryptedPacket := new SymEncryptedIntegrityProtected();
    symEncryptedPacket.packets := msg.packets;
    symEncryptedPacket.Encrypt(algo, symESKPacket.sessionKey.value, lib);
    packetlist.Push(Encrypted(symEncryptedPacket));
    ghost var ciphertext := lib.encryptPackets(Aes256, key, msg.packets.packets);
    assert symEncryptedPacket.encrypted == Some(ciphertext);

    symEncryptedPacket.packets := new PacketList();
    assert EncryptedContent(symEncryptedPacket) == EncryptedValue(Some(ciphertext), []);
    assert packetlist.packets == [SessionKey(symESKPacket), Encrypted(symEncryptedPacket)];
    var message := new Message(packetlist);
    return Success(message);
  }

  // ---------------------------------------------------------------------------
  // The receiving side, as section 5.13 of RFC 4880 describes it.
  // ---------------------------------------------------------------------------

  /** Decrypting a passphrase-only envelope: derive the key from the salt, then open the data packet. */
  function Open(v: seq<EnvelopePacket>, passphrase: string, lib: Library): (r: Option<seq<Packet>>)
  {
    if |v| == 2 && v[0].SessionKeyValue? && v[0].salt.Some? && v[1].EncryptedValue? && v[1].encrypted.Some? then
      var key := lib.produceKey(passphrase, v[0].salt.value, v[0].algorithm.KeySize());
      lib.decryptPackets(v[0].algorithm, key, v[1].encrypted.value)
    else None
  }

  /** The cipher decrypts `ps` after encrypting it under the same algorithm and key. */
  ghost predicate CipherRoundTrips(lib: Library, ps: seq<Packet>)
  {
    forall a, k :: lib.decryptPackets(a, k, lib.encryptPackets(a, k, ps)) == Some(ps)
  }

  /** The integrity check rejects the encryption of `ps` opened under a different key. */
  ghost predicate CipherRejectsOtherKeys(lib: Library, ps: seq<Packet>)
  {
    forall a, k1, k2 :: k1 != k2 ==> lib.decryptPackets(a, k2, lib.encryptPackets(a, k1, ps)) == None
  }

  /** Opening the envelope with the same passphrase recovers the plaintext packets. */
  lemma EnvelopeRoundTrip(passphrase: string, salt: Salt, plaintext: seq<Packet>, lib: Library)
    requires passphrase != "" && CipherRoundTrips(lib, plaintext)
    ensures Open(Envelope(Some(passphrase), salt, plaintext, lib).value, passphrase, lib) == Some(plaintext)
  {
  }

  /** A passphrase that derives a different key cannot open the envelope. */
  lemma WrongPassphraseRejected(passphrase: string, other: string, salt: Salt, plaintext: seq<Packet>, lib: Library)
    requires passphrase != "" && CipherRejectsOtherKeys(lib, plaintext)
    requires lib.produceKey(other, salt, Aes256.KeySize()) != lib.produceKey(passphrase, salt, Aes256.KeySize())
    ensures Open(Envelope(Some(passphrase), salt, plaintext, lib).value, other, lib) == None
  {
  }
}
