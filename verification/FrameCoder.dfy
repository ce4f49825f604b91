/**
 The frame coder of libp2p/RLPXFrameCoder.cpp: key and MAC set-up on both ends of a
 handshake, and the running cipher stream and MAC of each direction. The cryptographic
 functions are parameters with the few laws the code relies on.
 */
module FrameCoder {
  import opened Bytes
  import opened Wrappers
  import opened Bits

  type Bytes32 = s: seq<byte> | |s| == 32 witness Zeros(32)
  type Bytes16 = s: seq<byte> | |s| == 16 witness Zeros(16)

  /**
   keystream is AES-CTR at a stream position, keccak the digest of a transcript, cipher one
   AES block, agree the Diffie-Hellman agreement of a secret with a public key.
   */
  datatype Primitives = Primitives(
    keystream: (Bytes32, nat) -> byte,
    keccak: seq<byte> -> Bytes32,
    cipher: (Bytes32, Bytes16) -> Bytes16,
    publicOf: Bytes32 -> seq<byte>,
    agree: (Bytes32, seq<byte>) -> Option<Bytes32>)

  /** Both ends of an exchange agree on the same secret, or both fail. */
  ghost predicate Commutes(crypto: Primitives) {
    forall a: Bytes32, b: Bytes32 :: crypto.agree(a, crypto.publicOf(b)) == crypto.agree(b, crypto.publicOf(a))
  }

  /** The law can be met: exclusive or with a published secret is such an agreement. */
  lemma SomeAgreementCommutes(crypto: Primitives)
    requires forall a: Bytes32 :: crypto.publicOf(a) == a
    requires forall a: Bytes32, p: Bytes32 :: crypto.agree(a, p) == Some(XorBytes(a, p))
    ensures Commutes(crypto)
  {
    forall a: Bytes32, b: Bytes32 ensures crypto.agree(a, crypto.publicOf(b)) == crypto.agree(b, crypto.publicOf(a)) {
      forall i | 0 <= i < 32 ensures XorBytes(a, b)[i] == XorBytes(b, a)[i] {
        XorCommutes(a[i] as nat, b[i] as nat);
      }
      assert XorBytes(a, b) == XorBytes(b, a);
    }
  }

  /** One direction of a connection: stream key and position, MAC key and MAC transcript. */
  datatype Direction = Direction(key: Bytes32, pos: nat, macKey: Bytes32, mac: seq<byte>)

  datatype Coder = Coder(egress: Direction, ingress: Direction)

  /** The two coders speak to each other: what one sends through, the other receives through. */
  predicate Crossed(a: Coder, b: Coder) {
    a.egress == b.ingress && b.egress == a.ingress
  }

  /** The secrets derived from the agreed one and the nonces of recipient and initiator. */
  function Secrets(crypto: Primitives, shared: Bytes32, recipientNonce: Bytes32, initiatorNonce: Bytes32)
    : (r: (Bytes32, Bytes32))
  {
    var session := crypto.keccak(shared + crypto.keccak(recipientNonce + initiatorNonce));
    var aes := crypto.keccak(shared + session);
    (aes, crypto.keccak(shared + aes))
  }

  /** The coder of one end: its own nonce seeds what it receives, the other end's what it sends. */
  function Established(crypto: Primitives, originated: bool, remoteEphemeral: seq<byte>, remoteNonce: Bytes32,
      local: Bytes32, nonce: Bytes32, ackCipher: seq<byte>, authCipher: seq<byte>): (r: Option<Coder>)
  {
    match crypto.agree(local, remoteEphemeral)
    case None => None
    case Some(shared) =>
      var (aes, mac) := if originated then Secrets(crypto, shared, remoteNonce, nonce)
                        else Secrets(crypto, shared, nonce, remoteNonce);
      var sent, received := if originated then authCipher else ackCipher, if originated then ackCipher else authCipher;
      Some(Coder(Direction(aes, 0, mac, XorBytes(mac, remoteNonce) + sent),
                 Direction(aes, 0, mac, XorBytes(mac, nonce) + received)))
  }

  /** Both ends of one handshake get crossed coders, or neither gets one. */
  lemma SetupCrosses(crypto: Primitives, initiator: Bytes32, recipient: Bytes32,
      initiatorNonce: Bytes32, recipientNonce: Bytes32, ackCipher: seq<byte>, authCipher: seq<byte>)
    requires Commutes(crypto)
    ensures
      var a := Established(crypto, true, crypto.publicOf(recipient), recipientNonce, initiator, initiatorNonce,
                           ackCipher, authCipher);
      var b := Established(crypto, false, crypto.publicOf(initiator), initiatorNonce, recipient, recipientNonce,
                           ackCipher, authCipher);
      (a.Some? <==> b.Some?) && (a.Some? ==> Crossed(a.value, b.value))
  {
    assert crypto.agree(initiator, crypto.publicOf(recipient)) == crypto.agree(recipient, crypto.publicOf(initiator));
  }

  /**
   The key schedule of the RLPx transport, by role: the recipient's nonce goes first into the secrets,
   and each end seeds what it sends with the other's nonce and its own handshake message.
   */
  lemma KeySchedule(crypto: Primitives, remoteEphemeral: seq<byte>, local: Bytes32, shared: Bytes32,
      initiatorNonce: Bytes32, recipientNonce: Bytes32, ackCipher: seq<byte>, authCipher: seq<byte>)
    requires crypto.agree(local, remoteEphemeral) == Some(shared)
    ensures
      var aes := crypto.keccak(shared + crypto.keccak(shared + crypto.keccak(recipientNonce + initiatorNonce)));
      var mac := crypto.keccak(shared + aes);
      var there := Direction(aes, 0, mac, XorBytes(mac, recipientNonce) + authCipher);
      var back := Direction(aes, 0, mac, XorBytes(mac, initiatorNonce) + ackCipher);
      && Established(crypto, true, remoteEphemeral, recipientNonce, local, initiatorNonce, ackCipher, authCipher)
         == Some(Coder(there, back))
      && Established(crypto, false, remoteEphemeral, initiatorNonce, local, recipientNonce, ackCipher, authCipher)
         == Some(Coder(back, there))
  {
  }

  /** The set-up as the source does it, in one key-material buffer whose halves are overwritten in turn. */
  method Setup(crypto: Primitives, originated: bool, remoteEphemeral: seq<byte>, remoteNonce: Bytes32,
      local: Bytes32, nonce: Bytes32, ackCipher: seq<byte>, authCipher: seq<byte>) returns (r: Option<Coder>)
    ensures r == Established(crypto, originated, remoteEphemeral, remoteNonce, local, nonce, ackCipher, authCipher)
  {
    var agreed := crypto.agree(local, remoteEphemeral);
    if agreed.None? {
      return None;
    }
    var shared: seq<byte> := agreed.value;
    var leftNonce, rightNonce := if originated then remoteNonce else nonce, if originated then nonce else remoteNonce;
    var keyMaterial: seq<byte> := shared + crypto.keccak(leftNonce + rightNonce);
    keyMaterial := keyMaterial[..32] + crypto.keccak(keyMaterial);
    assert keyMaterial[..32] == shared;
    keyMaterial := keyMaterial[..32] + crypto.keccak(keyMaterial);
    assert keyMaterial[..32] == shared;
    var aes := keyMaterial[32..];
    keyMaterial := keyMaterial[..32] + crypto.keccak(keyMaterial);
    var mac := keyMaterial[32..];

    keyMaterial := XorBytes(keyMaterial[32..], remoteNonce) + keyMaterial[32..];
    var egressCipher := if originated then authCipher else ackCipher;
    keyMaterial := keyMaterial[..32] + egressCipher;
    var egress := Direction(aes, 0, mac, keyMaterial);

    XorBytesUndoes(mac, remoteNonce);
    keyMaterial := XorBytes(XorBytes(keyMaterial[..32], remoteNonce), nonce) + keyMaterial[32..];
    var ingressCipher := if originated then ackCipher else authCipher;
    keyMaterial := keyMaterial[..32] + ingressCipher;
    var ingress := Direction(aes, 0, mac, keyMaterial);
    r := Some(Coder(egress, ingress));
  }

  /** The stream cipher from position pos on; applying it twice gives the bytes back. */
  function Ctr(crypto: Primitives, key: Bytes32, pos: nat, s: seq<byte>): (r: seq<byte>)
    ensures |r| == |s| && forall i :: 0 <= i < |s| ==> r[i] == XorByte(s[i], crypto.keystream(key, pos + i))
  {
    seq(|s|, i requires 0 <= i < |s| => XorByte(s[i], crypto.keystream(key, pos + i)))
  }

  lemma CtrUndoes(crypto: Primitives, key: Bytes32, pos: nat, s: seq<byte>)
    ensures Ctr(crypto, key, pos, Ctr(crypto, key, pos, s)) == s
  {
    forall i | 0 <= i < |s| ensures Ctr(crypto, key, pos, Ctr(crypto, key, pos, s))[i] == s[i] {
      XorUndoes(s[i] as nat, crypto.keystream(key, pos + i) as nat);
    }
  }

  lemma CtrConcat(crypto: Primitives, key: Bytes32, pos: nat, s: seq<byte>, t: seq<byte>)
    ensures Ctr(crypto, key, pos, s + t) == Ctr(crypto, key, pos, s) + Ctr(crypto, key, pos + |s|, t)
  {
  }

  function Digest(crypto: Primitives, mac: seq<byte>): (r: Bytes16)
  {
    crypto.keccak(mac)[..16]
  }

  /** Feeds the transcript its own encrypted digest, mixed with the seed if there is one. */
  function UpdatedMac(crypto: Primitives, macKey: Bytes32, mac: seq<byte>, seed: Option<Bytes16>): (r: seq<byte>)
  {
    var digest := Digest(crypto, mac);
    mac + XorBytes(crypto.cipher(macKey, digest), if seed.Some? then seed.value else digest)
  }

  function Padding(len: nat): (r: nat)
    ensures (len + r) % 16 == 0 && r < 16
  {
    (16 - len % 16) % 16
  }

  function Padded(payload: seq<byte>): (r: seq<byte>)
    ensures |r| == |payload| + Padding(|payload|) && payload <= r
  {
    payload + Zeros(Padding(|payload|))
  }

  function HeaderBlock(header: seq<byte>): (r: Bytes16)
    requires |header| <= 16
  {
    header + Zeros(16 - |header|)
  }

  /** A direction after a header ciphertext went through it. */
  function AfterHeader(crypto: Primitives, d: Direction, cipherText: Bytes16): (r: Direction)
  {
    d.(pos := d.pos + 16, mac := UpdatedMac(crypto, d.macKey, d.mac, Some(cipherText)))
  }

  function AfterBody(crypto: Primitives, d: Direction, cipherText: seq<byte>): (r: Direction)
  {
    d.(pos := d.pos + |cipherText|, mac := UpdatedMac(crypto, d.macKey, d.mac + cipherText, None))
  }

  /** The bytes of one frame and the direction after it. */
  function Sealed(crypto: Primitives, d: Direction, header: seq<byte>, payload: seq<byte>): (r: (Direction, seq<byte>))
    requires |header| <= 16
    ensures |r.1| == 32 + |payload| + Padding(|payload|) + 16
  {
    var headerCipher := Ctr(crypto, d.key, d.pos, HeaderBlock(header));
    var d1 := AfterHeader(crypto, d, headerCipher);
    var bodyCipher := Ctr(crypto, d.key, d1.pos, Padded(payload));
    var d2 := AfterBody(crypto, d1, bodyCipher);
    (d2, headerCipher + Digest(crypto, d1.mac) + bodyCipher + Digest(crypto, d2.mac))
  }

  /** Authenticates and decrypts the first 32 bytes of a frame: its header and the MAC behind it. */
  function OpenedHeader(crypto: Primitives, d: Direction, io: Bytes32): (r: Option<(Direction, Bytes32)>)
  {
    var d1 := AfterHeader(crypto, d, io[..16]);
    if io[16..] != Digest(crypto, d1.mac) then None
    else Some((d1, Ctr(crypto, d.key, d.pos, io[..16]) + io[16..]))
  }

  /** Authenticates and decrypts the rest of a frame, which ends in its MAC. */
  function OpenedBody(crypto: Primitives, d: Direction, io: seq<byte>): (r: Option<(Direction, seq<byte>)>)
    requires |io| >= 16
  {
    var cipherText := io[..|io| - 16];
    var d1 := AfterBody(crypto, d, cipherText);
    if io[|io| - 16..] != Digest(crypto, d1.mac) then None
    else Some((d1, Ctr(crypto, d.key, d.pos, cipherText)))
  }

  /**
   A header is accepted exactly if it ends in the digest of the transcript that its ciphertext was
   mixed into; the body is then checked against that transcript.
   */
  lemma HeaderAcceptedIff(crypto: Primitives, d: Direction, io: Bytes32)
    ensures
      var mixed := XorBytes(crypto.cipher(d.macKey, crypto.keccak(d.mac)[..16]), io[..16]);
      && (OpenedHeader(crypto, d, io).Some? <==> io[16..] == crypto.keccak(d.mac + mixed)[..16])
      && (OpenedHeader(crypto, d, io).Some? ==>
            OpenedHeader(crypto, d, io).value
            == (Direction(d.key, d.pos + 16, d.macKey, d.mac + mixed), Ctr(crypto, d.key, d.pos, io[..16]) + io[16..]))
  {
  }

  /**
   A body is accepted exactly if it ends in the digest of the transcript that absorbed its ciphertext
   and was mixed with its own digest; the next frame is then checked against that transcript.
   */
  lemma BodyAcceptedIff(crypto: Primitives, d: Direction, io: seq<byte>)
    requires |io| >= 16
    ensures
      var absorbed := d.mac + io[..|io| - 16];
      var digest := crypto.keccak(absorbed)[..16];
      var after := absorbed + XorBytes(crypto.cipher(d.macKey, digest), digest);
      && (OpenedBody(crypto, d, io).Some? <==> io[|io| - 16..] == crypto.keccak(after)[..16])
      && (OpenedBody(crypto, d, io).Some? ==>
            OpenedBody(crypto, d, io).value
            == (Direction(d.key, d.pos + |io| - 16, d.macKey, after), Ctr(crypto, d.key, d.pos, io[..|io| - 16])))
  {
  }

  /** The bytes of a frame on the wire: 16 of header, its MAC, the padded payload, its MAC. */
  lemma FrameLayout(crypto: Primitives, d: Direction, header: seq<byte>, payload: seq<byte>)
    requires |header| <= 16
    ensures
      var (d2, frame) := Sealed(crypto, d, header, payload);
      var n := |payload| + (16 - |payload| % 16) % 16;
      && |frame| == 32 + n + 16
      && frame[..16] == Ctr(crypto, d.key, d.pos, header + Zeros(16 - |header|))
      && frame[32..32 + n] == Ctr(crypto, d.key, d.pos + 16, payload + Zeros(n - |payload|))
      && d2.key == d.key && d2.macKey == d.macKey && d2.pos == d.pos + 16 + n
  {
    hide AfterHeader, AfterBody, Digest, Ctr;
    var headerCipher := Ctr(crypto, d.key, d.pos, HeaderBlock(header));
    var d1 := AfterHeader(crypto, d, headerCipher);
    var bodyCipher := Ctr(crypto, d.key, d1.pos, Padded(payload));
    var d2 := AfterBody(crypto, d1, bodyCipher);
    HeaderKeeps(crypto, d, headerCipher);
    BodyKeeps(crypto, d1, bodyCipher);
    FourParts(headerCipher, Digest(crypto, d1.mac), bodyCipher, Digest(crypto, d2.mac));
  }

  lemma FourParts(a: Bytes16, b: Bytes16, c: seq<byte>, d: Bytes16)
    ensures var s := a + b + c + d;
            s[..16] == a && s[16..32] == b && s[32..32 + |c|] == c && s[32 + |c|..] == d
  {
  }

  /**
   Only what was sealed is opened: bytes are accepted as a frame exactly if they are the frame that
   the same direction seals for some header block and some padded body, which are then what they open to.
   */
  lemma OpensIffSealed(crypto: Primitives, d: Direction, frame: seq<byte>, block: Bytes16, body: seq<byte>)
    requires |frame| >= 48 && |frame| % 16 == 0
    ensures
      var first := OpenedHeader(crypto, d, frame[..32]);
      var last := if first.None? then None else OpenedBody(crypto, first.value.0, frame[32..]);
      (last.Some? && first.value.1[..16] == block && last.value.1 == body)
      <==> |body| % 16 == 0 && Sealed(crypto, d, block, body).1 == frame
  {
    var first := OpenedHeader(crypto, d, frame[..32]);
    var last := if first.None? then None else OpenedBody(crypto, first.value.0, frame[32..]);
    if last.Some? && first.value.1[..16] == block && last.value.1 == body {
      OpenedIsSealed(crypto, d, frame, block, body);
    }
    if |body| % 16 == 0 && Sealed(crypto, d, block, body).1 == frame {
      SealedOpens(crypto, d, block, body);
      NothingToPad(body);
      assert block + Zeros(0) == block;
    }
  }

  lemma NothingToPad(body: seq<byte>)
    requires |body| % 16 == 0
    ensures Padded(body) == body
  {
  }

  lemma OpenedIsSealed(crypto: Primitives, d: Direction, frame: seq<byte>, block: Bytes16, body: seq<byte>)
    requires |frame| >= 48 && |frame| % 16 == 0
    requires var first := OpenedHeader(crypto, d, frame[..32]);
             && first.Some? && first.value.1[..16] == block
             && var last := OpenedBody(crypto, first.value.0, frame[32..]);
                last.Some? && last.value.1 == body
    ensures |body| % 16 == 0 && Sealed(crypto, d, block, body).1 == frame
  {
    hide AfterHeader, AfterBody, Digest;
    var c, b := frame[..16], frame[32..|frame| - 16];
    var d1 := OpenedHeader(crypto, d, frame[..32]).value.0;
    assert frame[..32][..16] == c && frame[..32][16..] == frame[16..32];
    assert frame[32..][..|frame[32..]| - 16] == b && frame[32..][|frame[32..]| - 16..] == frame[|frame| - 16..];
    CtrUndoes(crypto, d.key, d.pos, c);
    assert block == Ctr(crypto, d.key, d.pos, c);
    CtrUndoes(crypto, d1.key, d1.pos, b);
    HeaderKeeps(crypto, d, c);
    NothingToPad(body);
    assert HeaderBlock(block) == block;
    assert frame == c + frame[16..32] + b + frame[|frame| - 16..];
  }

  lemma HeaderKeeps(crypto: Primitives, d: Direction, c: Bytes16)
    ensures AfterHeader(crypto, d, c).key == d.key && AfterHeader(crypto, d, c).macKey == d.macKey
    ensures AfterHeader(crypto, d, c).pos == d.pos + 16
  {
  }

  lemma BodyKeeps(crypto: Primitives, d: Direction, c: seq<byte>)
    ensures AfterBody(crypto, d, c).key == d.key && AfterBody(crypto, d, c).macKey == d.macKey
    ensures AfterBody(crypto, d, c).pos == d.pos + |c|
  {
  }

  /**
   What one end seals the other end opens: header and body are accepted, the plaintext comes
   back with its padding, and the receiving direction ends where the sending one did.
   */
  lemma SealedOpens(crypto: Primitives, d: Direction, header: seq<byte>, payload: seq<byte>)
    requires |header| <= 16
    ensures
      var (d2, frame) := Sealed(crypto, d, header, payload);
      var first := OpenedHeader(crypto, d, frame[..32]);
      && first.Some?
      && first.value.1[..16] == HeaderBlock(header)
      && OpenedBody(crypto, first.value.0, frame[32..]) == Some((d2, Padded(payload)))
  {
    var headerCipher := Ctr(crypto, d.key, d.pos, HeaderBlock(header));
    var d1 := AfterHeader(crypto, d, headerCipher);
    var bodyCipher := Ctr(crypto, d.key, d1.pos, Padded(payload));
    var d2 := AfterBody(crypto, d1, bodyCipher);
    HeaderOpens(crypto, d, HeaderBlock(header));
    BodyOpens(crypto, d1, Padded(payload));
    SplitAt32(headerCipher + Digest(crypto, d1.mac), bodyCipher, Digest(crypto, d2.mac));
  }

  lemma SplitAt32(a: Bytes32, b: seq<byte>, c: seq<byte>)
    ensures (a + b + c)[..32] == a && (a + b + c)[32..] == b + c
  {
  }

  lemma HeaderOpens(crypto: Primitives, d: Direction, block: Bytes16)
    ensures
      var c := Ctr(crypto, d.key, d.pos, block);
      var d1 := AfterHeader(crypto, d, c);
      var mac := Digest(crypto, d1.mac);
      OpenedHeader(crypto, d, c + mac) == Some((d1, block + mac))
  {
    var c := Ctr(crypto, d.key, d.pos, block);
    var mac := Digest(crypto, AfterHeader(crypto, d, c).mac);
    assert (c + mac)[..16] == c && (c + mac)[16..] == mac;
    CtrUndoes(crypto, d.key, d.pos, block);
  }

  lemma BodyOpens(crypto: Primitives, d: Direction, body: seq<byte>)
    ensures
      var c := Ctr(crypto, d.key, d.pos, body);
      var d1 := AfterBody(crypto, d, c);
      OpenedBody(crypto, d, c + Digest(crypto, d1.mac)) == Some((d1, body))
  {
    var c := Ctr(crypto, d.key, d.pos, body);
    var mac := Digest(crypto, AfterBody(crypto, d, c).mac);
    assert (c + mac)[..|c|] == c && (c + mac)[|c|..] == mac;
    CtrUndoes(crypto, d.key, d.pos, body);
  }

  /** The coder object: buffers are encrypted and decrypted in place while its two directions advance. */
  class RlpxFrameCoder {
    const crypto: Primitives
    var egress: Direction
    var ingress: Direction

    ghost function State(): (c: Coder)
      reads this
    {
      Coder(egress, ingress)
    }

    constructor (crypto: Primitives, coder: Coder)
      ensures this.crypto == crypto && State() == coder
    {
      this.crypto := crypto;
      egress, ingress := coder.egress, coder.ingress;
    }

    /** Applies the stream cipher to buf[lo..hi] in place. */
    method ProcessData(key: Bytes32, pos: nat, buf: array<byte>, lo: nat, hi: nat)
      requires lo <= hi <= buf.Length
      modifies buf
      ensures forall j :: 0 <= j < lo || hi <= j < buf.Length ==> buf[j] == old(buf[j])
      ensures buf[lo..hi] == Ctr(crypto, key, pos, old(buf[lo..hi]))
    {
      for i := lo to hi
        invariant forall j :: 0 <= j < lo || i <= j < buf.Length ==> buf[j] == old(buf[j])
        invariant forall j :: lo <= j < i ==> buf[j] == XorByte(old(buf[j]), crypto.keystream(key, pos + (j - lo)))
      {
        buf[i] := XorByte(buf[i], crypto.keystream(key, pos + (i - lo)));
      }
    }

    /** Overwrites buf[at..] with s, leaving what lies around it. */
    method CopyInto(s: seq<byte>, buf: array<byte>, at: nat)
      requires at + |s| <= buf.Length
      modifies buf
      ensures buf[at..at + |s|] == s
      ensures forall j :: 0 <= j < at || at + |s| <= j < buf.Length ==> buf[j] == old(buf[j])
    {
      for i := 0 to |s|
        invariant forall j :: 0 <= j < at || at + i <= j < buf.Length ==> buf[j] == old(buf[j])
        invariant forall j :: 0 <= j < i ==> buf[at + j] == s[j]
      {
        buf[at + i] := s[i];
      }
    }

    /** Authenticates and decrypts a header in place; a wrong MAC leaves the bytes alone. */
    method AuthAndDecryptHeader(io: array<byte>) returns (ok: bool)
      requires io.Length == 32
      modifies this`ingress, io
      ensures var r := OpenedHeader(crypto, old(ingress), old(io[..]));
              && (ok <==> r.Some?)
              && (ok ==> ingress == r.value.0 && io[..] == r.value.1)
              && (!ok ==> io[..] == old(io[..]))
    {
      ghost var before := io[..];
      var headerCipher := io[..16];
      ingress := ingress.(mac := UpdatedMac(crypto, ingress.macKey, ingress.mac, Some(headerCipher)));
      if io[16..32] != Digest(crypto, ingress.mac) {
        return false;
      }
      ProcessData(ingress.key, ingress.pos, io, 0, 16);
      ingress := ingress.(pos := ingress.pos + 16);
      assert io[..] == io[0..16] + io[16..];
      return true;
    }

    /** Authenticates and decrypts a frame body in place. */
    method AuthAndDecryptFrame(io: array<byte>) returns (ok: bool)
      requires io.Length >= 16
      modifies this`ingress, io
      ensures var r := OpenedBody(crypto, old(ingress), old(io[..]));
              && (ok <==> r.Some?)
              && (ok ==> ingress == r.value.0 && io[..io.Length - 16] == r.value.1)
              && (!ok ==> io[..] == old(io[..]))
    {
      var n := io.Length - 16;
      var cipherText := io[..n];
      assert io[..][..n] == cipherText && io[..][n..] == io[n..];
      ingress := ingress.(mac := UpdatedMac(crypto, ingress.macKey, ingress.mac + cipherText, None));
      if io[n..] != Digest(crypto, ingress.mac) {
        return false;
      }
      ProcessData(ingress.key, ingress.pos, io, 0, n);
      ingress := ingress.(pos := ingress.pos + n);
      return true;
    }

    /** Fills the first 32 bytes of a zeroed buffer with a header and its MAC. */
    method SealHeader(header: seq<byte>, out: array<byte>)
      requires |header| <= 16 && out.Length >= 32 && forall i :: 0 <= i < 32 ==> out[i] == 0
      modifies this`egress, out
      ensures var c := Ctr(crypto, old(egress).key, old(egress).pos, HeaderBlock(header));
              && egress == AfterHeader(crypto, old(egress), c)
              && out[..32] == c + Digest(crypto, egress.mac)
      ensures forall j :: 32 <= j < out.Length ==> out[j] == old(out[j])
    {
      CopyInto(header, out, 0);
      assert out[0..16] == HeaderBlock(header);
      ProcessData(egress.key, egress.pos, out, 0, 16);
      var headerCipher := out[0..16];
      egress := egress.(pos := egress.pos + 16, mac := UpdatedMac(crypto, egress.macKey, egress.mac, Some(headerCipher)));
      CopyInto(Digest(crypto, egress.mac), out, 16);
      assert out[..32] == out[0..16] + out[16..32];
    }

    /** Encrypts payload and then padding into buffer bytes that are zero behind the payload. */
    method EncryptBody(payload: seq<byte>, padding: nat, out: array<byte>)
      requires out.Length >= 32 + |payload| + padding
      requires forall i :: 32 <= i < out.Length ==> out[i] == 0
      modifies this`egress, out
      ensures out[32..32 + |payload| + padding]
           == Ctr(crypto, old(egress).key, old(egress).pos, payload + Zeros(padding))
      ensures forall j :: 0 <= j < 32 ==> out[j] == old(out[j])
      ensures egress == old(egress).(pos := old(egress).pos + |payload| + padding)
    {
      hide Xor, Ctr, Zeros;
      var k := 32 + |payload|;
      EncryptPayload(payload, out);
      ghost var body := out[32..k];
      EncryptPadding(padding, out, k);
      CtrConcat(crypto, egress.key, old(egress).pos, payload, Zeros(padding));
      assert out[32..k] == body;
      assert out[32..k + padding] == out[32..k] + out[k..k + padding];
    }

    method EncryptPayload(payload: seq<byte>, out: array<byte>)
      requires out.Length >= 32 + |payload|
      modifies this`egress, out
      ensures out[32..32 + |payload|] == Ctr(crypto, old(egress).key, old(egress).pos, payload)
      ensures forall j :: 0 <= j < 32 || 32 + |payload| <= j < out.Length ==> out[j] == old(out[j])
      ensures egress == old(egress).(pos := old(egress).pos + |payload|)
    {
      hide Xor, Ctr;
      CopyInto(payload, out, 32);
      ProcessData(egress.key, egress.pos, out, 32, 32 + |payload|);
      egress := egress.(pos := egress.pos + |payload|);
    }

    /** Encrypts the zeros behind the payload, if there are any. */
    method EncryptPadding(padding: nat, out: array<byte>, k: nat)
      requires k + padding <= out.Length && forall i :: k <= i < k + padding ==> out[i] == 0
      modifies this`egress, out
      ensures out[k..k + padding] == Ctr(crypto, old(egress).key, old(egress).pos, Zeros(padding))
      ensures forall j :: 0 <= j < k ==> out[j] == old(out[j])
      ensures egress == old(egress).(pos := old(egress).pos + padding)
    {
      hide Xor;
      assert out[k..k + padding] == Zeros(padding);
      if padding != 0 {
        ProcessData(egress.key, egress.pos, out, k, k + padding);
        egress := egress.(pos := egress.pos + padding);
      }
    }

    /** Builds one frame: header block, its MAC, payload with padding, its MAC. */
    method WriteFrame(header: seq<byte>, payload: seq<byte>) returns (out: array<byte>)
      requires |header| <= 16
      modifies this`egress
      ensures fresh(out)
      ensures (egress, out[..]) == Sealed(crypto, old(egress), header, payload)
    {
      var padding := (16 - |payload| % 16) % 16;
      var n := 32 + |payload| + padding;
      out := new byte[n + 16](_ => 0);
      SealHeader(header, out);
      ghost var front, d1 := out[..32], egress;
      EncryptBody(payload, padding, out);
      var cipherText := out[32..n];
      egress := egress.(mac := UpdatedMac(crypto, egress.macKey, egress.mac + cipherText, None));
      assert egress == AfterBody(crypto, d1, cipherText);
      CopyInto(Digest(crypto, egress.mac), out, n);
      JoinParts(out[..], front, cipherText, Digest(crypto, egress.mac));
    }
  }

  lemma JoinParts<T>(s: seq<T>, a: seq<T>, b: seq<T>, c: seq<T>)
    requires |s| == |a| + |b| + |c|
    requires s[..|a|] == a && s[|a|..|a| + |b|] == b && s[|a| + |b|..] == c
    ensures s == a + b + c
  {
  }
}
