/** The transcript bookkeeping of `gip_auth_handshake` in gip_init.py, against a peer that follows
    the same protocol. Hash, HMAC, RSA and ECDH are arbitrary functions. */
module Handshake {
  import opened ByteSeqs
  import opened Prf
  import AuthLink
  import AuthRecv
  import AuthSend
  import Endpoint
  import Gip

  const OPT_ACK: byte := 0x01
  const OPT_REQUEST: byte := 0x02
  const OPT_FROM_HOST: byte := 0x40
  const TRAILER_LEN: nat := 8

  // ------------------------------------------------------------ payloads

  /** A handshake payload must fit the 16-bit length of its header. */
  predicate Framable(inner: Bytes) { |inner| + 4 < 0x1_0000 }

  /** `_auth_hs_hdr` */
  function HsHdr(options: byte, cmd: byte, len: nat): Bytes
    requires len < 0x1_0000
  {
    [0x00, options, 0x00, cmd] + Be16(len)
  }

  /** `_auth_data_hdr` and the data behind it: the part the transcript covers. */
  function DataPart(cmd: byte, version: byte, inner: Bytes): Bytes
    requires Framable(inner)
  {
    [cmd, version] + Be16(|inner|) + inner
  }

  /** `_auth_build`: a host payload, with the trailer of zeros behind it. */
  function AuthBuild(cmd: byte, version: byte, inner: Bytes): Bytes
    requires Framable(inner)
  {
    HsHdr(OPT_ACK + OPT_FROM_HOST, cmd, |inner| + 4) + DataPart(cmd, version, inner) + Zeros(TRAILER_LEN)
  }

  /** The payload byte for byte: both lengths are big-endian, the first covers the data header too. */
  lemma PayloadLayout(cmd: byte, version: byte, inner: Bytes)
    requires Framable(inner)
    ensures var p, n := AuthBuild(cmd, version, inner), |inner|;
            p == [0x00, 0x41, 0x00, cmd, ((n + 4) / 256) as byte, ((n + 4) % 256) as byte,
                  cmd, version, (n / 256) as byte, (n % 256) as byte] + inner + [0, 0, 0, 0, 0, 0, 0, 0]
    ensures var p, n := DeviceBuild(cmd, version, inner), |inner|;
            p == [0x00, 0x00, 0x00, cmd, ((n + 4) / 256) as byte, ((n + 4) % 256) as byte,
                  cmd, version, (n / 256) as byte, (n % 256) as byte] + inner
  {
    assert Zeros(TRAILER_LEN) == [0, 0, 0, 0, 0, 0, 0, 0];
  }

  lemma RequestLayout(cmd: byte, len: nat)
    requires len + 4 < 0x1_0000
    ensures AuthRequest(cmd, len)
            == [0x00, 0x42, 0x00, cmd, ((len + 4) / 256) as byte, ((len + 4) % 256) as byte, 0, 0, 0, 0, 0, 0, 0, 0]
  {
    assert Zeros(TRAILER_LEN) == [0, 0, 0, 0, 0, 0, 0, 0];
  }

  /** A device payload: the same headers, no trailer. */
  function DeviceBuild(cmd: byte, version: byte, inner: Bytes): Bytes
    requires Framable(inner)
  {
    HsHdr(0, cmd, |inner| + 4) + DataPart(cmd, version, inner)
  }

  /** `auth_request`: asks for `len` bytes of device data. */
  function AuthRequest(cmd: byte, len: nat): Bytes
    requires len + 4 < 0x1_0000
  {
    HsHdr(OPT_REQUEST + OPT_FROM_HOST, cmd, len + 4) + Zeros(TRAILER_LEN)
  }

  /** `auth_complete` */
  const COMPLETE: Bytes := [0x01, 0x00]

  /** What `transcript_sent` takes from a host payload: all but 6 header and 8 trailer bytes. */
  function SentPart(payload: Bytes): Bytes {
    if |payload| > 14 then payload[6..|payload| - 8] else []
  }

  /** What `transcript_recv` takes from a device payload. */
  function RecvPart(payload: Bytes): Bytes {
    if |payload| > 6 then payload[6..] else []
  }

  /** What the handshake header declares: the bytes a device hashes of a host payload. */
  function DeclaredPart(payload: Bytes): Bytes {
    if |payload| < 6 then []
    else
      var len := 256 * payload[4] as nat + payload[5] as nat;
      payload[6..Min(6 + len, |payload|)]
  }

  /** The host strips by position, the device by declared length, and both get the data part. */
  lemma SentIsDeclared(cmd: byte, version: byte, inner: Bytes)
    requires Framable(inner)
    ensures var p := AuthBuild(cmd, version, inner);
            SentPart(p) == DataPart(cmd, version, inner) == DeclaredPart(p)
  {
    var h, d := HsHdr(OPT_ACK + OPT_FROM_HOST, cmd, |inner| + 4), DataPart(cmd, version, inner);
    var p := AuthBuild(cmd, version, inner);
    assert p[6..|p| - 8] == d && |d| == |inner| + 4;
    assert p[4] == h[4] && p[5] == h[5];
    assert 256 * p[4] as nat + p[5] as nat == |inner| + 4;
    assert p[6..6 + |d|] == d;
  }

  /** Of a host payload cut short on the way the device still gets the data part exactly if nothing
      but trailer is missing. */
  lemma CutPayloadIff(cmd: byte, version: byte, inner: Bytes, n: nat)
    requires Framable(inner) && n <= |AuthBuild(cmd, version, inner)|
    ensures var p := AuthBuild(cmd, version, inner);
            DeclaredPart(p[..n]) == SentPart(p) <==> n + TRAILER_LEN >= |p|
  {
    var p := AuthBuild(cmd, version, inner);
    SentIsDeclared(cmd, version, inner);
    if n >= 6 {
      var d := DataPart(cmd, version, inner);
      assert p[..n][4] == p[4] && p[..n][5] == p[5];
      HeaderDeclares(cmd, version, inner);
      assert |DeclaredPart(p[..n])| == Min(6 + |d|, n) - 6;
      if n >= 6 + |d| {
        assert p[..n][6..6 + |d|] == p[6..6 + |d|];
      }
    }
  }

  lemma DataArrives(payload: Bytes, cmd: byte, version: byte, inner: Bytes)
    requires Framable(inner) && payload <= AuthBuild(cmd, version, inner)
    requires |payload| + TRAILER_LEN >= |AuthBuild(cmd, version, inner)|
    ensures DeclaredPart(payload) == DataPart(cmd, version, inner)
    ensures |DataPart(cmd, version, inner)| >= 4 && DataPart(cmd, version, inner)[4..] == inner
  {
    SentIsDeclared(cmd, version, inner);
    CutPayloadIff(cmd, version, inner, |payload|);
    assert AuthBuild(cmd, version, inner)[..|payload|] == payload;
  }

  lemma HeaderDeclares(cmd: byte, version: byte, inner: Bytes)
    requires Framable(inner)
    ensures var p := AuthBuild(cmd, version, inner);
            |p| == |inner| + 18 && 256 * p[4] as nat + p[5] as nat == |inner| + 4
  {
    var h, p := HsHdr(OPT_ACK + OPT_FROM_HOST, cmd, |inner| + 4), AuthBuild(cmd, version, inner);
    assert p[4] == h[4] && p[5] == h[5];
  }

  lemma RecvIsData(cmd: byte, version: byte, inner: Bytes)
    requires Framable(inner)
    ensures RecvPart(DeviceBuild(cmd, version, inner)) == DataPart(cmd, version, inner)
  {
  }

  /** A device payload carries its inner bytes behind ten header bytes. */
  lemma InnerStarts(cmd: byte, version: byte, a: Bytes, b: Bytes)
    requires Framable(a + b)
    ensures |DeviceBuild(cmd, version, a + b)| == 10 + |a| + |b|
    ensures DeviceBuild(cmd, version, a + b)[10..10 + |a|] == a
  {
  }

  // ------------------------------------------------------------ transcripts

  /** One payload of the conversation that both sides hash. */
  datatype Message =
    | FromHost(cmd: byte, version: byte, inner: Bytes)
    | FromDevice(cmd: byte, version: byte, inner: Bytes)

  predicate AllFramable(ms: seq<Message>) {
    forall i :: 0 <= i < |ms| ==> Framable(ms[i].inner)
  }

  function HostTranscript(ms: seq<Message>): Bytes
    requires AllFramable(ms)
  {
    if ms == [] then []
    else
      var before, m := HostTranscript(ms[..|ms| - 1]), ms[|ms| - 1];
      match m
      case FromHost(cmd, version, inner) => before + SentPart(AuthBuild(cmd, version, inner))
      case FromDevice(cmd, version, inner) => before + RecvPart(DeviceBuild(cmd, version, inner))
  }

  function DeviceTranscript(ms: seq<Message>): Bytes
    requires AllFramable(ms)
  {
    if ms == [] then []
    else
      var before, m := DeviceTranscript(ms[..|ms| - 1]), ms[|ms| - 1];
      match m
      case FromHost(cmd, version, inner) => before + DeclaredPart(AuthBuild(cmd, version, inner))
      case FromDevice(cmd, version, inner) => before + DataPart(cmd, version, inner)
  }

  /** After any conversation both sides have hashed the same bytes. */
  lemma {:induction false} TranscriptsAgree(ms: seq<Message>)
    requires AllFramable(ms)
    ensures HostTranscript(ms) == DeviceTranscript(ms)
  {
    if ms != [] {
      TranscriptsAgree(ms[..|ms| - 1]);
      var m := ms[|ms| - 1];
      if m.FromHost? {
        SentIsDeclared(m.cmd, m.version, m.inner);
      } else {
        RecvIsData(m.cmd, m.version, m.inner);
      }
    }
  }

  // ------------------------------------------------------------ payloads through the endpoint

  /** The packet a payload goes out in, unchunked. */
  function HostPacket(seqno: byte, payload: Bytes): Bytes {
    Gip.SimplePacket(Gip.CMD_AUTHENTICATE, AuthSend.OPTS_ACK, seqno, payload)
  }

  /** What a device that reads `width` bytes at a time gets of it. */
  function Arrived(seqno: byte, payload: Bytes, width: nat): Bytes {
    Endpoint.FirstRead(AuthSend.OPTS_ACK, seqno, payload, width)
  }

  /** The device hashes what the host hashed exactly if no more than trailer is beyond its read. */
  lemma ReadAgreesIff(cmd: byte, version: byte, inner: Bytes, seqno: byte, width: nat)
    requires Framable(inner) && width >= 64
    ensures var p := AuthBuild(cmd, version, inner);
            && |Arrived(seqno, p, width)| <= |p| && Arrived(seqno, p, width) <= p
            && (DeclaredPart(Arrived(seqno, p, width)) == SentPart(p)
                <==> |HostPacket(seqno, p)| <= width + TRAILER_LEN)
            && (|HostPacket(seqno, p)| <= width + TRAILER_LEN
                <==> |Arrived(seqno, p, width)| + TRAILER_LEN >= |p|)
  {
    var p := AuthBuild(cmd, version, inner);
    HeaderDeclares(cmd, version, inner);
    Endpoint.SimpleSize(Gip.CMD_AUTHENTICATE, AuthSend.OPTS_ACK, seqno, p);
    CutPayloadIff(cmd, version, inner, |Arrived(seqno, p, width)|);
  }

  /** At 64 bytes that is so exactly for up to 50 inner bytes. */
  lemma EndpointAgreesIff(cmd: byte, version: byte, inner: Bytes, seqno: byte)
    requires Framable(inner)
    ensures var p := AuthBuild(cmd, version, inner);
            DeclaredPart(Arrived(seqno, p, 64)) == SentPart(p) <==> |inner| <= 50
  {
    var p := AuthBuild(cmd, version, inner);
    HeaderDeclares(cmd, version, inner);
    ReadAgreesIff(cmd, version, inner, seqno, 64);
    Endpoint.SimpleSize(Gip.CMD_AUTHENTICATE, AuthSend.OPTS_ACK, seqno, p);
  }

  /** What is left unread of such a packet is trailer, and the next read that finds it skips it. */
  lemma UnreadIsNoise(cmd: byte, version: byte, inner: Bytes, seqno: byte, width: nat)
    requires Framable(inner) && width >= 64
    requires width < |HostPacket(seqno, AuthBuild(cmd, version, inner))| <= width + TRAILER_LEN
    ensures AuthRecv.Noise(AuthSend.Data(HostPacket(seqno, AuthBuild(cmd, version, inner))[width..]))
  {
    var packet, p := HostPacket(seqno, AuthBuild(cmd, version, inner)), AuthBuild(cmd, version, inner);
    var h := |packet| - |p|;
    HeaderDeclares(cmd, version, inner);
    Endpoint.SimpleSize(Gip.CMD_AUTHENTICATE, AuthSend.OPTS_ACK, seqno, p);
    assert packet[h..] == p;
    assert packet[width..][0] == packet[h..][width - h] == p[width - h] == 0;
  }

  /** Of all the payloads the host sends unchunked only HOST_PUBKEY does not fit the endpoint. */
  lemma OnlyPubkeyTooLong(seqno: byte, random: Bytes, finish: Bytes, pubkey: Bytes, cmd: byte, len: nat)
    requires |random| == RANDOM_LEN && |finish| == TRANSCRIPT_LEN && |pubkey| == PUBKEY_LEN && len + 4 < 0x1_0000
    ensures |HostPacket(seqno, AuthBuild(HOST_HELLO, 1, random + Zeros(8)))| <= 64
    ensures |HostPacket(seqno, AuthBuild(HOST_HELLO2, 2, random + Zeros(4)))| <= 64
    ensures |HostPacket(seqno, AuthBuild(HOST_FINISH, 1, finish))| <= 64
    ensures |HostPacket(seqno, AuthBuild(HOST_FINISH2, 2, finish))| <= 64
    ensures |HostPacket(seqno, AuthRequest(cmd, len))| <= 64 && |HostPacket(seqno, COMPLETE)| <= 64
    ensures |HostPacket(seqno, AuthBuild(HOST_PUBKEY2, 2, pubkey))| == 86
  {
    var payloads := [AuthBuild(HOST_HELLO, 1, random + Zeros(8)), AuthBuild(HOST_HELLO2, 2, random + Zeros(4)),
                     AuthBuild(HOST_FINISH, 1, finish), AuthBuild(HOST_FINISH2, 2, finish),
                     AuthRequest(cmd, len), COMPLETE, AuthBuild(HOST_PUBKEY2, 2, pubkey)];
    forall i | 0 <= i < |payloads| ensures |HostPacket(seqno, payloads[i])| == |payloads[i]| + 4 {
      Endpoint.SimpleSize(Gip.CMD_AUTHENTICATE, AuthSend.OPTS_ACK, seqno, payloads[i]);
    }
    assert |HostPacket(seqno, payloads[0])| == 62 && |HostPacket(seqno, payloads[1])| == 58;
    assert |HostPacket(seqno, payloads[2])| == 54 && |HostPacket(seqno, payloads[3])| == 54;
    assert |HostPacket(seqno, payloads[4])| == 18 && |HostPacket(seqno, payloads[5])| == 6;
    assert |HostPacket(seqno, payloads[6])| == 86;
  }

  /** What such a device hashes of a conversation whose host payloads all go out unchunked. */
  function ReadTranscript(ms: seq<Message>, seqno: byte, width: nat): Bytes
    requires AllFramable(ms)
  {
    if ms == [] then []
    else
      var before, m := ReadTranscript(ms[..|ms| - 1], seqno, width), ms[|ms| - 1];
      match m
      case FromHost(cmd, version, inner) => before + DeclaredPart(Arrived(seqno, AuthBuild(cmd, version, inner), width))
      case FromDevice(cmd, version, inner) => before + DataPart(cmd, version, inner)
  }

  /** The host payload of a message is read as far as it is hashed. */
  predicate ReadFar(m: Message, seqno: byte, width: nat)
    requires Framable(m.inner)
  {
    m.FromHost? ==> |HostPacket(seqno, AuthBuild(m.cmd, m.version, m.inner))| <= width + TRAILER_LEN
  }

  /** Every one of them is. */
  predicate AllReadFar(ms: seq<Message>, seqno: byte, width: nat)
    requires AllFramable(ms)
  {
    ms == [] || (AllReadFar(ms[..|ms| - 1], seqno, width) && ReadFar(ms[|ms| - 1], seqno, width))
  }

  /** Host and device have hashed the same bytes after a conversation exactly if every host payload in it
      was read far enough: what is missing once is never made up for. */
  lemma {:induction false} ReadTranscriptIff(ms: seq<Message>, seqno: byte, width: nat)
    requires AllFramable(ms) && width >= 64
    ensures ReadTranscript(ms, seqno, width) == HostTranscript(ms) <==> AllReadFar(ms, seqno, width)
    ensures !AllReadFar(ms, seqno, width) ==> |ReadTranscript(ms, seqno, width)| < |HostTranscript(ms)|
  {
    if ms != [] {
      var m := ms[|ms| - 1];
      ReadTranscriptIff(ms[..|ms| - 1], seqno, width);
      if m.FromHost? {
        PartRead(m.cmd, m.version, m.inner, seqno, width);
      } else {
        RecvIsData(m.cmd, m.version, m.inner);
      }
    }
  }

  lemma PartRead(cmd: byte, version: byte, inner: Bytes, seqno: byte, width: nat)
    requires Framable(inner) && width >= 64
    ensures var p := AuthBuild(cmd, version, inner);
            var part := DeclaredPart(Arrived(seqno, p, width));
            if ReadFar(FromHost(cmd, version, inner), seqno, width) then part == SentPart(p)
            else |part| < |SentPart(p)|
  {
    var p := AuthBuild(cmd, version, inner);
    ReadAgreesIff(cmd, version, inner, seqno, width);
    SentIsDeclared(cmd, version, inner);
    HeaderDeclares(cmd, version, inner);
    var a := Arrived(seqno, p, width);
    assert |a| >= 6 ==> a[4] == p[4] && a[5] == p[5];
  }

  /** `_AuthState`, with the transcript kept as the bytes fed to the hash. */
  class AuthState {
    var transcript: Bytes
    ghost var heard: seq<Message>

    ghost predicate Valid()
      reads this
    {
      AllFramable(heard) && transcript == HostTranscript(heard)
    }

    constructor ()
      ensures Valid() && transcript == [] && heard == []
    {
      transcript := [];
      heard := [];
    }

    /** The v2 restart: a fresh hash object. */
    method Reset()
      modifies this
      ensures Valid() && heard == [] && transcript == []
    {
      transcript := [];
      heard := [];
    }

    method TranscriptSent(payload: Bytes, ghost m: Message)
      requires Valid() && m.FromHost? && Framable(m.inner) && payload == AuthBuild(m.cmd, m.version, m.inner)
      modifies this
      ensures Valid() && heard == old(heard) + [m]
      ensures transcript == old(transcript) + DataPart(m.cmd, m.version, m.inner)
    {
      SentIsDeclared(m.cmd, m.version, m.inner);
      var dataLen: int := |payload| - 6 - TRAILER_LEN;
      if dataLen > 0 {
        transcript := transcript + payload[6..6 + dataLen];
      }
      heard := heard + [m];
      assert heard[..|heard| - 1] == old(heard);
    }

    method TranscriptRecv(payload: Bytes, ghost m: Message)
      requires Valid() && m.FromDevice? && Framable(m.inner) && payload == DeviceBuild(m.cmd, m.version, m.inner)
      modifies this
      ensures Valid() && heard == old(heard) + [m]
      ensures transcript == old(transcript) + DataPart(m.cmd, m.version, m.inner)
    {
      RecvIsData(m.cmd, m.version, m.inner);
      if |payload| > 6 {
        transcript := transcript + payload[6..];
      }
      heard := heard + [m];
      assert heard[..|heard| - 1] == old(heard);
    }
  }

  // ------------------------------------------------------------ the whole handshake

  const HOST_HELLO: byte := 0x01
  const CLIENT_HELLO: byte := 0x02
  const CLIENT_CERT: byte := 0x03
  const HOST_SECRET: byte := 0x05
  const HOST_FINISH: byte := 0x07
  const CLIENT_FINISH: byte := 0x08
  const HOST_HELLO2: byte := 0x21
  const CLIENT_HELLO2: byte := 0x22
  const CLIENT_CERT2: byte := 0x23
  const CLIENT_PUBKEY2: byte := 0x24
  const HOST_PUBKEY2: byte := 0x25
  const HOST_FINISH2: byte := 0x26
  const CLIENT_FINISH2: byte := 0x27

  const RANDOM_LEN: nat := 32
  const PMS_LEN: nat := 48
  const TRANSCRIPT_LEN: nat := 32
  const PUBKEY_LEN: nat := 64

  /** The primitives, as arbitrary functions. */
  datatype Crypto = Crypto(
    hmac: (Bytes, Bytes) -> Bytes,
    hash: Bytes -> Bytes,
    rsaEncrypt: (Bytes, Bytes) -> Bytes,   // public key, plain text
    rsaDecrypt: (Bytes, Bytes) -> Bytes,   // private key, cipher text
    extractKey: Bytes -> Option<Bytes>,    // certificate to RSA public key
    publicOf: Bytes -> Bytes,              // EC private key to public key
    ecdh: (Bytes, Bytes) -> Bytes)         // own private key, other public key

  const MASTER_SECRET: Bytes := [77, 97, 115, 116, 101, 114, 32, 83, 101, 99, 114, 101, 116]
  const HOST_FINISHED: Bytes := [72, 111, 115, 116, 32, 70, 105, 110, 105, 115, 104, 101, 100]
  const DEVICE_FINISHED: Bytes := [68, 101, 118, 105, 99, 101, 32, 70, 105, 110, 105, 115, 104, 101, 100]

  /** What the device brings along. `ack` answers the first hello; the host takes it to ask for v2 if its
      bytes 3 and 7 differ. */
  datatype Device = Device(ack: Bytes, random: Bytes, helloRest: Bytes, cert: Bytes,
                           rsaKey: Bytes, ecKey: Bytes, pubkeyRest: Bytes, finishRest: Bytes)

  predicate WantsV2(ack: Bytes) { |ack| > 7 && ack[3] != ack[7] }

  /** The labels of the key derivation are these words. */
  lemma Labels()
    ensures Spells(MASTER_SECRET, "Master Secret") && Spells(HOST_FINISHED, "Host Finished")
    ensures Spells(DEVICE_FINISHED, "Device Finished")
  {
  }

  predicate Spells(b: Bytes, word: string) {
    |b| == |word| && forall i :: 0 <= i < |b| ==> b[i] as int == word[i] as int
  }

  /** A payload with both headers asks for the restart exactly if its handshake command differs from its
      version: byte 7 is the version, one behind the data command. That is what was meant, two
      different commands, exactly if version and data command are both equal to the handshake command or
      both not. */
  lemma V2Iff(options: byte, hsCmd: byte, dataCmd: byte, version: byte, inner: Bytes)
    requires Framable(inner)
    ensures var p := HsHdr(options, hsCmd, |inner| + 4) + DataPart(dataCmd, version, inner);
            && (WantsV2(p) <==> hsCmd != version)
            && ((WantsV2(p) <==> hsCmd != dataCmd) <==> (hsCmd == version <==> hsCmd == dataCmd))
    ensures !WantsV2(HsHdr(options, hsCmd, 0))
  {
  }

  /** What the host draws at random. */
  datatype Secrets = Secrets(random1: Bytes, random2: Bytes, pms: Bytes, ecKey: Bytes)

  /** The encrypted secret of the RSA path, and the payload that carries it. */
  function Cipher(c: Crypto, d: Device, s: Secrets): Bytes
    requires c.extractKey(d.cert).Some?
  {
    c.rsaEncrypt(c.extractKey(d.cert).value, s.pms)
  }

  function SecretPayload(c: Crypto, d: Device, s: Secrets): Bytes
    requires c.extractKey(d.cert).Some? && Framable(Cipher(c, d, s))
  {
    AuthBuild(HOST_SECRET, 1, Cipher(c, d, s))
  }

  /** Decryption inverts encryption with the certified key. */
  predicate MatchingV1(c: Crypto, d: Device, s: Secrets) {
    && c.extractKey(d.cert).Some?
    && 40 <= |Cipher(c, d, s)| < 0xff00
    && c.rsaDecrypt(d.rsaKey, Cipher(c, d, s)) == s.pms
  }

  /** The two ends of ECDH meet. */
  predicate MatchingV2(c: Crypto, d: Device, s: Secrets) {
    && |c.publicOf(d.ecKey)| == |c.publicOf(s.ecKey)| == PUBKEY_LEN && |d.pubkeyRest| < 0x8000
    && c.ecdh(s.ecKey, c.publicOf(d.ecKey)) == c.ecdh(d.ecKey, c.publicOf(s.ecKey))
  }

  /** A device and a host that fit together: lengths as the protocol has them, decryption inverts
      encryption with the certified key, and the two ends of ECDH meet. */
  predicate Matching(c: Crypto, d: Device, s: Secrets) {
    && |d.ack| >= 6 && |d.random| == |s.random1| == |s.random2| == RANDOM_LEN && |s.pms| == PMS_LEN
    && Framable(d.random + d.helloRest) && Framable(d.cert)
    && (if WantsV2(d.ack) then MatchingV2(c, d, s) else MatchingV1(c, d, s))
    && |d.finishRest| < 0x8000
  }

  /** The device end: it hashes what it sends and what the host's headers declare. */
  class DeviceEnd {
    const c: Crypto
    const d: Device
    var transcript: Bytes
    var hostRandom: Bytes
    var master: Bytes

    constructor (c: Crypto, d: Device)
      ensures this.c == c && this.d == d && transcript == []
    {
      this.c := c;
      this.d := d;
      transcript := [];
      hostRandom := [];
      master := [];
    }

    /** A hello starts the transcript; its data begins with the host's random bytes. */
    method OnHello(payload: Bytes, ghost cmd: byte, ghost version: byte, ghost inner: Bytes)
      requires Framable(inner) && payload == AuthBuild(cmd, version, inner) && |inner| >= RANDOM_LEN
      modifies this
      ensures transcript == DataPart(cmd, version, inner) && hostRandom == inner[..RANDOM_LEN]
    {
      SentIsDeclared(cmd, version, inner);
      var data := DeclaredPart(payload);
      transcript := data;
      hostRandom := data[4..4 + RANDOM_LEN];
    }

    /** Any later host payload, of which no more than trailer may be missing: its data is hashed and
        handed on. */
    method OnData(payload: Bytes, ghost cmd: byte, ghost version: byte, ghost inner: Bytes) returns (data: Bytes)
      requires Framable(inner) && payload <= AuthBuild(cmd, version, inner)
      requires |payload| + TRAILER_LEN >= |AuthBuild(cmd, version, inner)|
      modifies this`transcript
      ensures transcript == old(transcript) + DataPart(cmd, version, inner) && data == inner
    {
      DataArrives(payload, cmd, version, inner);
      var part := DeclaredPart(payload);
      transcript := transcript + part;
      data := part[4..];
    }

    method Send(cmd: byte, version: byte, inner: Bytes) returns (payload: Bytes)
      requires Framable(inner)
      modifies this`transcript
      ensures payload == DeviceBuild(cmd, version, inner)
      ensures transcript == old(transcript) + DataPart(cmd, version, inner)
    {
      payload := DeviceBuild(cmd, version, inner);
      transcript := transcript + DataPart(cmd, version, inner);
    }

    method Derive(secret: Bytes)
      requires Usable(c.hmac)
      modifies this`master
      ensures master == Expanded(c.hmac, secret, MASTER_SECRET + (hostRandom + d.random), PMS_LEN)
    {
      master := AuthPrf(c.hmac, secret, MASTER_SECRET, hostRandom + d.random, PMS_LEN);
    }
  }

  // ------------------------------------------------------------ what is said

  function HostHello(d: Device, s: Secrets): Message {
    if WantsV2(d.ack) then FromHost(HOST_HELLO2, 2, s.random2 + Zeros(4))
    else FromHost(HOST_HELLO, 1, s.random1 + Zeros(8))
  }

  function HostRandom(d: Device, s: Secrets): Bytes {
    if WantsV2(d.ack) then s.random2 else s.random1
  }

  /** The hellos and the certificate. */
  function Asked(d: Device, s: Secrets): seq<Message> {
    var v2 := WantsV2(d.ack);
    var version: byte := if v2 then 2 else 1;
    [HostHello(d, s)]
    + [FromDevice(if v2 then CLIENT_HELLO2 else CLIENT_HELLO, version, d.random + d.helloRest)]
    + [FromDevice(if v2 then CLIENT_CERT2 else CLIENT_CERT, version, d.cert)]
  }

  /** All that is hashed on both sides before the host finishes. */
  function Spoken(c: Crypto, d: Device, s: Secrets): seq<Message>
    requires Matching(c, d, s)
  {
    if WantsV2(d.ack) then
      Asked(d, s) + [FromDevice(CLIENT_PUBKEY2, 2, c.publicOf(d.ecKey) + d.pubkeyRest)]
      + [FromHost(HOST_PUBKEY2, 2, c.publicOf(s.ecKey))]
    else Asked(d, s) + [FromHost(HOST_SECRET, 1, Cipher(c, d, s))]
  }

  lemma SpokenFramable(c: Crypto, d: Device, s: Secrets)
    requires Matching(c, d, s)
    ensures AllFramable(Spoken(c, d, s))
  {
  }

  /** The secret both ends are to share. */
  ghost function Master(c: Crypto, d: Device, s: Secrets): Bytes
    requires Usable(c.hmac)
  {
    var secret := if WantsV2(d.ack) then c.hash(c.ecdh(s.ecKey, c.publicOf(d.ecKey))) else s.pms;
    Expanded(c.hmac, secret, MASTER_SECRET + (HostRandom(d, s) + d.random), PMS_LEN)
  }

  /** HOST_FINISH over the transcript so far. */
  ghost function Finish(c: Crypto, d: Device, s: Secrets): Message
    requires Usable(c.hmac) && Matching(c, d, s)
  {
    SpokenFramable(c, d, s);
    FromHost(if WantsV2(d.ack) then HOST_FINISH2 else HOST_FINISH, if WantsV2(d.ack) then 2 else 1,
             Expanded(c.hmac, Master(c, d, s), HOST_FINISHED + c.hash(HostTranscript(Spoken(c, d, s))), TRANSCRIPT_LEN))
  }

  /** What is said and derived, written out: commands, versions, and what goes into each PRF, on both
      paths. */
  lemma Conversation(c: Crypto, d: Device, s: Secrets)
    requires Usable(c.hmac) && Matching(c, d, s)
    ensures AllFramable(Spoken(c, d, s))
    ensures !WantsV2(d.ack) ==>
              && Spoken(c, d, s)
                 == [FromHost(0x01, 1, s.random1 + [0, 0, 0, 0, 0, 0, 0, 0]),
                     FromDevice(0x02, 1, d.random + d.helloRest), FromDevice(0x03, 1, d.cert),
                     FromHost(0x05, 1, c.rsaEncrypt(c.extractKey(d.cert).value, s.pms))]
              && Master(c, d, s) == Expanded(c.hmac, s.pms, MASTER_SECRET + (s.random1 + d.random), 48)
              && Finish(c, d, s)
                 == FromHost(0x07, 1, Expanded(c.hmac, Master(c, d, s),
                                               HOST_FINISHED + c.hash(HostTranscript(Spoken(c, d, s))), 32))
    ensures WantsV2(d.ack) ==>
              && Spoken(c, d, s)
                 == [FromHost(0x21, 2, s.random2 + [0, 0, 0, 0]),
                     FromDevice(0x22, 2, d.random + d.helloRest), FromDevice(0x23, 2, d.cert),
                     FromDevice(0x24, 2, c.publicOf(d.ecKey) + d.pubkeyRest),
                     FromHost(0x25, 2, c.publicOf(s.ecKey))]
              && Master(c, d, s) == Expanded(c.hmac, c.hash(c.ecdh(s.ecKey, c.publicOf(d.ecKey))),
                                             MASTER_SECRET + (s.random2 + d.random), 48)
              && Finish(c, d, s)
                 == FromHost(0x26, 2, Expanded(c.hmac, Master(c, d, s),
                                               HOST_FINISHED + c.hash(HostTranscript(Spoken(c, d, s))), 32))
  {
    SpokenFramable(c, d, s);
    assert Zeros(8) == [0, 0, 0, 0, 0, 0, 0, 0] && Zeros(4) == [0, 0, 0, 0];
  }

  /** Where host and device stand at one point: transcripts and master secrets. */
  datatype Point = Point(host: Bytes, device: Bytes, hostMaster: Bytes, deviceMaster: Bytes)

  /** Both have hashed exactly this conversation, and share this secret. */
  predicate AgreedOn(p: Point, ms: seq<Message>, master: Bytes) {
    AllFramable(ms) && p == Point(HostTranscript(ms), HostTranscript(ms), master, master)
  }

  /** Both ends agree on what was said and on the secret. */
  ghost predicate Agreed(st: AuthState, hostMaster: Bytes, dev: DeviceEnd, ms: seq<Message>, master: Bytes)
    reads st, dev
  {
    st.Valid() && st.heard == ms && st.transcript == dev.transcript && hostMaster == dev.master == master
  }

  method Standing(st: AuthState, hostMaster: Bytes, dev: DeviceEnd, ghost ms: seq<Message>, ghost master: Bytes)
    returns (p: Point)
    requires Agreed(st, hostMaster, dev, ms, master)
    ensures AgreedOn(p, ms, master)
  {
    p := Point(st.transcript, dev.transcript, hostMaster, dev.master);
  }

  /** How much of HOST_SECRET the waits of its chunked transfer let through: all but trailer, in packets
      that fit the endpoint. */
  predicate SecretArrives(c: Crypto, d: Device, s: Secrets, inboxes: seq<seq<AuthSend.Read>>)
    requires Matching(c, d, s)
  {
    WantsV2(d.ack)
    || (|SecretPayload(c, d, s)| < 16384
        && AuthSend.Sent(SecretPayload(c, d, s), AuthSend.Acks(inboxes)) + TRAILER_LEN >= |SecretPayload(c, d, s)|)
  }

  /** How much of HOST_PUBKEY, which goes out in one packet of 86 bytes, the device reads: all but
      trailer. */
  predicate PubkeyArrives(c: Crypto, d: Device, s: Secrets, seqno: byte, width: nat)
    requires Matching(c, d, s)
  {
    WantsV2(d.ack) ==> ReadFar(FromHost(HOST_PUBKEY2, 2, c.publicOf(s.ecKey)), seqno, width)
  }

  /** On the v2 path the transcripts agree before HOST_FINISH exactly if the device takes in 78 bytes or
      more at a time: through 64-byte reads they differ in every run. */
  lemma PubkeyArrivesIff(c: Crypto, d: Device, s: Secrets, seqno: byte, width: nat)
    requires Matching(c, d, s) && WantsV2(d.ack) && width >= 64
    ensures AllFramable(Spoken(c, d, s))
    ensures ReadTranscript(Spoken(c, d, s), seqno, width) == HostTranscript(Spoken(c, d, s)) <==> width >= 78
    ensures PubkeyArrives(c, d, s, seqno, width) <==> width >= 78
  {
    SpokenFramable(c, d, s);
    ReadTranscriptIff(Spoken(c, d, s), seqno, width);
    var zeros := Zeros(TRANSCRIPT_LEN);
    OnlyPubkeyTooLong(seqno, s.random2, zeros, c.publicOf(s.ecKey), 0, 0);
    OnlyLastHostMessage(c, d, s, seqno, width);
  }

  lemma OnlyLastHostMessage(c: Crypto, d: Device, s: Secrets, seqno: byte, width: nat)
    requires Matching(c, d, s) && WantsV2(d.ack) && width >= 64 && AllFramable(Spoken(c, d, s))
    requires ReadFar(HostHello(d, s), seqno, width)
    ensures AllReadFar(Spoken(c, d, s), seqno, width)
            <==> ReadFar(FromHost(HOST_PUBKEY2, 2, c.publicOf(s.ecKey)), seqno, width)
  {
    var ms := Spoken(c, d, s);
    assert |ms| == 5 && ms[0] == HostHello(d, s) && ms[4] == FromHost(HOST_PUBKEY2, 2, c.publicOf(s.ecKey));
    assert ms[..4][..3] == ms[..3] && ms[..3][..2] == ms[..2] && ms[..2][..1] == ms[..1] && ms[..1][..0] == [];
    assert AllReadFar(ms[..1], seqno, width);
    assert AllReadFar(ms[..2], seqno, width);
    assert AllReadFar(ms[..3], seqno, width);
    assert AllReadFar(ms[..4], seqno, width);
  }

  /** A device that acknowledges every chunk gets it. */
  lemma AckedSecretArrives(c: Crypto, d: Device, s: Secrets, inboxes: seq<seq<AuthSend.Read>>)
    requires Matching(c, d, s) && !WantsV2(d.ack)
    requires |SecretPayload(c, d, s)| < 16384 && |SecretPayload(c, d, s)| <= 58 + 58 * |inboxes|
    requires forall k :: 0 <= k < |inboxes| ==> AuthSend.Acks(inboxes)[k]
    ensures SecretArrives(c, d, s, inboxes)
  {
    HeaderDeclares(HOST_SECRET, 1, Cipher(c, d, s));
    AuthSend.AckedIsComplete(SecretPayload(c, d, s), 58, AuthSend.Acks(inboxes));
  }

  /** `gip_auth_handshake` against such a device, which reads `width` bytes at a time, with `inboxes` coming
      in during the waits of the chunked HOST_SECRET. If HOST_SECRET or HOST_PUBKEY arrives, then when
      the host finishes and when the device does, both have hashed the same conversation and hold the
      same master secret, so the CLIENT_FINISH comparison succeeds, on both paths. */
  method GipAuthHandshake(c: Crypto, d: Device, s: Secrets, seqno: byte, width: nat,
                          inboxes: seq<seq<AuthSend.Read>>)
    returns (verified: bool, atHost: Point, atDevice: Point)
    requires Usable(c.hmac) && Matching(c, d, s) && width >= 64
    requires SecretArrives(c, d, s, inboxes) && PubkeyArrives(c, d, s, seqno, width)
    ensures verified
    ensures AgreedOn(atHost, Spoken(c, d, s), Master(c, d, s))
    ensures AgreedOn(atDevice, Spoken(c, d, s) + [Finish(c, d, s)], Master(c, d, s))
  {
    var state := new AuthState();
    var dev := new DeviceEnd(c, d);
    var v2 := Hello(state, dev, s, seqno, width);
    var master := AgreeOnSecret(state, dev, s, v2, seqno, width, inboxes);
    atHost := Standing(state, master, dev, Spoken(c, d, s), Master(c, d, s));
    HostFinish(state, dev, s, master, v2, seqno, width);
    atDevice := Standing(state, master, dev, Spoken(c, d, s) + [Finish(c, d, s)], Master(c, d, s));
    verified := ClientFinish(state, dev, master, v2);
  }

  /** The steps between the hello and HOST_FINISH. */
  method AgreeOnSecret(state: AuthState, dev: DeviceEnd, s: Secrets, v2: bool, seqno: byte, width: nat,
                       inboxes: seq<seq<AuthSend.Read>>)
    returns (master: Bytes)
    requires Usable(dev.c.hmac) && Matching(dev.c, dev.d, s) && width >= 64
    requires SecretArrives(dev.c, dev.d, s, inboxes) && PubkeyArrives(dev.c, dev.d, s, seqno, width)
    requires v2 == WantsV2(dev.d.ack) && dev.hostRandom == HostRandom(dev.d, s)
    requires state.Valid() && state.transcript == dev.transcript && state.heard == [HostHello(dev.d, s)]
    modifies state, dev
    ensures Agreed(state, master, dev, Spoken(dev.c, dev.d, s), Master(dev.c, dev.d, s))
  {
    var random := if v2 then s.random2 else s.random1;
    var randomClient, cert := AskBoth(state, dev, s, v2);
    if v2 {
      master := ExchangeV2(state, dev, s, random + randomClient, seqno, width);
    } else {
      master := ExchangeV1(state, dev, s, random + randomClient, cert, seqno, width, inboxes);
    }
  }

  /** Steps C to E. */
  method AskBoth(state: AuthState, dev: DeviceEnd, s: Secrets, v2: bool) returns (randomClient: Bytes, cert: Bytes)
    requires Framable(dev.d.random + dev.d.helloRest) && Framable(dev.d.cert) && v2 == WantsV2(dev.d.ack)
    requires state.Valid() && state.transcript == dev.transcript && state.heard == [HostHello(dev.d, s)]
    modifies state, dev`transcript
    ensures state.Valid() && state.transcript == dev.transcript && state.heard == Asked(dev.d, s)
    ensures randomClient == dev.d.random && cert == dev.d.cert
  {
    var d := dev.d;
    var version: byte := if v2 then 2 else 1;
    randomClient := Ask(state, dev, if v2 then CLIENT_HELLO2 else CLIENT_HELLO, version, d.random, d.helloRest);
    assert d.cert + [] == d.cert;
    cert := Ask(state, dev, if v2 then CLIENT_CERT2 else CLIENT_CERT, version, d.cert, []);
  }

  /** Steps C, D and E: a requested device payload, and the leading bytes the host takes from it.
      Requests themselves are in no transcript. */
  method Ask(state: AuthState, dev: DeviceEnd, cmd: byte, version: byte, wanted: Bytes, rest: Bytes)
    returns (got: Bytes)
    requires state.Valid() && state.transcript == dev.transcript && Framable(wanted + rest)
    modifies state, dev`transcript
    ensures state.Valid() && state.transcript == dev.transcript && got == wanted
    ensures state.heard == old(state.heard) + [FromDevice(cmd, version, wanted + rest)]
  {
    var payload := dev.Send(cmd, version, wanted + rest);
    state.TranscriptRecv(payload, FromDevice(cmd, version, wanted + rest));
    InnerStarts(cmd, version, wanted, rest);
    got := payload[10..10 + |wanted|];
  }

  /** A host payload that goes out in one packet, read far enough: both sides hash it, and the device gets
      its data. */
  method Tell(state: AuthState, dev: DeviceEnd, cmd: byte, version: byte, inner: Bytes, seqno: byte, width: nat)
    returns (data: Bytes)
    requires state.Valid() && state.transcript == dev.transcript && Framable(inner) && width >= 64
    requires ReadFar(FromHost(cmd, version, inner), seqno, width)
    modifies state, dev`transcript
    ensures state.Valid() && state.transcript == dev.transcript && data == inner
    ensures state.heard == old(state.heard) + [FromHost(cmd, version, inner)]
  {
    var payload := AuthBuild(cmd, version, inner);
    ReadAgreesIff(cmd, version, inner, seqno, width);
    var arrived := Endpoint.Deliver(AuthSend.OPTS_ACK, seqno, payload, width);
    data := dev.OnData(arrived, cmd, version, inner);
    state.TranscriptSent(payload, FromHost(cmd, version, inner));
  }

  /** A hello: both sides hash it from the start, and the device gets its random bytes. */
  method Greet(state: AuthState, dev: DeviceEnd, cmd: byte, version: byte, inner: Bytes, seqno: byte, width: nat)
    requires state.Valid() && state.transcript == [] && state.heard == [] && width >= 64
    requires RANDOM_LEN <= |inner| <= 40
    modifies state, dev
    ensures state.Valid() && state.transcript == dev.transcript && state.heard == [FromHost(cmd, version, inner)]
    ensures dev.hostRandom == inner[..RANDOM_LEN]
  {
    var payload := AuthBuild(cmd, version, inner);
    Endpoint.SimpleSize(Gip.CMD_AUTHENTICATE, AuthSend.OPTS_ACK, seqno, payload);
    ReadAgreesIff(cmd, version, inner, seqno, width);
    var arrived := Endpoint.Deliver(AuthSend.OPTS_ACK, seqno, payload, width);
    assert arrived == payload;
    dev.OnHello(arrived, cmd, version, inner);
    state.TranscriptSent(payload, FromHost(cmd, version, inner));
  }

  /** Steps A and B: hello, and the restart if the device asks for v2. */
  method Hello(state: AuthState, dev: DeviceEnd, s: Secrets, seqno: byte, width: nat) returns (v2: bool)
    requires state.Valid() && state.transcript == [] && state.heard == [] && Matching(dev.c, dev.d, s) && width >= 64
    modifies state, dev
    ensures v2 == WantsV2(dev.d.ack)
    ensures state.Valid() && state.transcript == dev.transcript && state.heard == [HostHello(dev.d, s)]
    ensures dev.hostRandom == HostRandom(dev.d, s)
  {
    Greet(state, dev, HOST_HELLO, 1, s.random1 + Zeros(8), seqno, width);
    var authAck := dev.d.ack;
    var hsCmd := authAck[3];
    var dataCmd := if |authAck| > 7 then authAck[7] else hsCmd;
    v2 := hsCmd != dataCmd;
    if v2 {
      state.Reset();
      Greet(state, dev, HOST_HELLO2, 2, s.random2 + Zeros(4), seqno, width);
    }
  }

  /** HOST_SECRET in chunks, put together by the device: what arrives is the front whose chunks went
      out. */
  method SendSecret(payload: Bytes, seqno: byte, width: nat, inboxes: seq<seq<AuthSend.Read>>)
    returns (arrived: Bytes)
    requires 58 <= |payload| < 16384 && width >= 64
    ensures arrived == payload[..AuthSend.Sent(payload, AuthSend.Acks(inboxes))]
  {
    var wire := AuthSend.GipAuthSendChunked(payload, seqno, inboxes);
    Endpoint.WireReadWhole(payload, seqno, AuthSend.Acks(inboxes), width);
    AuthLink.ChunkedReceived(payload, seqno, AuthSend.Acks(inboxes), []);
    assert AuthLink.Delivered(wire) + [] == AuthLink.Delivered(wire);
    var r := AuthRecv.RecvAuthPkt(Endpoint.Through(wire, width));
    arrived := r.outcome.value.payload;
  }

  /** The RSA path. */
  method ExchangeV1(state: AuthState, dev: DeviceEnd, s: Secrets, randSeed: Bytes, cert: Bytes,
                    seqno: byte, width: nat, inboxes: seq<seq<AuthSend.Read>>)
    returns (master: Bytes)
    requires width >= 64
    requires Usable(dev.c.hmac) && Matching(dev.c, dev.d, s) && !WantsV2(dev.d.ack) && cert == dev.d.cert
    requires SecretArrives(dev.c, dev.d, s, inboxes)
    requires state.Valid() && state.transcript == dev.transcript
    requires randSeed == dev.hostRandom + dev.d.random && dev.hostRandom == HostRandom(dev.d, s)
    modifies state, dev
    ensures Agreed(state, master, dev, old(state.heard) + [FromHost(HOST_SECRET, 1, Cipher(dev.c, dev.d, s))],
                   Master(dev.c, dev.d, s))
  {
    var pubkey := dev.c.extractKey(cert).value;
    var encrypted := dev.c.rsaEncrypt(pubkey, s.pms);
    HeaderDeclares(HOST_SECRET, 1, encrypted);
    master := AuthPrf(dev.c.hmac, s.pms, MASTER_SECRET, randSeed, PMS_LEN);
    assert master == Master(dev.c, dev.d, s);
    var received := TellSecret(state, dev, encrypted, seqno, width, inboxes);
    dev.Derive(dev.c.rsaDecrypt(dev.d.rsaKey, received));
  }

  /** HOST_SECRET goes out in chunks and arrives but for trailer: both sides hash it, and the device gets
      its data. */
  method TellSecret(state: AuthState, dev: DeviceEnd, encrypted: Bytes, seqno: byte, width: nat,
                    inboxes: seq<seq<AuthSend.Read>>)
    returns (data: Bytes)
    requires state.Valid() && state.transcript == dev.transcript && width >= 64
    requires 40 <= |encrypted| && |encrypted| + 18 < 16384
    requires var p := AuthBuild(HOST_SECRET, 1, encrypted);
             AuthSend.Sent(p, AuthSend.Acks(inboxes)) + TRAILER_LEN >= |p|
    modifies state, dev`transcript
    ensures state.Valid() && state.transcript == dev.transcript && data == encrypted
    ensures state.heard == old(state.heard) + [FromHost(HOST_SECRET, 1, encrypted)]
  {
    var secretPkt := AuthBuild(HOST_SECRET, 1, encrypted);
    HeaderDeclares(HOST_SECRET, 1, encrypted);
    var arrived := SendSecret(secretPkt, seqno, width, inboxes);
    data := dev.OnData(arrived, HOST_SECRET, 1, encrypted);
    state.TranscriptSent(secretPkt, FromHost(HOST_SECRET, 1, encrypted));
  }

  /** The ECDH path. */
  method ExchangeV2(state: AuthState, dev: DeviceEnd, s: Secrets, randSeed: Bytes, seqno: byte, width: nat)
    returns (master: Bytes)
    requires width >= 64 && Framable(dev.c.publicOf(s.ecKey))
    requires ReadFar(FromHost(HOST_PUBKEY2, 2, dev.c.publicOf(s.ecKey)), seqno, width)
    requires Usable(dev.c.hmac) && MatchingV2(dev.c, dev.d, s) && WantsV2(dev.d.ack)
    requires state.Valid() && state.transcript == dev.transcript
    requires randSeed == dev.hostRandom + dev.d.random && dev.hostRandom == HostRandom(dev.d, s)
    modifies state, dev
    ensures Agreed(state, master, dev,
                   old(state.heard) + [FromDevice(CLIENT_PUBKEY2, 2, dev.c.publicOf(dev.d.ecKey) + dev.d.pubkeyRest)]
                   + [FromHost(HOST_PUBKEY2, 2, dev.c.publicOf(s.ecKey))],
                   Master(dev.c, dev.d, s))
  {
    var secret, shared := SharePubkeys(state, dev, s, seqno, width);
    master := AuthPrf(dev.c.hmac, secret, MASTER_SECRET, randSeed, PMS_LEN);
    dev.Derive(shared);
  }

  /** Both public keys cross, and each side derives the secret from the other's. */
  method SharePubkeys(state: AuthState, dev: DeviceEnd, s: Secrets, seqno: byte, width: nat)
    returns (secret: Bytes, shared: Bytes)
    requires width >= 64 && Framable(dev.c.publicOf(s.ecKey))
    requires ReadFar(FromHost(HOST_PUBKEY2, 2, dev.c.publicOf(s.ecKey)), seqno, width)
    requires MatchingV2(dev.c, dev.d, s) && state.Valid() && state.transcript == dev.transcript
    modifies state, dev`transcript
    ensures state.Valid() && state.transcript == dev.transcript
    ensures secret == shared == dev.c.hash(dev.c.ecdh(s.ecKey, dev.c.publicOf(dev.d.ecKey)))
    ensures state.heard
            == old(state.heard) + [FromDevice(CLIENT_PUBKEY2, 2, dev.c.publicOf(dev.d.ecKey) + dev.d.pubkeyRest)]
               + [FromHost(HOST_PUBKEY2, 2, dev.c.publicOf(s.ecKey))]
  {
    var theirs := dev.c.publicOf(dev.d.ecKey);
    var clientPubkey := Ask(state, dev, CLIENT_PUBKEY2, 2, theirs, dev.d.pubkeyRest);
    secret := dev.c.hash(dev.c.ecdh(s.ecKey, clientPubkey));
    var ours := dev.c.publicOf(s.ecKey);
    var received := Tell(state, dev, HOST_PUBKEY2, 2, ours, seqno, width);
    shared := dev.c.hash(dev.c.ecdh(dev.d.ecKey, received));
  }

  /** Step F: HOST_FINISH goes into both transcripts. */
  method HostFinish(state: AuthState, dev: DeviceEnd, s: Secrets, master: Bytes, v2: bool,
                    seqno: byte, width: nat)
    requires width >= 64
    requires Usable(dev.c.hmac) && Matching(dev.c, dev.d, s) && v2 == WantsV2(dev.d.ack)
    requires Agreed(state, master, dev, Spoken(dev.c, dev.d, s), Master(dev.c, dev.d, s))
    modifies state, dev`transcript
    ensures Agreed(state, master, dev, Spoken(dev.c, dev.d, s) + [Finish(dev.c, dev.d, s)], Master(dev.c, dev.d, s))
  {
    var finish := AuthPrf(dev.c.hmac, master, HOST_FINISHED, dev.c.hash(state.transcript), TRANSCRIPT_LEN);
    var cmd, version: byte := if v2 then HOST_FINISH2 else HOST_FINISH, if v2 then 2 else 1;
    assert FromHost(cmd, version, finish) == Finish(dev.c, dev.d, s);
    Endpoint.SimpleSize(Gip.CMD_AUTHENTICATE, AuthSend.OPTS_ACK, seqno, AuthBuild(cmd, version, finish));
    var received := Tell(state, dev, cmd, version, finish, seqno, width);
  }

  /** Step G: the device's finish value against the host's, both over the transcript that now
      includes HOST_FINISH. */
  method ClientFinish(state: AuthState, dev: DeviceEnd, master: Bytes, v2: bool) returns (verified: bool)
    requires Usable(dev.c.hmac) && state.transcript == dev.transcript && master == dev.master
    requires |dev.d.finishRest| < 0x8000
    modifies dev`transcript
    ensures verified
  {
    var c, version: byte := dev.c, if v2 then 2 else 1;
    var theirs := AuthPrf(c.hmac, dev.master, DEVICE_FINISHED, c.hash(dev.transcript), TRANSCRIPT_LEN);
    var cf := dev.Send(if v2 then CLIENT_FINISH2 else CLIENT_FINISH, version, theirs + dev.d.finishRest);
    InnerStarts(if v2 then CLIENT_FINISH2 else CLIENT_FINISH, version, theirs, dev.d.finishRest);
    verified := CompareFinish(c, state.transcript, master, cf);
  }

  /** The host's half of step G, for any payload that comes back: the 32 bytes behind its ten header bytes
      are compared with the PRF of the master secret over "Device Finished" and the transcript hash. */
  method CompareFinish(c: Crypto, transcript: Bytes, master: Bytes, cf: Bytes) returns (verified: bool)
    requires Usable(c.hmac)
    ensures verified <==> |cf| >= 42
                          && cf[10..42] == Expanded(c.hmac, master, DEVICE_FINISHED + c.hash(transcript), 32)
  {
    var expected := AuthPrf(c.hmac, master, DEVICE_FINISHED, c.hash(transcript), TRANSCRIPT_LEN);
    var clientTranscript := Gip.PySlice(cf, 10, TRANSCRIPT_LEN);
    verified := clientTranscript == expected;
  }
}
