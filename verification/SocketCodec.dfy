/** The wire format of netlink socket requests and replies: both carry the same 48-byte socket
    identity, written and read through a cursor (gateway/pkg/manager/connections.go). */
module SocketCodec {
  import opened Words
  import opened ByteOrder

  const AF_INET: byte := 2
  const AF_INET6: byte := 10
  const SIZEOF_SOCKET_ID := 0x30
  const SIZEOF_SOCKET_REQUEST := SIZEOF_SOCKET_ID + 0x8
  const SIZEOF_SOCKET := SIZEOF_SOCKET_ID + 0x18

  /** A net.IP: 4 bytes, 16 bytes, or a malformed slice of any length. */
  type Ip = seq<byte>

  datatype SocketId = SocketId(
    source: Ip, destination: Ip, cookie0: u32, cookie1: u32, iface: u32, sourcePort: u16, destinationPort: u16)

  datatype SocketRequest = SocketRequest(id: SocketId, states: u32, family: byte, protocol: byte, ext: byte, pad: byte)

  datatype SocketInfo = SocketInfo(
    id: SocketId, expires: u32, rqueue: u32, wqueue: u32, uid: u32, inode: u32,
    family: byte, state: byte, timer: byte, retrans: byte)

  // ---------------------------------------------------------------- net.IP

  const MAPPED: seq<byte> := [0, 0, 0, 0, 0, 0, 0, 0, 0, 0, 0xFF, 0xFF]

  /** net.IPv4: the 16-byte form of an IPv4 address. */
  function Mapped(quad: seq<byte>): Ip {
    MAPPED + quad
  }

  /** IP.To4. */
  function To4(ip: Ip): Option<seq<byte>> {
    if |ip| == 4 then Some(ip)
    else if |ip| == 16 && ip[..12] == MAPPED then Some(ip[12..])
    else None
  }

  /** IP.To16: the form under which addresses are compared. */
  function To16(ip: Ip): Option<Ip> {
    if |ip| == 4 then Some(Mapped(ip)) else if |ip| == 16 then Some(ip) else None
  }

  // ---------------------------------------------------------------- words

  function PutBig16(x: u16): (b: seq<byte>)
    ensures |b| == 2
  {
    [x / 0x100, x % 0x100]
  }

  function Big16(b: seq<byte>): u16
    requires |b| == 2
  {
    NetworkOrder16(b[0], b[1])
  }

  /** nl.NativeEndian: `little` says which order this machine has. */
  function PutNative32(little: bool, x: u32): (b: seq<byte>)
    ensures |b| == 4
  {
    if little then [Byte0(x), Byte1(x), Byte2(x), Byte3(x)] else [Byte3(x), Byte2(x), Byte1(x), Byte0(x)]
  }

  function Native32(little: bool, b: seq<byte>): u32
    requires |b| == 4
  {
    if little then Word(b[0], b[1], b[2], b[3]) else Word(b[3], b[2], b[1], b[0])
  }

  lemma NativeRoundTrip(little: bool, x: u32)
    ensures Native32(little, PutNative32(little, x)) == x
  {
    BytesWord(x);
  }

  lemma BigRoundTrip(x: u16)
    ensures Big16(PutBig16(x)) == x
  {
  }

  // ---------------------------------------------------------------- layout

  /** Go's copy into a zeroed field of n bytes. */
  function Field(n: nat, src: seq<byte>): (field: seq<byte>)
    ensures |field| == n
  {
    if |src| >= n then src[..n] else src + seq(n - |src|, _ => 0)
  }

  /** Bytes copied behind others, and zeros behind them, are a field. */
  lemma FieldBehind(bytes: seq<byte>, before: seq<byte>, n: nat, src: seq<byte>)
    requires |bytes| == |before| + n && forall i | 0 <= i < |before| :: bytes[i] == before[i]
    requires forall i | |before| <= i < |bytes| ::
               bytes[i] == if i - |before| < |src| then src[i - |before|] else 0
    ensures bytes == before + Field(n, src)
  {
  }

  function AddressField(family: byte, ip: Ip): (field: seq<byte>)
    ensures |field| == 16
  {
    Field(16, if family == AF_INET6 then ip else To4OrNil(ip))
  }

  function To4OrNil(ip: Ip): seq<byte> {
    match To4(ip) case Some(quad) => quad case None => []
  }

  /** The identity block: ports and addresses, then interface and cookie words. */
  function IdBlock(little: bool, family: byte, id: SocketId): (block: seq<byte>)
    ensures |block| == SIZEOF_SOCKET_ID
  {
    EndsBlock(family, id) + NativeBlock(little, id)
  }

  function EndsBlock(family: byte, id: SocketId): (block: seq<byte>)
    ensures |block| == 36
  {
    PutBig16(id.sourcePort) + PutBig16(id.destinationPort) +
    AddressField(family, id.source) + AddressField(family, id.destination)
  }

  function NativeBlock(little: bool, id: SocketId): (block: seq<byte>)
    ensures |block| == 12
  {
    PutNative32(little, id.iface) + PutNative32(little, id.cookie0) + PutNative32(little, id.cookie1)
  }

  function Encode(little: bool, r: SocketRequest): (bytes: seq<byte>)
    ensures |bytes| == SIZEOF_SOCKET_REQUEST
  {
    [r.family, r.protocol, r.ext, r.pad] + PutNative32(little, r.states) + IdBlock(little, r.family, r.id)
  }

  function AddressAt(family: byte, field: seq<byte>): Ip
    requires |field| == 16
  {
    if family == AF_INET6 then field else Mapped(field[..4])
  }

  function DecodeId(little: bool, family: byte, block: seq<byte>): SocketId
    requires |block| == SIZEOF_SOCKET_ID
  {
    SocketId(AddressAt(family, block[4..20]), AddressAt(family, block[20..36]),
             Native32(little, block[40..44]), Native32(little, block[44..48]), Native32(little, block[36..40]),
             Big16(block[0..2]), Big16(block[2..4]))
  }

  /** A reply: a 4-byte header, the identity, five counters; shorter input is an error. */
  function Decode(little: bool, b: seq<byte>): Option<SocketInfo> {
    if |b| < SIZEOF_SOCKET then None
    else Some(SocketInfo(
                DecodeId(little, b[0], b[4..52]),
                Native32(little, b[52..56]), Native32(little, b[56..60]), Native32(little, b[60..64]),
                Native32(little, b[64..68]), Native32(little, b[68..72]),
                b[0], b[1], b[2], b[3]))
  }

  // ---------------------------------------------------------------- byte by byte

  /** Four bytes from position i on as a number, in the machine's order. */
  function NumberAt(little: bool, b: seq<byte>, i: nat): nat
    requires i + 4 <= |b|
  {
    var b0: int, b1: int, b2: int, b3: int := b[i], b[i + 1], b[i + 2], b[i + 3];
    if little then b0 + 0x100 * b1 + 0x1_0000 * b2 + 0x100_0000 * b3
    else b3 + 0x100 * b2 + 0x1_0000 * b1 + 0x100_0000 * b0
  }

  /** Two, high byte first. */
  function PairAt(b: seq<byte>, i: nat): nat
    requires i + 2 <= |b|
  {
    var high: int, low: int := b[i], b[i + 1];
    0x100 * high + low
  }

  lemma PutAt(little: bool, b: seq<byte>, i: nat, x: u32)
    requires i + 4 <= |b| && b[i..i + 4] == PutNative32(little, x)
    ensures NumberAt(little, b, i) == x
  {
    assert b[i] == b[i..i + 4][0] && b[i + 1] == b[i..i + 4][1];
    assert b[i + 2] == b[i..i + 4][2] && b[i + 3] == b[i..i + 4][3];
    BytesWord(x);
  }

  /** The 16 bytes of an address: all of it for IPv6 (family 10); else its four octets, if it is an IPv4
      address in either form, and zeros behind them. */
  predicate IsAddressField(field: seq<byte>, family: byte, ip: Ip)
    requires |field| == 16
  {
    if family == 10 then |ip| == 16 ==> field == ip
    else
      && (|ip| == 4 ==> field[..4] == ip)
      && (|ip| == 16 && ip[..12] == [0, 0, 0, 0, 0, 0, 0, 0, 0, 0, 0xFF, 0xFF] ==> field[..4] == ip[12..])
      && field[4..] == [0, 0, 0, 0, 0, 0, 0, 0, 0, 0, 0, 0]
  }

  lemma AddressFieldIs(family: byte, ip: Ip)
    ensures IsAddressField(AddressField(family, ip), family, ip)
  {
    if |ip| == 16 {
      assert ip[..16] == ip;
    }
  }

  /** A request: family, protocol, extensions, padding; states; ports, high byte first; addresses; and the
      words for interface and cookie. */
  lemma RequestLayout(little: bool, r: SocketRequest)
    ensures var b := Encode(little, r);
            && |b| == 56 && b[0] == r.family && b[1] == r.protocol && b[2] == r.ext && b[3] == r.pad
            && NumberAt(little, b, 4) == r.states
            && PairAt(b, 8) == r.id.sourcePort && PairAt(b, 10) == r.id.destinationPort
            && IsAddressField(b[12..28], r.family, r.id.source)
            && IsAddressField(b[28..44], r.family, r.id.destination)
            && NumberAt(little, b, 44) == r.id.iface
            && NumberAt(little, b, 48) == r.id.cookie0 && NumberAt(little, b, 52) == r.id.cookie1
  {
    var b := Encode(little, r);
    var p, q := PutBig16(r.id.sourcePort), PutBig16(r.id.destinationPort);
    var source, destination := AddressField(r.family, r.id.source), AddressField(r.family, r.id.destination);
    var iface, cookie0 := PutNative32(little, r.id.iface), PutNative32(little, r.id.cookie0);
    RequestSlices([r.family, r.protocol, r.ext, r.pad], PutNative32(little, r.states), p, q, source, destination,
                  iface, cookie0, PutNative32(little, r.id.cookie1));
    AddressFieldIs(r.family, r.id.source);
    AddressFieldIs(r.family, r.id.destination);
    PutAt(little, b, 4, r.states);
    PutAt(little, b, 44, r.id.iface);
    PutAt(little, b, 48, r.id.cookie0);
    PutAt(little, b, 52, r.id.cookie1);
  }

  lemma RequestSlices(head: seq<byte>, states: seq<byte>, p: seq<byte>, q: seq<byte>, a: seq<byte>, d: seq<byte>,
                      x: seq<byte>, y: seq<byte>, z: seq<byte>)
    requires |head| == |states| == 4 && |p| == |q| == 2 && |a| == |d| == 16 && |x| == |y| == |z| == 4
    ensures var s := head + states + ((p + q + a + d) + (x + y + z));
            && s[..4] == head && s[4..8] == states && s[8] == p[0] && s[9] == p[1] && s[10] == q[0] && s[11] == q[1]
            && s[12..28] == a && s[28..44] == d && s[44..48] == x && s[48..52] == y && s[52..56] == z
            && s[0] == head[0] && s[1] == head[1] && s[2] == head[2] && s[3] == head[3]
  {
    var block := (p + q + a + d) + (x + y + z);
    var s := head + states + block;
    Slices(p, q, a, d, x, y, z);
    assert s[8..] == block;
    assert s[12..28] == block[4..20] && s[28..44] == block[20..36];
    assert s[44..48] == block[36..40] && s[48..52] == block[40..44] && s[52..56] == block[44..48];
    assert s[8] == block[0] && s[9] == block[1] && s[10] == block[2] && s[11] == block[3];
  }

  /** The address in 16 bytes: as it is for IPv6, else the IPv4 address of its first four. */
  predicate IsAddressAt(ip: Ip, family: byte, field: seq<byte>)
    requires |field| == 16
  {
    ip == if family == 10 then field else [0, 0, 0, 0, 0, 0, 0, 0, 0, 0, 0xFF, 0xFF] + field[..4]
  }

  /** A reply: family, state, timer, retransmissions; the identity as in a request; five counters. */
  lemma ReplyLayout(little: bool, b: seq<byte>)
    ensures |b| < 72 ==> Decode(little, b) == None
    ensures |b| >= 72 ==>
              && Decode(little, b).Some?
              && var (info, id) := (Decode(little, b).value, Decode(little, b).value.id);
                 && info.family == b[0] && info.state == b[1] && info.timer == b[2] && info.retrans == b[3]
                 && id.sourcePort == PairAt(b, 4) && id.destinationPort == PairAt(b, 6)
                 && IsAddressAt(id.source, b[0], b[8..24]) && IsAddressAt(id.destination, b[0], b[24..40])
                 && id.iface == NumberAt(little, b, 40)
                 && id.cookie0 == NumberAt(little, b, 44) && id.cookie1 == NumberAt(little, b, 48)
                 && info.expires == NumberAt(little, b, 52)
                 && info.rqueue == NumberAt(little, b, 56) && info.wqueue == NumberAt(little, b, 60)
                 && info.uid == NumberAt(little, b, 64) && info.inode == NumberAt(little, b, 68)
  {
    if |b| >= 72 {
      IdFields(b, 4);
      GetAt(little, b, 40);
      GetAt(little, b, 44);
      GetAt(little, b, 48);
      GetAt(little, b, 52);
      GetAt(little, b, 56);
      GetAt(little, b, 60);
      GetAt(little, b, 64);
      GetAt(little, b, 68);
    }
  }

  lemma GetAt(little: bool, b: seq<byte>, i: nat)
    requires i + 4 <= |b|
    ensures Native32(little, b[i..i + 4]) == NumberAt(little, b, i)
  {
    assert b[i] == b[i..i + 4][0] && b[i + 1] == b[i..i + 4][1];
    assert b[i + 2] == b[i..i + 4][2] && b[i + 3] == b[i..i + 4][3];
  }

  // ---------------------------------------------------------------- round trip

  /** The addresses the family's layout has room for. */
  predicate Representable(family: byte, ip: Ip) {
    if family == AF_INET6 then |ip| == 16 else To4(ip).Some?
  }

  /** An address survives exactly when it has the form its family requires. */
  lemma AddressRoundTrip(family: byte, ip: Ip)
    ensures To16(ip) == Some(AddressAt(family, AddressField(family, ip))) <==> Representable(family, ip)
  {
    var field := AddressField(family, ip);
    if family == AF_INET6 {
      if |ip| == 4 {
        assert field[10] == 0 && Mapped(ip)[10] == MAPPED[10] == 0xFF;
      } else if |ip| == 16 {
        assert ip[..16] == ip;
      }
    } else if To4(ip).Some? {
      var quad := To4(ip).value;
      assert field[..4] == quad;
      if |ip| == 16 {
        assert Mapped(quad) == ip;
      }
    } else {
      assert field[..4] == [0, 0, 0, 0];
      if |ip| == 16 {
        assert AddressAt(family, field)[..12] == MAPPED;
      }
    }
  }

  lemma Slices(p: seq<byte>, q: seq<byte>, a: seq<byte>, b: seq<byte>, x: seq<byte>, y: seq<byte>, z: seq<byte>)
    requires |p| == |q| == 2 && |a| == |b| == 16 && |x| == |y| == |z| == 4
    ensures var s := (p + q + a + b) + (x + y + z);
            && s[0..2] == p && s[2..4] == q && s[4..20] == a && s[20..36] == b
            && s[36..40] == x && s[40..44] == y && s[44..48] == z
  {
  }

  /** Reading back an identity block gives the identity that was written, in either byte order;
      its addresses are as the previous lemma says. */
  lemma IdRoundTrip(little: bool, family: byte, id: SocketId)
    ensures var id' := DecodeId(little, family, IdBlock(little, family, id));
            && id' == id.(source := id'.source, destination := id'.destination)
            && (To16(id.source) == Some(id'.source) <==> Representable(family, id.source))
            && (To16(id.destination) == Some(id'.destination) <==> Representable(family, id.destination))
  {
    Slices(PutBig16(id.sourcePort), PutBig16(id.destinationPort),
           AddressField(family, id.source), AddressField(family, id.destination),
           PutNative32(little, id.iface), PutNative32(little, id.cookie0), PutNative32(little, id.cookie1));
    AddressRoundTrip(family, id.source);
    AddressRoundTrip(family, id.destination);
    NativeRoundTrip(little, id.iface);
    NativeRoundTrip(little, id.cookie0);
    NativeRoundTrip(little, id.cookie1);
    BigRoundTrip(id.sourcePort);
    BigRoundTrip(id.destinationPort);
  }

  /** The block that a request carries, put behind a reply's header, identifies the same socket. */
  lemma RequestInReply(little: bool, r: SocketRequest, header: seq<byte>, counters: seq<byte>)
    requires |header| == 4 && header[0] == r.family && |counters| == 20
    ensures var reply := header + Encode(little, r)[8..] + counters;
            && |reply| == SIZEOF_SOCKET && Decode(little, reply).Some?
            && var id := Decode(little, reply).value.id;
               && id == r.id.(source := id.source, destination := id.destination)
               && (To16(r.id.source) == Some(id.source) <==> Representable(r.family, r.id.source))
               && (To16(r.id.destination) == Some(id.destination) <==> Representable(r.family, r.id.destination))
  {
    var block := IdBlock(little, r.family, r.id);
    assert Encode(little, r)[8..] == block;
    assert (header + block + counters)[4..52] == block;
    assert (header + block + counters)[0] == header[0];
    IdRoundTrip(little, r.family, r.id);
  }

  /** Nothing past the 72nd byte matters. */
  lemma TailIsIgnored(little: bool, b: seq<byte>, tail: seq<byte>)
    requires |b| == SIZEOF_SOCKET
    ensures Decode(little, b + tail) == Decode(little, b)
  {
    var s := b + tail;
    assert s[4..52] == b[4..52] && s[52..56] == b[52..56] && s[56..60] == b[56..60] && s[60..64] == b[60..64];
    assert s[64..68] == b[64..68] && s[68..72] == b[68..72];
    assert s[0] == b[0] && s[1] == b[1] && s[2] == b[2] && s[3] == b[3];
  }

  // ---------------------------------------------------------------- the cursors

  /** writeBuffer. `written` is what lies before the cursor; every write must stay in bounds. */
  class WriteBuffer {
    const bytes: array<byte>
    var pos: nat
    ghost var written: seq<byte>

    ghost predicate Valid()
      reads this, bytes
    {
      && pos == |written| <= bytes.Length && bytes[..pos] == written
      && forall i | pos <= i < bytes.Length :: bytes[i] == 0
    }

    constructor (size: nat)
      ensures Valid() && fresh(bytes) && bytes.Length == size && written == []
    {
      bytes := new byte[size](_ => 0);
      pos, written := 0, [];
    }

    method Write(c: byte)
      requires Valid() && pos < bytes.Length
      modifies this, bytes
      ensures Valid() && written == old(written) + [c]
    {
      bytes[pos] := c;
      pos := pos + 1;
      written := written + [c];
    }

    /** copy(b.Next(n), data) */
    method CopyNext(n: nat, data: seq<byte>)
      requires Valid() && pos + n <= bytes.Length
      modifies this, bytes
      ensures Valid() && written == old(written) + Field(n, data)
    {
      var at := pos;
      pos := pos + n;
      var count := if |data| < n then |data| else n;
      ghost var before := bytes[..at];
      forall i | at <= i < at + count {
        bytes[i] := data[i - at];
      }
      FieldBehind(bytes[..pos], before, n, data);
      written := written + Field(n, data);
    }

    /** PutUint16 and PutUint32 into b.Next. */
    method PutNext(data: seq<byte>)
      requires Valid() && pos + |data| <= bytes.Length
      modifies this, bytes
      ensures Valid() && written == old(written) + data
    {
      CopyNext(|data|, data);
      assert Field(|data|, data) == data;
    }
  }

  /** readBuffer. */
  class ReadBuffer {
    const bytes: seq<byte>
    var pos: nat

    constructor (bytes: seq<byte>)
      ensures this.bytes == bytes && pos == 0
    {
      this.bytes, pos := bytes, 0;
    }

    method Read() returns (c: byte)
      requires pos < |bytes|
      modifies this
      ensures c == bytes[old(pos)] && pos == old(pos) + 1
    {
      c := bytes[pos];
      pos := pos + 1;
    }

    method Next(n: nat) returns (s: seq<byte>)
      requires pos + n <= |bytes|
      modifies this
      ensures s == bytes[old(pos)..old(pos) + n] && pos == old(pos) + n
    {
      s := bytes[pos..pos + n];
      pos := pos + n;
    }

    method NextBig16() returns (x: u16)
      requires pos + 2 <= |bytes|
      modifies this
      ensures x == Big16(bytes[old(pos)..old(pos) + 2]) && pos == old(pos) + 2
    {
      var s := Next(2);
      x := Big16(s);
    }

    method NextNative32(little: bool) returns (x: u32)
      requires pos + 4 <= |bytes|
      modifies this
      ensures x == Native32(little, bytes[old(pos)..old(pos) + 4]) && pos == old(pos) + 4
    {
      var s := Next(4);
      x := Native32(little, s);
    }
  }

  // ---------------------------------------------------------------- the two codecs

  /** SocketRequest.Serialize: fills its 56-byte buffer exactly, never past the end. */
  method Serialize(little: bool, r: SocketRequest) returns (out: array<byte>)
    ensures fresh(out) && out[..] == Encode(little, r)
  {
    var b := new WriteBuffer(SIZEOF_SOCKET_REQUEST);
    b.Write(r.family);
    b.Write(r.protocol);
    b.Write(r.ext);
    b.Write(r.pad);
    b.PutNext(PutNative32(little, r.states));
    assert b.written == [r.family, r.protocol, r.ext, r.pad] + PutNative32(little, r.states);
    WriteId(b, little, r.family, r.id);
    out := b.bytes;
    assert out[..] == out[..b.pos];
  }

  method WriteId(b: WriteBuffer, little: bool, family: byte, id: SocketId)
    requires b.Valid() && b.pos + SIZEOF_SOCKET_ID <= b.bytes.Length
    modifies b, b.bytes
    ensures b.Valid() && b.written == old(b.written) + IdBlock(little, family, id)
  {
    WriteEnds(b, family, id);
    ghost var ends := b.written;
    WriteNative(b, little, id);
    assert b.written == ends + NativeBlock(little, id);
  }

  method WriteNative(b: WriteBuffer, little: bool, id: SocketId)
    requires b.Valid() && b.pos + 12 <= b.bytes.Length
    modifies b, b.bytes
    ensures b.Valid() && b.written == old(b.written) + NativeBlock(little, id)
  {
    ghost var before := b.written;
    b.PutNext(PutNative32(little, id.iface));
    b.PutNext(PutNative32(little, id.cookie0));
    b.PutNext(PutNative32(little, id.cookie1));
    assert b.written == before + NativeBlock(little, id);
  }

  method WriteEnds(b: WriteBuffer, family: byte, id: SocketId)
    requires b.Valid() && b.pos + 36 <= b.bytes.Length
    modifies b, b.bytes
    ensures b.Valid() && b.written == old(b.written) + EndsBlock(family, id)
  {
    b.PutNext(PutBig16(id.sourcePort));
    b.PutNext(PutBig16(id.destinationPort));
    ghost var ports := b.written;
    WriteAddresses(b, family, id);
    assert ports == old(b.written) + PutBig16(id.sourcePort) + PutBig16(id.destinationPort);
    assert b.written == ports + AddressField(family, id.source) + AddressField(family, id.destination);
  }

  method WriteAddresses(b: WriteBuffer, family: byte, id: SocketId)
    requires b.Valid() && b.pos + 32 <= b.bytes.Length
    modifies b, b.bytes
    ensures b.Valid()
    ensures b.written == old(b.written) + AddressField(family, id.source) + AddressField(family, id.destination)
  {
    if family == AF_INET6 {
      b.CopyNext(16, id.source);
      b.CopyNext(16, id.destination);
    } else {
      b.CopyNext(16, To4OrNil(id.source));
      b.CopyNext(16, To4OrNil(id.destination));
    }
  }

  /** Socket.deserialize: an error on short input; otherwise reads exactly 72 bytes. */
  method Deserialize(little: bool, b: seq<byte>) returns (info: Option<SocketInfo>, consumed: nat)
    ensures info == Decode(little, b)
    ensures consumed == if |b| < SIZEOF_SOCKET then 0 else SIZEOF_SOCKET
  {
    if |b| < SIZEOF_SOCKET {
      return None, 0;
    }
    var rb := new ReadBuffer(b);
    var family := rb.Read();
    var state := rb.Read();
    var timer := rb.Read();
    var retrans := rb.Read();
    var id := ReadId(rb, little, family);
    var expires := rb.NextNative32(little);
    var rqueue := rb.NextNative32(little);
    var wqueue := rb.NextNative32(little);
    var uid := rb.NextNative32(little);
    var inode := rb.NextNative32(little);
    info := Some(SocketInfo(id, expires, rqueue, wqueue, uid, inode, family, state, timer, retrans));
    consumed := rb.pos;
  }

  method ReadId(rb: ReadBuffer, little: bool, family: byte) returns (id: SocketId)
    requires rb.pos + SIZEOF_SOCKET_ID <= |rb.bytes|
    modifies rb
    ensures rb.pos == old(rb.pos) + SIZEOF_SOCKET_ID
    ensures id == DecodeId(little, family, rb.bytes[old(rb.pos)..old(rb.pos) + SIZEOF_SOCKET_ID])
  {
    var sourcePort := rb.NextBig16();
    var destinationPort := rb.NextBig16();
    var source := ReadAddress(rb, family);
    var destination := ReadAddress(rb, family);
    var iface := rb.NextNative32(little);
    var cookie0 := rb.NextNative32(little);
    var cookie1 := rb.NextNative32(little);
    id := SocketId(source, destination, cookie0, cookie1, iface, sourcePort, destinationPort);
    IdFields(rb.bytes, old(rb.pos));
  }

  /** Sixteen bytes as they are, or net.IPv4 of the first four, the other twelve skipped. */
  method ReadAddress(rb: ReadBuffer, family: byte) returns (ip: Ip)
    requires rb.pos + 16 <= |rb.bytes|
    modifies rb
    ensures rb.pos == old(rb.pos) + 16
    ensures ip == AddressAt(family, rb.bytes[old(rb.pos)..old(rb.pos) + 16])
  {
    if family == AF_INET6 {
      ip := rb.Next(16);
    } else {
      var q0 := rb.Read();
      var q1 := rb.Read();
      var q2 := rb.Read();
      var q3 := rb.Read();
      var skipped := rb.Next(12);
      ip := Mapped([q0, q1, q2, q3]);
      assert rb.bytes[old(rb.pos)..old(rb.pos) + 16][..4] == [q0, q1, q2, q3];
    }
  }

  lemma IdFields(b: seq<byte>, at: nat)
    requires at + SIZEOF_SOCKET_ID <= |b|
    ensures b[at..at + SIZEOF_SOCKET_ID][0..2] == b[at..at + 2]
    ensures b[at..at + SIZEOF_SOCKET_ID][2..4] == b[at + 2..at + 4]
    ensures b[at..at + SIZEOF_SOCKET_ID][4..20] == b[at + 4..at + 20]
    ensures b[at..at + SIZEOF_SOCKET_ID][20..36] == b[at + 20..at + 36]
    ensures b[at..at + SIZEOF_SOCKET_ID][36..40] == b[at + 36..at + 40]
    ensures b[at..at + SIZEOF_SOCKET_ID][40..44] == b[at + 40..at + 44]
    ensures b[at..at + SIZEOF_SOCKET_ID][44..48] == b[at + 44..at + 48]
  {
    assert b[at..at + SIZEOF_SOCKET_ID][44..48] == b[at + 44..at + 48];
  }
}
