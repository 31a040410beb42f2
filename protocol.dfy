/** The network protocol of dilithium/network/protocol.py: a message is a JSON document of
    base64 fields, sent as a 4-byte big-endian length followed by the document and answered
    with "OK". Sockets become a `Connection` object holding the bytes in each direction; the
    JSON text syntax is abstracted into a serializer and a parser. */
module Protocol {
  import opened Bytes
  import opened Outcomes
  import opened Json
  import opened Sign
  import opened KeyGen
  import opened Audit
  import Base64
  import Utf8

  /** What `unpack_message` returns: the byte fields, z as the flat int32 array
      `frombuffer` gives (its row shape is not on the wire), and the public key. */
  datatype Packet = Packet(ciphertext: seq<Byte>, nonce: seq<Byte>, mu: seq<Byte>, z: seq<int>,
                           seed: seq<Byte>, t: seq<seq<int>>)

  /** Every failure of `unpack_message` is re-raised as a ValueError. */
  datatype UnpackError = ValueError

  /** Every failure of `send_message` is re-raised as a RuntimeError. */
  datatype SendError = RuntimeError

  /** `[arr.tolist() for arr in t]`. */
  function IntRows(rows: seq<seq<int>>): Value {
    List(seq(|rows|, i requires 0 <= i < |rows| =>
      List(seq(|rows[i]|, j requires 0 <= j < |rows[i]| => Integer(rows[i][j])))))
  }

  /** `z.tobytes()`: the int32 coefficients in row-major order, four little-endian bytes each. */
  function ZBytes(z: seq<seq<int>>): (r: seq<Byte>)
    requires AllInt32(z)
    ensures |r| == 4 * TotalLength(z)
  {
    FlattenInt32(z);
    Int32sToBytes(Flatten(z))
  }

  /** The dict `pack_message` serializes. */
  function Document(ciphertext: seq<Byte>, nonce: seq<Byte>, sig: Signature, pk: PublicKey): Value
    requires AllInt32(sig.z) && AllInt32(pk.t)
  {
    Object([("ciphertext", Text(Base64.Encode(ciphertext))),
            ("nonce", Text(Base64.Encode(nonce))),
            ("mu", Text(Base64.Encode(sig.mu))),
            ("z", Text(Base64.Encode(ZBytes(sig.z)))),
            ("public_key", Object([("seed", Text(Base64.Encode(pk.seed))), ("t", IntRows(pk.t))]))])
  }

  /** `pack_message(ciphertext, nonce, (mu, z), public_key)`: `json.dumps(...).encode()`. */
  function Pack(dumps: Serializer, ciphertext: seq<Byte>, nonce: seq<Byte>, sig: Signature, pk: PublicKey)
    : (data: seq<Byte>)
    requires AllInt32(sig.z) && AllInt32(pk.t)
    ensures Utf8.Valid(data)
  {
    var text := dumps(Document(ciphertext, nonce, sig, pk));
    Utf8.EncodeValid(text);
    Utf8.Encode(text)
  }

  /** `base64.b64decode(doc[key])`: None when doc is not a dict, the key is missing, the value
      is not a string or it is not base 64. */
  function BytesField(doc: Value, key: string): (r: Option<seq<Byte>>)
    ensures r.Some? ==> Lookup(doc, key).Some? && Lookup(doc, key).value.Text?
  {
    match Lookup(doc, key)
    case Some(Text(s)) => Base64.Decode(s)
    case _ => None
  }

  /** `np.array(row, dtype=np.int32)` for a list of integers that fit. */
  function IntRow(v: Value): (r: Option<seq<int>>)
    ensures r.Some? ==> forall j :: 0 <= j < |r.value| ==> InInt32(r.value[j])
  {
    if v.List? && forall j :: 0 <= j < |v.items| ==> v.items[j].Integer? && InInt32(v.items[j].i)
    then Some(seq(|v.items|, j requires 0 <= j < |v.items| => v.items[j].i))
    else None
  }

  /** The list of rows `unpack_message` builds for `t`. */
  function Rows(v: Option<Value>): (r: Option<seq<seq<int>>>)
    ensures r.Some? ==> AllInt32(r.value)
  {
    if v.Some? && v.value.List? && forall i :: 0 <= i < |v.value.items| ==> IntRow(v.value.items[i]).Some?
    then
      var items := v.value.items;
      Some(seq(|items|, i requires 0 <= i < |items| => IntRow(items[i]).value))
    else None
  }

  /** `unpack_message(data)`. */
  function Unpack(loads: Parser, data: seq<Byte>): (r: Result<Packet, UnpackError>)
    ensures r.Success? ==> Utf8.Valid(data) && AllInt32(r.value.t)
  {
    var text := Utf8.Decode(data);
    if text.None? then Failure(ValueError)
    else
      var doc := loads(text.value);
      if doc.None? then Failure(ValueError)
      else
        var ciphertext := BytesField(doc.value, "ciphertext");
        var nonce := BytesField(doc.value, "nonce");
        var mu := BytesField(doc.value, "mu");
        var zBytes := BytesField(doc.value, "z");
        if ciphertext.None? || nonce.None? || mu.None? || zBytes.None? || |zBytes.value| % 4 != 0 then
          Failure(ValueError)
        else
          var key := Lookup(doc.value, "public_key");
          var seed := if key.Some? then BytesField(key.value, "seed") else None;
          var t := if key.Some? then Rows(Lookup(key.value, "t")) else None;
          if seed.None? || t.None? then Failure(ValueError)
          else Success(Packet(ciphertext.value, nonce.value, mu.value, BytesToInt32s(zBytes.value),
                              seed.value, t.value))
  }

  /** A message unpacks only if it is UTF-8 text that parses, holds the four base 64 byte
      fields with a z whose length is a multiple of 4, and a public key with a base 64 seed
      and a list of int32 rows. */
  lemma UnpackRequires(loads: Parser, data: seq<Byte>)
    requires Unpack(loads, data).Success?
    ensures Utf8.Valid(data)
    ensures var doc := loads(Utf8.Decode(data).value);
      && doc.Some?
      && BytesField(doc.value, "ciphertext").Some?
      && BytesField(doc.value, "nonce").Some?
      && BytesField(doc.value, "mu").Some?
      && BytesField(doc.value, "z").Some? && |BytesField(doc.value, "z").value| % 4 == 0
      && Lookup(doc.value, "public_key").Some?
      && BytesField(Lookup(doc.value, "public_key").value, "seed").Some?
      && Rows(Lookup(Lookup(doc.value, "public_key").value, "t")).Some?
  {
  }

  lemma IntRowsWellFormed(rows: seq<seq<int>>)
    ensures WellFormed(IntRows(rows))
  {
    var v := IntRows(rows);
    forall i | 0 <= i < |v.items| ensures WellFormed(v.items[i]) {
      var row := v.items[i];
      assert forall j :: 0 <= j < |row.items| ==> WellFormed(row.items[j]);
    }
  }

  lemma RowsOfIntRows(rows: seq<seq<int>>)
    requires AllInt32(rows)
    ensures Rows(Some(IntRows(rows))) == Some(rows)
  {
    var items := IntRows(rows).items;
    forall i | 0 <= i < |items| ensures IntRow(items[i]) == Some(rows[i]) {
      var row := items[i];
      assert forall j :: 0 <= j < |row.items| ==> row.items[j] == Integer(rows[i][j]);
      assert seq(|row.items|, j requires 0 <= j < |row.items| => row.items[j].i) == rows[i];
    }
    assert seq(|items|, i requires 0 <= i < |items| => IntRow(items[i]).value) == rows;
  }

  /** The packed document is a value JSON can carry. */
  lemma DocumentWellFormed(ciphertext: seq<Byte>, nonce: seq<Byte>, sig: Signature, pk: PublicKey)
    requires AllInt32(sig.z) && AllInt32(pk.t)
    ensures var doc := Document(ciphertext, nonce, sig, pk);
      WellFormed(doc) && DistinctKeys(doc.members) && DistinctKeys(doc.members[4].1.members)
  {
    KeyWellFormed(pk);
    DocumentShape(Base64.Encode(ciphertext), Base64.Encode(nonce), Base64.Encode(sig.mu),
                  Base64.Encode(ZBytes(sig.z)),
                  Object([("seed", Text(Base64.Encode(pk.seed))), ("t", IntRows(pk.t))]));
  }

  /** The five members of the document, whatever their texts. */
  lemma DocumentShape(ciphertext: string, nonce: string, mu: string, z: string, key: Value)
    requires WellFormed(key)
    ensures var doc := Object([("ciphertext", Text(ciphertext)), ("nonce", Text(nonce)), ("mu", Text(mu)),
                               ("z", Text(z)), ("public_key", key)]);
      WellFormed(doc) && DistinctKeys(doc.members)
  {
    var doc := Object([("ciphertext", Text(ciphertext)), ("nonce", Text(nonce)), ("mu", Text(mu)),
                       ("z", Text(z)), ("public_key", key)]);
    DistinctByChar(doc.members, 0);
    forall i | 0 <= i < |doc.members|
      ensures WellFormed(doc.members[i].1)
    {
    }
  }

  /** The nested `public_key` dict. */
  lemma KeyWellFormed(pk: PublicKey)
    ensures var key := Object([("seed", Text(Base64.Encode(pk.seed))), ("t", IntRows(pk.t))]);
      WellFormed(key) && DistinctKeys(key.members)
  {
    var key := Object([("seed", Text(Base64.Encode(pk.seed))), ("t", IntRows(pk.t))]);
    IntRowsWellFormed(pk.t);
    DistinctByChar(key.members, 0);
  }

  /** A base 64 member of a dict with distinct keys reads back as the bytes it encodes. */
  lemma FieldOf(members: seq<(string, Value)>, i: int, bytes: seq<Byte>)
    requires DistinctKeys(members) && 0 <= i < |members| && members[i].1 == Text(Base64.Encode(bytes))
    ensures BytesField(Object(members), members[i].0) == Some(bytes)
  {
    LookupDistinct(members, i);
    Base64.DecodeEncode(bytes);
  }

  /** Reading the fields of the packed document gives back what was packed. */
  lemma DocumentFields(ciphertext: seq<Byte>, nonce: seq<Byte>, sig: Signature, pk: PublicKey)
    requires AllInt32(sig.z) && AllInt32(pk.t)
    ensures BytesField(Document(ciphertext, nonce, sig, pk), "ciphertext") == Some(ciphertext)
    ensures BytesField(Document(ciphertext, nonce, sig, pk), "nonce") == Some(nonce)
    ensures BytesField(Document(ciphertext, nonce, sig, pk), "mu") == Some(sig.mu)
    ensures BytesField(Document(ciphertext, nonce, sig, pk), "z") == Some(ZBytes(sig.z))
  {
    var members := Document(ciphertext, nonce, sig, pk).members;
    DocumentWellFormed(ciphertext, nonce, sig, pk);
    FieldOf(members, 0, ciphertext);
    FieldOf(members, 1, nonce);
    FieldOf(members, 2, sig.mu);
    FieldOf(members, 3, ZBytes(sig.z));
  }

  /** Reading the public key of the packed document gives back the seed and the rows of t. */
  lemma DocumentKey(ciphertext: seq<Byte>, nonce: seq<Byte>, sig: Signature, pk: PublicKey)
    requires AllInt32(sig.z) && AllInt32(pk.t)
    ensures var doc := Document(ciphertext, nonce, sig, pk);
      && Lookup(doc, "public_key") == Some(doc.members[4].1)
      && BytesField(doc.members[4].1, "seed") == Some(pk.seed)
      && Rows(Lookup(doc.members[4].1, "t")) == Some(pk.t)
  {
    var members := Document(ciphertext, nonce, sig, pk).members;
    var key := members[4].1;
    DocumentWellFormed(ciphertext, nonce, sig, pk);
    LookupDistinct(members, 4);
    FieldOf(key.members, 0, pk.seed);
    LookupDistinct(key.members, 1);
    RowsOfIntRows(pk.t);
  }

  /** What `pack_message` sends, `unpack_message` gives back: the byte fields and the seed
      byte for byte, z as its flattened int32 coefficients, and t row for row. */
  lemma UnpackPack(dumps: Serializer, loads: Parser, ciphertext: seq<Byte>, nonce: seq<Byte>, sig: Signature,
                   pk: PublicKey)
    requires Inverse(dumps, loads) && AllInt32(sig.z) && AllInt32(pk.t)
    ensures Unpack(loads, Pack(dumps, ciphertext, nonce, sig, pk))
         == Success(Packet(ciphertext, nonce, sig.mu, Flatten(sig.z), pk.seed, pk.t))
  {
    var doc := Document(ciphertext, nonce, sig, pk);
    DocumentWellFormed(ciphertext, nonce, sig, pk);
    Utf8.DecodeEncode(dumps(doc));
    assert loads(Utf8.Decode(Pack(dumps, ciphertext, nonce, sig, pk)).value) == Some(doc);
    DocumentFields(ciphertext, nonce, sig, pk);
    DocumentKey(ciphertext, nonce, sig, pk);
    FlattenInt32(sig.z);
    Int32sRoundTrip(Flatten(sig.z));
  }

  /** `struct.pack('>I', size)`. */
  function Header(size: nat): (h: seq<Byte>)
    requires size < 0x1_0000_0000
    ensures |h| == 4
  {
    BigEndianBytes(size, 4)
  }

  /** `struct.unpack('>I', header)[0]`. */
  function HeaderSize(header: seq<Byte>): (size: nat)
    requires |header| == 4
    ensures size < 0x1_0000_0000
  {
    assert Pow256(4) == 0x1_0000_0000;
    BigEndian(header)
  }

  /** The header carries the size exactly, both ways round. */
  lemma HeaderRoundTrip(size: nat, header: seq<Byte>)
    requires size < 0x1_0000_0000 && |header| == 4
    ensures HeaderSize(Header(size)) == size
    ensures Header(HeaderSize(header)) == header
  {
    assert Pow256(4) == 0x1_0000_0000;
    BigEndianRoundTrip(size, 4);
    BigEndianBytesRoundTrip(header);
  }

  /** The acknowledgement `b'OK'`. */
  const Ack: seq<Byte> := [0x4F, 0x4B]

  /** One end of a connected stream socket. */
  class Connection {
    /** The bytes the peer has sent that have not been read yet, up to the end of its stream. */
    var incoming: seq<Byte>
    /** Everything written to the peer. */
    var outgoing: seq<Byte>

    constructor (incoming: seq<Byte>)
      ensures this.incoming == incoming && outgoing == []
    {
      this.incoming := incoming;
      outgoing := [];
    }

    /** `recv(max)`: the next bytes of the stream, at most max of them, and none only at the
        end of the stream. How many arrive is up to the network; callers may rely on nothing
        more than this contract. */
    method Recv(max: nat) returns (chunk: seq<Byte>)
      modifies this`incoming
      ensures |chunk| <= max && |chunk| <= |old(incoming)|
      ensures chunk == old(incoming)[..|chunk|] && incoming == old(incoming)[|chunk|..]
      ensures chunk == [] ==> max == 0 || old(incoming) == []
    {
      var n := if max < |incoming| then max else |incoming|;
      chunk := incoming[..n];
      incoming := incoming[n..];
    }

    /** `sendall(data)`. */
    method SendAll(data: seq<Byte>)
      modifies this`outgoing
      ensures outgoing == old(outgoing) + data
    {
      outgoing := outgoing + data;
    }
  }

  /** What one connection to the listener amounts to. */
  datatype Frame =
    | Closed                  // nothing arrived: `continue`
    | BadHeader               // fewer than four header bytes arrived: struct.error, reported
    | Short(data: seq<Byte>)  // the stream ended before `size` bytes: no acknowledgement
    | Complete(data: seq<Byte>)

  /** How `_listen` splits the bytes s the peer sent into the frame f and the bytes rest it
      leaves unread: nothing for an empty stream, a header cut short after one to three
      bytes, the `size` bytes the header announces followed by whatever comes after them,
      or everything after the header when the stream ends first. */
  predicate FrameOf(s: seq<Byte>, f: Frame, rest: seq<Byte>) {
    && (f == Closed <==> s == [])
    && (f == Closed ==> rest == [])
    && (f.BadHeader? ==> |rest| < |s| && |s| - |rest| < 4 && rest == s[|s| - |rest|..])
    && (f.Complete? || f.Short? ==> |s| >= 4)
    && (f.Complete? ==>
          && |f.data| == HeaderSize(s[..4]) && 4 + |f.data| <= |s|
          && f.data == s[4..4 + |f.data|] && rest == s[4 + |f.data|..])
    && (f.Short? ==> |f.data| < HeaderSize(s[..4]) && f.data == s[4..] && rest == [])
  }

  /** A stream that holds the whole frame its header announces yields exactly that frame,
      unless the header itself arrived cut short. */
  lemma FullFrame(s: seq<Byte>, f: Frame, rest: seq<Byte>)
    requires FrameOf(s, f, rest) && !f.BadHeader?
    requires |s| >= 4 && 4 + HeaderSize(s[..4]) <= |s|
    ensures f == Complete(s[4..4 + HeaderSize(s[..4])]) && rest == s[4 + HeaderSize(s[..4])..]
  {
  }

  /** One to three header bytes, then the stream stops short: a BadHeader. */
  lemma HeaderCutShort(s: seq<Byte>, header: seq<Byte>, rest: seq<Byte>)
    requires s == header + rest && 0 < |header| < 4
    ensures FrameOf(s, BadHeader, rest)
  {
    assert rest == s[|s| - |rest|..];
  }

  /** A header announcing exactly the bytes that follow it: a Complete frame. */
  lemma FrameComplete(s: seq<Byte>, header: seq<Byte>, data: seq<Byte>, rest: seq<Byte>)
    requires |header| == 4 && s == header + data + rest && |data| == HeaderSize(header)
    ensures FrameOf(s, Complete(data), rest)
  {
    assert s[..4] == header;
    assert s[4..4 + |data|] == data;
    assert s[4 + |data|..] == rest;
  }

  /** A header followed by fewer bytes than it announces, then the end: a Short frame. */
  lemma FrameShort(s: seq<Byte>, header: seq<Byte>, data: seq<Byte>, rest: seq<Byte>)
    requires |header| == 4 && s == header + data + rest && |data| < HeaderSize(header) && rest == []
    ensures FrameOf(s, Short(data), rest)
  {
    assert s[..4] == header;
    assert s[4..] == data;
  }

  /** The framing part of `_listen`: read the header, accumulate chunks of at most 4096 bytes
      until `size` bytes are in or the stream ends, and acknowledge exactly when `size` bytes
      arrived. */
  method ReceiveFrame(conn: Connection) returns (f: Frame)
    modifies conn`incoming, conn`outgoing
    ensures FrameOf(old(conn.incoming), f, conn.incoming)
    ensures conn.outgoing == if f.Complete? then old(conn.outgoing) + Ack else old(conn.outgoing)
  {
    ghost var s := conn.incoming;
    var header := conn.Recv(4);
    if header == [] {
      return Closed;
    }
    if |header| != 4 {
      HeaderCutShort(s, header, conn.incoming);
      return BadHeader;
    }
    var size := HeaderSize(header);
    var data: seq<Byte> := [];
    while |data| < size
      invariant |data| <= size
      invariant s == header + data + conn.incoming
      invariant conn.outgoing == old(conn.outgoing)
      decreases size - |data|
    {
      var want := if size - |data| < 4096 then size - |data| else 4096;
      label Step:
      var chunk := conn.Recv(want);
      assert old@Step(conn.incoming) == chunk + conn.incoming;
      if chunk == [] {
        break;
      }
      assert conn.incoming == old@Step(conn.incoming)[|chunk|..];
      data := data + chunk;
    }
    if |data| == size {
      ghost var rest := conn.incoming;
      conn.SendAll(Ack);
      f := Complete(data);
      FrameComplete(s, header, data, rest);
    } else {
      f := Short(data);
      FrameShort(s, header, data, conn.incoming);
    }
  }

  /** One connection handled by `_listen`: a complete frame is acknowledged, unpacked and,
      when it unpacks, handed to the callback (which is not modelled) and logged as
      MESSAGE_RECEIVED; a failure to unpack is reported and nothing is logged. */
  method ServeConnection(conn: Connection, loads: Parser, log: SecureAuditLog, timestamp: real, peer: string)
    returns (f: Frame, delivered: Option<Packet>)
    requires log.Valid()
    modifies conn`incoming, conn`outgoing, log`previousHash, log`records, log`hashes
    ensures log.Valid()
    ensures FrameOf(old(conn.incoming), f, conn.incoming)
    ensures conn.outgoing == if f.Complete? then old(conn.outgoing) + Ack else old(conn.outgoing)
    ensures delivered.Some? <==> f.Complete? && Unpack(loads, f.data).Success?
    ensures delivered.Some? ==> delivered.value == Unpack(loads, f.data).value
    ensures log.records == if delivered.Some? then old(log.records) + [ReceivedEvent(timestamp, peer)]
                           else old(log.records)
  {
    f := ReceiveFrame(conn);
    delivered := None;
    if f.Complete? {
      delivered := Deliver(f.data, loads, log, timestamp, peer);
    }
  }

  /** The processing of a complete frame in `_listen`. */
  method Deliver(data: seq<Byte>, loads: Parser, log: SecureAuditLog, timestamp: real, peer: string)
    returns (delivered: Option<Packet>)
    requires log.Valid()
    modifies log`previousHash, log`records, log`hashes
    ensures log.Valid()
    ensures delivered == if Unpack(loads, data).Success? then Some(Unpack(loads, data).value) else None
    ensures log.records == if delivered.Some? then old(log.records) + [ReceivedEvent(timestamp, peer)]
                           else old(log.records)
  {
    var unpacked := Unpack(loads, data);
    if unpacked.Failure? {
      return None;
    }
    LogReceived(log, timestamp, peer);
    delivered := Some(unpacked.value);
  }

  /** The MESSAGE_RECEIVED entry `_listen` logs for a delivered message. */
  method LogReceived(log: SecureAuditLog, timestamp: real, peer: string)
    requires log.Valid()
    modifies log`previousHash, log`records, log`hashes
    ensures log.Valid()
    ensures log.records == old(log.records) + [ReceivedEvent(timestamp, peer)]
  {
    var event := new AuditEvent(timestamp, "MESSAGE_RECEIVED", "receiver", "receive_message", "SUCCESS",
                                [("from", Text(peer))]);
    assert event.Data() == ReceivedEvent(timestamp, peer);
    log.LogEvent(event);
  }

  /** The event the receiver logs. */
  function ReceivedEvent(timestamp: real, peer: string): Value {
    EventData(timestamp, "MESSAGE_RECEIVED", "receiver", "receive_message", "SUCCESS", [("from", Text(peer))])
  }

  /** The event the sender logs. */
  function SentEvent(timestamp: real, host: string, port: int): Value {
    EventData(timestamp, "MESSAGE_SENT", "sender", "send_message", "SUCCESS",
              [("host", Text(host)), ("port", Integer(port))])
  }

  /** `send_message(message_data)` over a connected socket: a size that does not fit the
      header fails before anything is sent; otherwise header and message go out, and only a
      first `recv(2)` of exactly "OK" counts as success, which is logged as MESSAGE_SENT. */
  method SendMessage(conn: Connection, message: seq<Byte>, log: SecureAuditLog, timestamp: real, host: string,
                     port: int)
    returns (r: Result<(), SendError>)
    requires log.Valid()
    modifies conn`incoming, conn`outgoing, log`previousHash, log`records, log`hashes
    ensures log.Valid()
    ensures |message| >= 0x1_0000_0000 ==> r.Failure? && conn.outgoing == old(conn.outgoing)
    ensures |message| < 0x1_0000_0000 ==> conn.outgoing == old(conn.outgoing) + Header(|message|) + message
    ensures r.Success? ==> |old(conn.incoming)| >= 2 && old(conn.incoming)[..2] == Ack
    ensures log.records == if r.Success? then old(log.records) + [SentEvent(timestamp, host, port)]
                           else old(log.records)
  {
    if |message| >= 0x1_0000_0000 {
      return Failure(RuntimeError);
    }
    conn.SendAll(Header(|message|));
    conn.SendAll(message);
    var ack := conn.Recv(2);
    if ack != Ack {
      return Failure(RuntimeError);
    }
    LogSent(log, timestamp, host, port);
    r := Success(());
  }

  /** The MESSAGE_SENT entry `send_message` logs after the acknowledgement. */
  method LogSent(log: SecureAuditLog, timestamp: real, host: string, port: int)
    requires log.Valid()
    modifies log`previousHash, log`records, log`hashes
    ensures log.Valid()
    ensures log.records == old(log.records) + [SentEvent(timestamp, host, port)]
  {
    var event := new AuditEvent(timestamp, "MESSAGE_SENT", "sender", "send_message", "SUCCESS",
                                [("host", Text(host)), ("port", Integer(port))]);
    assert event.Data() == SentEvent(timestamp, host, port);
    log.LogEvent(event);
  }
}
