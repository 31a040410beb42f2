/** The tamper-evident audit log of dilithium/security/audit.py: every logged event gets the
    SHA3-256 hex digest of the previous event's hash followed by the event's JSON text, so
    the stored hashes form a chain. The logging to a file is not modelled. */
module Audit {
  import opened Bytes
  import opened Outcomes
  import opened Hashing
  import opened Json
  import Hex
  import Utf8

  /** `AuditEvent`: a record whose `hash` starts empty and is filled in by `log_event`; no
      other field is ever assigned after construction. */
  class AuditEvent {
    const timestamp: real
    const eventType: string
    const userId: string
    const action: string
    const status: string
    const details: seq<(string, Value)>
    var hash: string

    constructor (timestamp: real, eventType: string, userId: string, action: string, status: string,
                 details: seq<(string, Value)>)
      ensures this.timestamp == timestamp && this.eventType == eventType && this.userId == userId
      ensures this.action == action && this.status == status && this.details == details
      ensures hash == ""
    {
      this.timestamp := timestamp;
      this.eventType := eventType;
      this.userId := userId;
      this.action := action;
      this.status := status;
      this.details := details;
      hash := "";
    }

    /** `event_data`: the event's fields under the keys `log_event` gives them, six distinct
        keys and no `hash`. */
    function Data(): (v: Value)
      ensures v.Object? && |v.members| == 6 && DistinctKeys(v.members)
      ensures Lookup(v, "timestamp") == Some(Float(timestamp)) && Lookup(v, "type") == Some(Text(eventType))
      ensures Lookup(v, "user") == Some(Text(userId)) && Lookup(v, "action") == Some(Text(action))
      ensures Lookup(v, "status") == Some(Text(status)) && Lookup(v, "details") == Some(Object(details))
      ensures Lookup(v, "hash") == None
    {
      EventDataKeys(timestamp, eventType, userId, action, status, details);
      EventData(timestamp, eventType, userId, action, status, details)
    }
  }

  /** The dict `log_event` serializes. */
  function EventData(timestamp: real, eventType: string, userId: string, action: string, status: string,
                     details: seq<(string, Value)>): Value
  {
    Object([("timestamp", Float(timestamp)), ("type", Text(eventType)), ("user", Text(userId)),
            ("action", Text(action)), ("status", Text(status)), ("details", Object(details))])
  }

  /** The serialized dict has exactly six keys, each naming one field of the event, and no
      `hash` key: the hash never covers itself. */
  lemma EventDataKeys(timestamp: real, eventType: string, userId: string, action: string, status: string,
                      details: seq<(string, Value)>)
    ensures var v := EventData(timestamp, eventType, userId, action, status, details);
      && v.Object? && |v.members| == 6 && DistinctKeys(v.members)
      && Lookup(v, "timestamp") == Some(Float(timestamp))
      && Lookup(v, "type") == Some(Text(eventType))
      && Lookup(v, "user") == Some(Text(userId))
      && Lookup(v, "action") == Some(Text(action))
      && Lookup(v, "status") == Some(Text(status))
      && Lookup(v, "details") == Some(Object(details))
      && Lookup(v, "hash") == None
  {
    var members := EventData(timestamp, eventType, userId, action, status, details).members;
    DistinctByChar(members, 1);
    AbsentByChar(members, "hash", 1);
    LookupDistinct(members, 0);
    LookupDistinct(members, 1);
    LookupDistinct(members, 2);
    LookupDistinct(members, 3);
    LookupDistinct(members, 4);
    LookupDistinct(members, 5);
  }

  /** `sha3_256(f"{prev}{data}".encode()).hexdigest()`, with `data` the text the sorted-key
      serializer writes for the event. */
  function Link(sha3: Digest32, dumps: Serializer, prev: string, data: Value): (h: string)
    ensures |h| == 64
  {
    Hex.Encode(sha3(Utf8.Encode(prev + dumps(data))), false)
  }

  /** Every link is 64 lower-case hex digits, and reads back as the digest of the previous
      hash followed by the event's text. */
  lemma LinkIsHexDigest(sha3: Digest32, dumps: Serializer, prev: string, data: Value)
    ensures var h := Link(sha3, dumps, prev, data);
      && (forall i :: 0 <= i < |h| ==> Hex.IsLowerDigit(h[i]))
      && Hex.Decode(h) == Some(sha3(Utf8.Encode(prev + dumps(data))))
  {
    Hex.DecodeEncode(sha3(Utf8.Encode(prev + dumps(data))), false);
  }

  /** The hashes stored for a series of logged events: each links the previous hash (the
      empty string for the first) with the event's data, a left fold over the series. */
  function Chain(sha3: Digest32, dumps: Serializer, records: seq<Value>): (hashes: seq<string>)
    ensures |hashes| == |records|
  {
    if records == [] then []
    else
      var front := Chain(sha3, dumps, records[..|records| - 1]);
      front + [Link(sha3, dumps, Latest(front), records[|records| - 1])]
  }

  /** The hash the next event links: the last one stored, or the empty string. */
  function Latest(hashes: seq<string>): string {
    if hashes == [] then "" else hashes[|hashes| - 1]
  }

  /** Logging one more event appends one link to the chain. */
  lemma ChainSnoc(sha3: Digest32, dumps: Serializer, records: seq<Value>, data: Value)
    ensures Chain(sha3, dumps, records + [data])
         == Chain(sha3, dumps, records) + [Link(sha3, dumps, Latest(Chain(sha3, dumps, records)), data)]
  {
    assert (records + [data])[..|records|] == records;
  }

  /** The step `log_event` takes: the chain so far, extended by the new link, is the chain of
      the events so far and the new one, and its latest hash is that link. */
  lemma ChainExtends(sha3: Digest32, dumps: Serializer, records: seq<Value>, hashes: seq<string>, data: Value)
    requires hashes == Chain(sha3, dumps, records)
    ensures var h := Link(sha3, dumps, Latest(hashes), data);
      hashes + [h] == Chain(sha3, dumps, records + [data]) && Latest(hashes + [h]) == h
  {
    ChainSnoc(sha3, dumps, records, data);
  }

  /** The chain of a prefix of the events is the prefix of the chain. */
  lemma {:induction false} ChainPrefix(sha3: Digest32, dumps: Serializer, records: seq<Value>, m: nat)
    requires m <= |records|
    ensures Chain(sha3, dumps, records[..m]) == Chain(sha3, dumps, records)[..m]
    decreases |records|
  {
    if m < |records| {
      var front := records[..|records| - 1];
      assert records[..m] == front[..m];
      ChainPrefix(sha3, dumps, front, m);
    } else {
      assert records[..m] == records;
    }
  }

  /** Each stored hash links its predecessor, and the first links the empty string. */
  lemma {:induction false} ChainLinks(sha3: Digest32, dumps: Serializer, records: seq<Value>, i: nat)
    requires i < |records|
    ensures var hashes := Chain(sha3, dumps, records);
      hashes[i] == Link(sha3, dumps, if i == 0 then "" else hashes[i - 1], records[i])
    decreases |records|
  {
    var front := records[..|records| - 1];
    var hashes := Chain(sha3, dumps, records);
    var frontHashes := Chain(sha3, dumps, front);
    assert hashes == frontHashes + [Link(sha3, dumps, Latest(frontHashes), records[|records| - 1])];
    if i < |records| - 1 {
      ChainLinks(sha3, dumps, front, i);
      assert front[i] == records[i];
      assert hashes[i] == frontHashes[i];
      if i > 0 { assert hashes[i - 1] == frontHashes[i - 1]; }
    } else if i > 0 {
      assert hashes[i - 1] == frontHashes[i - 1];
    }
  }

  /** The invariant of the log, on values: the hashes are the chain of the records, and the
      previous hash is the last of them, None before the first. */
  predicate Linked(sha3: Digest32, dumps: Serializer, records: seq<Value>, hashes: seq<string>,
                   previousHash: Option<string>)
  {
    && hashes == Chain(sha3, dumps, records)
    && previousHash == if hashes == [] then None else Some(Latest(hashes))
  }

  /** One `log_event` step keeps the invariant: the new link extends the chain and becomes the
      previous hash. */
  lemma LinkedStep(sha3: Digest32, dumps: Serializer, records: seq<Value>, hashes: seq<string>,
                   previousHash: Option<string>, data: Value)
    requires Linked(sha3, dumps, records, hashes, previousHash)
    ensures var h := Link(sha3, dumps, previousHash.GetOr(""), data);
      Linked(sha3, dumps, records + [data], hashes + [h], Some(h))
  {
    ChainExtends(sha3, dumps, records, hashes, data);
  }

  /** `SecureAuditLog`: the only state that outlives a call is `previous_hash`. The ghost
      fields record what was logged so far, to state what that hash is. */
  class SecureAuditLog {
    var previousHash: Option<string>
    const sha3: Digest32
    const dumps: Serializer
    ghost var records: seq<Value>
    ghost var hashes: seq<string>

    /** The hashes handed out so far are the chain of the logged events, and
        `previous_hash` is the last of them, None before the first. */
    ghost predicate Valid()
      reads this
    {
      Linked(sha3, dumps, records, hashes, previousHash)
    }

    constructor (sha3: Digest32, dumps: Serializer)
      ensures Valid() && previousHash == None && records == []
      ensures this.sha3 == sha3 && this.dumps == dumps
    {
      this.sha3 := sha3;
      this.dumps := dumps;
      previousHash := None;
      records := [];
      hashes := [];
    }

    /** `log_event(event)`: only `event.hash` and `previous_hash` change. */
    method LogEvent(event: AuditEvent)
      requires Valid()
      modifies this`previousHash, this`records, this`hashes, event`hash
      ensures Valid()
      ensures event.hash == Link(sha3, dumps, old(previousHash).GetOr(""), event.Data())
      ensures previousHash == Some(event.hash)
      ensures records == old(records) + [event.Data()] && hashes == old(hashes) + [event.hash]
    {
      var data := event.Data();
      var h := Link(sha3, dumps, previousHash.GetOr(""), data);
      LinkedStep(sha3, dumps, records, hashes, previousHash, data);
      records, hashes := records + [data], hashes + [h];
      event.hash, previousHash := h, Some(h);
    }
  }
}
