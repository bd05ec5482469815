/** The encoder's output buffer and the decoder's two cursors, proved against the byte layout. */
module Wire {

  import opened Wrappers
  import opened Codec

  // Encoding appends to a buffer.

  class Output {
    var bytes: Bytes

    constructor ()
      ensures bytes == []
    {
      bytes := [];
    }

    method Extend(more: Bytes)
      modifies this
      ensures bytes == old(bytes) + more
    {
      bytes := bytes + more;
    }

    method Integer(x: nat, n: nat)
      modifies this
      ensures bytes == old(bytes) + Little(x, n)
    {
      hide Little;
      var rest, left := x, n;
      assert bytes + Little(x, n) == old(bytes) + Little(x, n);
      while left > 0
        invariant bytes + Little(rest, left) == old(bytes) + Little(x, n)
        decreases left
      {
        LittleStep(rest, left);
        assert bytes + ([rest % 256] + Little(rest / 256, left - 1))
            == bytes + [rest % 256] + Little(rest / 256, left - 1);
        bytes := bytes + [rest % 256];
        rest, left := rest / 256, left - 1;
      }
      assert Little(rest, 0) == [] && bytes + [] == bytes;
    }

    method Length(n: nat)
      modifies this
      ensures bytes == old(bytes) + EncodeLength(n)
    {
      if n < 128 {
        Extend([n]);
      } else {
        Extend([0x80]);
        Integer(n, 4);
        assert old(bytes) + [0x80] + Little(n, 4) == old(bytes) + ([0x80] + Little(n, 4));
      }
    }

    method Prefixed(s: Bytes)
      modifies this
      ensures bytes == old(bytes) + EncodeBytes(s)
    {
      hide EncodeLength;
      Length(|s|);
      Extend(s);
      assert old(bytes) + EncodeLength(|s|) + s == old(bytes) + (EncodeLength(|s|) + s);
    }

    method Keys(keys: seq<Bytes>)
      modifies this
      ensures bytes == old(bytes) + EncodeKeys(keys)
    {
      hide EncodeBytes;
      assert keys[0..] == keys;
      for i := 0 to |keys|
        invariant bytes + EncodeKeys(keys[i..]) == old(bytes) + EncodeKeys(keys)
      {
        ghost var before := bytes;
        Prefixed(keys[i]);
        assert keys[i..][0] == keys[i] && keys[i..][1..] == keys[i + 1..];
        assert before + (EncodeBytes(keys[i]) + EncodeKeys(keys[i + 1..]))
            == before + EncodeBytes(keys[i]) + EncodeKeys(keys[i + 1..]);
      }
      assert bytes + [] == bytes;
    }

    method Quantities(r: Resources)
      modifies this
      ensures bytes == old(bytes) + EncodeResources(r)
    {
      hide Little;
      Integer(r.compute, 8);
      Integer(r.memory, 8);
      Integer(r.io, 8);
      Integer(r.bandwidth, 8);
      var (c, m, i, w) := (Little(r.compute, 8), Little(r.memory, 8), Little(r.io, 8), Little(r.bandwidth, 8));
      assert old(bytes) + c + m + i + w == old(bytes) + (c + (m + (i + w)));
    }

    /** Every field in canonical order, then the signature. */
    method Transaction(tx: Envelope)
      modifies this
      ensures bytes == old(bytes) + Encode(tx)
    {
      hide *;
      Fields(tx.head);
      Length(|tx.keys|);
      Keys(tx.keys);
      Quantities(tx.tail.limit);
      Quantities(tx.tail.prices);
      Prefixed(tx.tail.payload);
      Extend(tx.tail.signature);
      EncodeJoins(old(bytes), tx);
    }

    method Fields(h: Head)
      modifies this
      ensures bytes == old(bytes) + EncodeHead(h)
    {
      hide Little;
      Extend(MAGIC);
      Integer(h.version, 4);
      Integer(h.chainId, 4);
      Extend(h.sender);
      Integer(h.nonce, 8);
      Integer(h.expiresAt, 8);
      Extend([LaneByte(h.lane)]);
      HeadAppends(old(bytes), h);
    }
  }

  lemma LittleStep(x: nat, n: nat)
    requires 0 < n
    ensures Little(x, n) == [x % 256] + Little(x / 256, n - 1)
  {
  }

  lemma HeadAppends(b: Bytes, h: Head)
    ensures b + MAGIC + Little(h.version, 4) + Little(h.chainId, 4) + h.sender + Little(h.nonce, 8)
            + Little(h.expiresAt, 8) + [LaneByte(h.lane)]
         == b + EncodeHead(h)
  {
    hide Little;
  }

  lemma EncodeJoins(b: Bytes, tx: Envelope)
    ensures b + EncodeHead(tx.head) + EncodeLength(|tx.keys|) + EncodeKeys(tx.keys) + EncodeResources(tx.tail.limit)
            + EncodeResources(tx.tail.prices) + EncodeBytes(tx.tail.payload) + tx.tail.signature
         == b + Encode(tx)
  {
    hide EncodeHead;
    hide EncodeLength;
    hide EncodeKeys;
    hide EncodeResources;
    hide EncodeBytes;
  }

  // Decoding moves a cursor over borrowed input.

  class Decoder {
    const bytes: Bytes
    var position: nat

    constructor (bytes: Bytes, position: nat)
      requires position <= |bytes|
      ensures Valid() && Rest() == bytes[position..] && this.bytes == bytes && this.position == position
    {
      this.bytes, this.position := bytes, position;
    }

    ghost predicate Valid()
      reads this
    {
      position <= |bytes|
    }

    /** What has not been read. */
    ghost function Rest(): Bytes
      requires Valid()
      reads this
    {
      bytes[position..]
    }

    method ReadExact(n: nat) returns (r: Result<Bytes, DecodeError>)
      requires Valid()
      modifies this
      ensures Valid() && Moved(TakeExact(old(Rest()), n), r, Rest())
    {
      var end := position + n;
      if end > |bytes| {
        return Err(Truncated);
      }
      r := Ok(bytes[position..end]);
      assert bytes[position..][n..] == bytes[end..] && bytes[position..][..n] == bytes[position..end];
      position := end;
    }

    method ReadInt(n: nat) returns (r: Result<nat, DecodeError>)
      requires Valid()
      modifies this
      ensures Valid() && Moved(TakeInt(old(Rest()), n), r, Rest())
    {
      var raw := ReadExact(n);
      return if raw.Err? then Err(raw.error) else Ok(FromLittle(raw.value));
    }

    method ReadLength() returns (r: Result<nat, DecodeError>)
      requires Valid()
      modifies this
      ensures Valid() && Moved(TakeLength(old(Rest())), r, Rest())
    {
      hide TakeInt;
      hide TakeExact;
      ghost var start := Rest();
      var first := ReadExact(1);
      if first.Err? {
        return Err(first.error);
      }
      OneByte(start);
      if first.value[0] < 128 {
        return Ok(first.value[0]);
      }
      if first.value[0] != 0x80 {
        return Err(NonCanonical);
      }
      var value := ReadInt(4);
      if value.Err? {
        return Err(value.error);
      }
      if value.value < 128 {
        return Err(NonCanonical);
      }
      if value.value > MAX_LIST_LEN {
        return Err(LimitExceeded);
      }
      return value;
    }

    method ReadBytes(limit: nat) returns (r: Result<Bytes, DecodeError>)
      requires Valid()
      modifies this
      ensures Valid() && Moved(TakeBytes(old(Rest()), limit), r, Rest())
    {
      hide TakeLength;
      hide TakeExact;
      var n := ReadLength();
      if n.Err? {
        return Err(n.error);
      }
      if n.value > limit {
        return Err(LimitExceeded);
      }
      r := ReadExact(n.value);
    }

    method ReadResources() returns (r: Result<Resources, DecodeError>)
      requires Valid()
      modifies this
      ensures Valid() && Moved(TakeResources(old(Rest())), r, Rest())
    {
      hide TakeInt;
      var compute := ReadInt(8);
      if compute.Err? {
        return Err(compute.error);
      }
      var memory := ReadInt(8);
      if memory.Err? {
        return Err(memory.error);
      }
      var io := ReadInt(8);
      if io.Err? {
        return Err(io.error);
      }
      var bandwidth := ReadInt(8);
      if bandwidth.Err? {
        return Err(bandwidth.error);
      }
      return Ok(Resources(compute.value, memory.value, io.value, bandwidth.value));
    }

    method ReadLane() returns (r: Result<Lane, DecodeError>)
      requires Valid()
      modifies this
      ensures Valid() && Moved(TakeLane(old(Rest())), r, Rest())
    {
      ghost var start := Rest();
      var tag := ReadExact(1);
      if tag.Err? {
        return Err(tag.error);
      }
      return match tag.value[0]
        case 0 => Ok(Payments)
        case 1 => Ok(Contracts)
        case 2 => Ok(System)
        case _ => Err(Unsupported);
    }

    method ReadHead() returns (r: Result<Head, DecodeError>)
      requires Valid()
      modifies this
      ensures Valid() && Moved(TakeHead(old(Rest())), r, Rest())
    {
      hide TakeInt;
      hide TakeExact;
      hide TakeLane;
      var magic := ReadExact(4);
      if magic.Err? {
        return Err(magic.error);
      }
      if magic.value != MAGIC {
        return Err(Unsupported);
      }
      var version := ReadInt(4);
      if version.Err? {
        return Err(version.error);
      }
      if version.value != TRANSACTION_VERSION {
        return Err(Unsupported);
      }
      var chainId := ReadInt(4);
      if chainId.Err? {
        return Err(chainId.error);
      }
      var sender := ReadExact(32);
      if sender.Err? {
        return Err(sender.error);
      }
      var nonce := ReadInt(8);
      if nonce.Err? {
        return Err(nonce.error);
      }
      var expiresAt := ReadInt(8);
      if expiresAt.Err? {
        return Err(expiresAt.error);
      }
      var lane := ReadLane();
      if lane.Err? {
        return Err(lane.error);
      }
      return Ok(Head(version.value, chainId.value, sender.value, nonce.value, expiresAt.value, lane.value));
    }

    method ReadTail() returns (r: Result<Tail, DecodeError>)
      requires Valid()
      modifies this
      ensures Valid() && r == TakeTail(old(Rest()))
    {
      hide TakeResources;
      hide TakeBytes;
      hide TakeExact;
      var limit := ReadResources();
      if limit.Err? {
        return Err(limit.error);
      }
      var prices := ReadResources();
      if prices.Err? {
        return Err(prices.error);
      }
      var payload := ReadBytes(MAX_PAYLOAD);
      if payload.Err? {
        return Err(payload.error);
      }
      var signature := ReadExact(64);
      if signature.Err? {
        return Err(signature.error);
      }
      if position != |bytes| {
        return Err(TrailingBytes);
      }
      return Ok(Tail(limit.value, prices.value, payload.value, signature.value));
    }

    /** First pass: walks over the keys without keeping them. */
    method SkipKeys(count: nat) returns (r: Option<DecodeError>)
      requires Valid()
      modifies this
      ensures Valid()
      ensures var parsed := TakeKeys(old(Rest()), count);
              if parsed.Ok? then r.None? && Rest() == parsed.value.1 else r == Some(parsed.error)
    {
      hide TakeBytes;
      ghost var start := Rest();
      for i := 0 to count
        invariant Valid()
        invariant var (all, left) := (TakeKeys(start, count), TakeKeys(Rest(), count - i));
                  if left.Ok? then all.Ok? && all.value.1 == left.value.1 else all == Err(left.error)
      {
        var key := ReadBytes(MAX_STATE_KEY_LEN);
        if key.Err? {
          return Some(key.error);
        }
      }
      return None;
    }

    /** Second pass: rereads the same keys; it cannot fail once the first pass succeeded. */
    method CollectKeys(count: nat) returns (keys: seq<Bytes>)
      requires Valid() && TakeKeys(Rest(), count).Ok?
      modifies this
      ensures Valid() && keys == TakeKeys(old(Rest()), count).value.0
    {
      hide TakeBytes;
      ghost var start := Rest();
      keys := [];
      assert [] + TakeKeys(start, count).value.0 == TakeKeys(start, count).value.0;
      for i := 0 to count
        invariant Valid() && TakeKeys(Rest(), count - i).Ok?
        invariant keys + TakeKeys(Rest(), count - i).value.0 == TakeKeys(start, count).value.0
      {
        ghost var (before, left) := (Rest(), count - i);
        var key := ReadBytes(MAX_STATE_KEY_LEN);
        assert key.Ok?;
        ghost var more := TakeKeys(Rest(), left - 1).value.0;
        assert TakeKeys(before, left).value.0 == [key.value] + more;
        assert keys + ([key.value] + more) == keys + [key.value] + more;
        keys := keys + [key.value];
      }
      assert keys + [] == keys;
    }
  }

  lemma OneByte(b: Bytes)
    requires TakeExact(b, 1).Ok?
    ensures |TakeExact(b, 1).value.0| == 1
  {
  }

  /** Length, keys and tail, with a second cursor for the keys. */
  method DecodeBody(decoder: Decoder, head: Head) returns (r: Result<Envelope, DecodeError>)
    requires decoder.Valid()
    modifies decoder
    ensures r == ParseBody(old(decoder.Rest()), head)
  {
    hide TakeLength;
    hide TakeKeys;
    hide TakeTail;
    var count := decoder.ReadLength();
    if count.Err? {
      return Err(count.error);
    }
    if count.value > |decoder.bytes| - decoder.position {
      return Err(Truncated);
    }
    var access := new Decoder(decoder.bytes, decoder.position);
    var skipped := decoder.SkipKeys(count.value);
    if skipped.Some? {
      return Err(skipped.value);
    }
    var tail := decoder.ReadTail();
    if tail.Err? {
      return Err(tail.error);
    }
    var keys := access.CollectKeys(count.value);
    return Ok(Envelope(head, keys, tail.value));
  }

  /** The whole envelope is validated with one cursor before the keys are built with a second one. */
  method Decode(bytes: Bytes) returns (r: Result<Envelope, DecodeError>)
    ensures r == Parse(bytes)
  {
    hide TakeHead;
    hide ParseBody;
    var decoder := new Decoder(bytes, 0);
    assert bytes[0..] == bytes;
    var head := decoder.ReadHead();
    if head.Err? {
      return Err(head.error);
    }
    r := DecodeBody(decoder, head.value);
  }
}
