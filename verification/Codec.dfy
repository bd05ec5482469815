/** Canonical byte encodings: primitives, the bounded cursor and the transaction envelope. */
module Codec {

  import opened Wrappers

  type Byte = x: int | 0 <= x < 256
  type Bytes = seq<Byte>

  datatype DecodeError = Truncated | LimitExceeded | NonCanonical | Unsupported | TrailingBytes

  const MAX_PAYLOAD := 0x10_0000
  const MAX_LIST_LEN := 0x10_0000
  const MAX_STATE_KEY_LEN := 256
  const TRANSACTION_VERSION := 1
  const MAGIC: Bytes := [65, 76, 84, 88]

  /** A value read from the front, and the bytes after it. */
  type Parsed<+T> = Result<(T, Bytes), DecodeError>

  // Little-endian integers.

  function Pow256(n: nat): (r: nat)
    ensures 0 < r
  {
    if n == 0 then 1 else 256 * Pow256(n - 1)
  }

  function Little(x: nat, n: nat): (r: Bytes)
    ensures |r| == n
    decreases n
  {
    if n == 0 then [] else [x % 256] + Little(x / 256, n - 1)
  }

  function FromLittle(b: Bytes): nat {
    if b == [] then 0 else b[0] + 256 * FromLittle(b[1..])
  }

  lemma {:induction false} FromLittleOfLittle(x: nat, n: nat)
    requires x < Pow256(n)
    ensures FromLittle(Little(x, n)) == x
    decreases n
  {
    if n > 0 {
      FromLittleOfLittle(x / 256, n - 1);
      assert Little(x, n)[1..] == Little(x / 256, n - 1);
    }
  }

  lemma {:induction false} LittleOfFromLittle(b: Bytes)
    ensures Little(FromLittle(b), |b|) == b && FromLittle(b) < Pow256(|b|)
  {
    if b != [] {
      LittleOfFromLittle(b[1..]);
      var x := FromLittle(b);
      assert x % 256 == b[0] && x / 256 == FromLittle(b[1..]);
      assert b == [b[0]] + b[1..];
    }
  }

  // Parsers from the front of a byte string.

  /** A read succeeds exactly when its parser does, with the same value and the same bytes left. */
  ghost predicate Moved<T(!new), E(!new)>(parsed: Result<(T, Bytes), E>, r: Result<T, E>, rest: Bytes) {
    if parsed.Ok? then r == Ok(parsed.value.0) && rest == parsed.value.1 else r == Err(parsed.error)
  }

  function TakeExact(b: Bytes, n: nat): Parsed<Bytes> {
    if |b| < n then Err(Truncated) else Ok((b[..n], b[n..]))
  }

  function TakeInt(b: Bytes, n: nat): Parsed<nat> {
    var (bytes, rest) :- TakeExact(b, n);
    Ok((FromLittle(bytes), rest))
  }

  lemma TakesBack(value: Bytes, rest: Bytes)
    ensures TakeExact(value + rest, |value|) == Ok((value, rest))
  {
    assert (value + rest)[..|value|] == value && (value + rest)[|value|..] == rest;
  }

  lemma IntBack(x: nat, n: nat, rest: Bytes)
    requires x < Pow256(n)
    ensures TakeInt(Little(x, n) + rest, n) == Ok((x, rest))
  {
    TakesBack(Little(x, n), rest);
    FromLittleOfLittle(x, n);
  }

  lemma IntForth(b: Bytes, n: nat)
    requires TakeInt(b, n).Ok?
    ensures var (x, rest) := TakeInt(b, n).value; b == Little(x, n) + rest && x < Pow256(n)
  {
    hide Little;
    hide FromLittle;
    hide Pow256;
    LittleOfFromLittle(b[..n]);
    assert b == b[..n] + b[n..];
  }

  // Length prefixes.

  function EncodeLength(n: nat): Bytes {
    if n < 128 then [n] else [0x80] + Little(n, 4)
  }

  function TakeLength(b: Bytes): Parsed<nat> {
    var (first, rest) :- TakeExact(b, 1);
    if first[0] < 128 then Ok((first[0], rest))
    else if first[0] != 0x80 then Err(NonCanonical)
    else
      var (value, after) :- TakeInt(rest, 4);
      if value < 128 then Err(NonCanonical)
      else if value > MAX_LIST_LEN then Err(LimitExceeded)
      else Ok((value, after))
  }

  lemma Pow256Of4()
    ensures Pow256(1) == 256 && Pow256(4) == 0x1_0000_0000
  {
  }

  lemma LengthBack(n: nat, rest: Bytes)
    requires n <= MAX_LIST_LEN
    ensures TakeLength(EncodeLength(n) + rest) == Ok((n, rest))
  {
    if n < 128 {
      TakesBack([n], rest);
    } else {
      assert EncodeLength(n) + rest == [0x80] + (Little(n, 4) + rest);
      TakesBack([0x80], Little(n, 4) + rest);
      Pow256Of4();
      IntBack(n, 4, rest);
    }
  }

  lemma LengthForth(b: Bytes)
    requires TakeLength(b).Ok?
    ensures var (n, rest) := TakeLength(b).value; b == EncodeLength(n) + rest && n <= MAX_LIST_LEN
  {
    var (first, rest) := TakeExact(b, 1).value;
    assert b == first + rest && first == [first[0]];
    if first[0] >= 128 {
      IntForth(rest, 4);
      var (value, after) := TakeInt(rest, 4).value;
      assert [0x80] + (Little(value, 4) + after) == [0x80] + Little(value, 4) + after;
    }
  }

  // Length-prefixed bytes.

  function EncodeBytes(s: Bytes): Bytes {
    EncodeLength(|s|) + s
  }

  function TakeBytes(b: Bytes, limit: nat): Parsed<Bytes> {
    var (n, rest) :- TakeLength(b);
    if n > limit then Err(LimitExceeded) else TakeExact(rest, n)
  }

  lemma BytesBack(s: Bytes, limit: nat, rest: Bytes)
    requires |s| <= limit && |s| <= MAX_LIST_LEN
    ensures TakeBytes(EncodeBytes(s) + rest, limit) == Ok((s, rest))
  {
    hide TakeLength;
    assert EncodeBytes(s) + rest == EncodeLength(|s|) + (s + rest);
    LengthBack(|s|, s + rest);
    TakesBack(s, rest);
  }

  lemma BytesForth(b: Bytes, limit: nat)
    requires TakeBytes(b, limit).Ok?
    ensures var (s, rest) := TakeBytes(b, limit).value;
            b == EncodeBytes(s) + rest && |s| <= limit && |s| <= MAX_LIST_LEN
  {
    hide TakeLength;
    LengthForth(b);
    var (n, after) := TakeLength(b).value;
    var (s, rest) := TakeExact(after, n).value;
    assert after == s + rest && EncodeLength(n) + (s + rest) == EncodeLength(n) + s + rest;
  }

  // Key lists.

  function EncodeKeys(keys: seq<Bytes>): Bytes {
    if keys == [] then [] else EncodeBytes(keys[0]) + EncodeKeys(keys[1..])
  }

  function TakeKeys(b: Bytes, count: nat): Parsed<seq<Bytes>>
    decreases count
  {
    if count == 0 then Ok(([], b))
    else
      var (key, rest) :- TakeBytes(b, MAX_STATE_KEY_LEN);
      var (keys, after) :- TakeKeys(rest, count - 1);
      Ok(([key] + keys, after))
  }

  predicate KeysInBounds(keys: seq<Bytes>) {
    forall i | 0 <= i < |keys| :: |keys[i]| <= MAX_STATE_KEY_LEN
  }

  lemma {:induction false} KeysBack(keys: seq<Bytes>, rest: Bytes)
    requires KeysInBounds(keys)
    ensures TakeKeys(EncodeKeys(keys) + rest, |keys|) == Ok((keys, rest)) && |EncodeKeys(keys)| >= |keys|
  {
    hide TakeBytes;
    if keys == [] {
      assert EncodeKeys(keys) + rest == rest;
    } else {
      KeysBack(keys[1..], rest);
      assert EncodeKeys(keys) + rest == EncodeBytes(keys[0]) + (EncodeKeys(keys[1..]) + rest);
      BytesBack(keys[0], MAX_STATE_KEY_LEN, EncodeKeys(keys[1..]) + rest);
      assert keys == [keys[0]] + keys[1..];
    }
  }

  lemma {:induction false} KeysForth(b: Bytes, count: nat)
    requires TakeKeys(b, count).Ok?
    ensures var (keys, rest) := TakeKeys(b, count).value;
            b == EncodeKeys(keys) + rest && |keys| == count && KeysInBounds(keys)
    decreases count
  {
    hide TakeBytes;
    if count == 0 {
      assert [] + b == b;
    } else {
      BytesForth(b, MAX_STATE_KEY_LEN);
      var (key, after) := TakeBytes(b, MAX_STATE_KEY_LEN).value;
      KeysForth(after, count - 1);
      var (keys, rest) := TakeKeys(after, count - 1).value;
      assert ([key] + keys)[1..] == keys;
      assert EncodeBytes(key) + (EncodeKeys(keys) + rest) == EncodeBytes(key) + EncodeKeys(keys) + rest;
    }
  }

  // The envelope.

  datatype Lane = Payments | Contracts | System

  datatype Resources = Resources(compute: nat, memory: nat, io: nat, bandwidth: nat)

  datatype Head = Head(version: nat, chainId: nat, sender: Bytes, nonce: nat, expiresAt: nat, lane: Lane)

  datatype Tail = Tail(limit: Resources, prices: Resources, payload: Bytes, signature: Bytes)

  datatype Envelope = Envelope(head: Head, keys: seq<Bytes>, tail: Tail)

  function LaneByte(lane: Lane): Byte {
    match lane case Payments => 0 case Contracts => 1 case System => 2
  }

  predicate ResourcesInBounds(r: Resources) {
    r.compute <= U64_MAX && r.memory <= U64_MAX && r.io <= U64_MAX && r.bandwidth <= U64_MAX
  }

  predicate HeadInBounds(h: Head) {
    && h.version <= U32_MAX && h.chainId <= U32_MAX && |h.sender| == 32
    && h.nonce <= U64_MAX && h.expiresAt <= U64_MAX
  }

  predicate TailInBounds(t: Tail) {
    ResourcesInBounds(t.limit) && ResourcesInBounds(t.prices) && |t.payload| <= MAX_PAYLOAD && |t.signature| == 64
  }

  /** Integers fit their widths, and lists and strings the limits of the format. */
  predicate InBounds(tx: Envelope) {
    HeadInBounds(tx.head) && |tx.keys| <= MAX_LIST_LEN && KeysInBounds(tx.keys) && TailInBounds(tx.tail)
  }

  function EncodeHead(h: Head): Bytes {
    MAGIC + (Little(h.version, 4) + (Little(h.chainId, 4) + (h.sender
    + (Little(h.nonce, 8) + (Little(h.expiresAt, 8) + [LaneByte(h.lane)])))))
  }

  function EncodeResources(r: Resources): Bytes {
    Little(r.compute, 8) + (Little(r.memory, 8) + (Little(r.io, 8) + Little(r.bandwidth, 8)))
  }

  function EncodeTail(t: Tail): Bytes {
    EncodeResources(t.limit) + (EncodeResources(t.prices) + (EncodeBytes(t.payload) + t.signature))
  }

  function Encode(tx: Envelope): Bytes {
    EncodeHead(tx.head) + (EncodeLength(|tx.keys|) + (EncodeKeys(tx.keys) + EncodeTail(tx.tail)))
  }

  function TakeLane(b: Bytes): Parsed<Lane> {
    var (tag, rest) :- TakeExact(b, 1);
    match tag[0]
    case 0 => Ok((Payments, rest))
    case 1 => Ok((Contracts, rest))
    case 2 => Ok((System, rest))
    case _ => Err(Unsupported)
  }

  function TakeHead(b: Bytes): Parsed<Head> {
    var (magic, b1) :- TakeExact(b, 4);
    if magic != MAGIC then Err(Unsupported)
    else
      var (version, b2) :- TakeInt(b1, 4);
      if version != TRANSACTION_VERSION then Err(Unsupported)
      else
        var (chainId, b3) :- TakeInt(b2, 4);
        var (sender, b4) :- TakeExact(b3, 32);
        var (nonce, b5) :- TakeInt(b4, 8);
        var (expiresAt, b6) :- TakeInt(b5, 8);
        var (lane, b7) :- TakeLane(b6);
        Ok((Head(version, chainId, sender, nonce, expiresAt, lane), b7))
  }

  function TakeResources(b: Bytes): Parsed<Resources> {
    var (compute, b1) :- TakeInt(b, 8);
    var (memory, b2) :- TakeInt(b1, 8);
    var (io, b3) :- TakeInt(b2, 8);
    var (bandwidth, b4) :- TakeInt(b3, 8);
    Ok((Resources(compute, memory, io, bandwidth), b4))
  }

  function TakeTail(b: Bytes): Result<Tail, DecodeError> {
    var (limit, b1) :- TakeResources(b);
    var (prices, b2) :- TakeResources(b1);
    var (payload, b3) :- TakeBytes(b2, MAX_PAYLOAD);
    var (signature, b4) :- TakeExact(b3, 64);
    if b4 != [] then Err(TrailingBytes) else Ok(Tail(limit, prices, payload, signature))
  }

  /** The decoding decision, in the order its errors are reported. */
  function Parse(b: Bytes): Result<Envelope, DecodeError> {
    var (head, rest) :- TakeHead(b);
    ParseBody(rest, head)
  }

  function ParseBody(b: Bytes, head: Head): Result<Envelope, DecodeError> {
    var (count, b2) :- TakeLength(b);
    if count > |b2| then Err(Truncated)
    else
      var (keys, b3) :- TakeKeys(b2, count);
      var tail :- TakeTail(b3);
      Ok(Envelope(head, keys, tail))
  }

  lemma Pow256Of8()
    ensures Pow256(8) == 0x1_0000_0000_0000_0000
  {
    assert Pow256(4) == 0x1_0000_0000;
  }

  lemma LaneBack(lane: Lane, rest: Bytes)
    ensures TakeLane([LaneByte(lane)] + rest) == Ok((lane, rest))
  {
    TakesBack([LaneByte(lane)], rest);
  }

  lemma LaneForth(b: Bytes)
    requires TakeLane(b).Ok?
    ensures var (lane, rest) := TakeLane(b).value; b == [LaneByte(lane)] + rest
  {
    assert b == [b[0]] + b[1..];
  }

  lemma HeadBack(h: Head, rest: Bytes)
    requires HeadInBounds(h)
    ensures TakeHead(EncodeHead(h) + rest)
         == if h.version == TRANSACTION_VERSION then Ok((h, rest)) else Err(Unsupported)
  {
    hide TakeInt;
    hide TakeExact;
    hide TakeLane;
    hide Little;
    Pow256Of4();
    Pow256Of8();
    var b7 := rest;
    var b6 := [LaneByte(h.lane)] + b7;
    var b5 := Little(h.expiresAt, 8) + b6;
    var b4 := Little(h.nonce, 8) + b5;
    var b3 := h.sender + b4;
    var b2 := Little(h.chainId, 4) + b3;
    var b1 := Little(h.version, 4) + b2;
    assert EncodeHead(h) + rest == MAGIC + b1;
    TakesBack(MAGIC, b1);
    IntBack(h.version, 4, b2);
    IntBack(h.chainId, 4, b3);
    TakesBack(h.sender, b4);
    IntBack(h.nonce, 8, b5);
    IntBack(h.expiresAt, 8, b6);
    LaneBack(h.lane, b7);
  }

  lemma ExactForth(b: Bytes, n: nat)
    requires TakeExact(b, n).Ok?
    ensures var (value, rest) := TakeExact(b, n).value; b == value + rest && |value| == n
  {
  }

  lemma HeadForth(b: Bytes)
    requires TakeHead(b).Ok?
    ensures var (h, rest) := TakeHead(b).value;
            b == EncodeHead(h) + rest && HeadInBounds(h) && h.version == TRANSACTION_VERSION
  {
    hide TakeInt;
    hide TakeExact;
    hide TakeLane;
    hide Little;
    Pow256Of4();
    Pow256Of8();
    ExactForth(b, 4);
    var (magic, b1) := TakeExact(b, 4).value;
    IntForth(b1, 4);
    var (version, b2) := TakeInt(b1, 4).value;
    IntForth(b2, 4);
    var (chainId, b3) := TakeInt(b2, 4).value;
    ExactForth(b3, 32);
    var (sender, b4) := TakeExact(b3, 32).value;
    IntForth(b4, 8);
    var (nonce, b5) := TakeInt(b4, 8).value;
    IntForth(b5, 8);
    var (expiresAt, b6) := TakeInt(b5, 8).value;
    LaneForth(b6);
    var (lane, b7) := TakeLane(b6).value;
    HeadJoins(Head(version, chainId, sender, nonce, expiresAt, lane), b7);
  }

  lemma HeadJoins(h: Head, rest: Bytes)
    ensures EncodeHead(h) + rest
         == MAGIC + (Little(h.version, 4) + (Little(h.chainId, 4) + (h.sender
            + (Little(h.nonce, 8) + (Little(h.expiresAt, 8) + ([LaneByte(h.lane)] + rest))))))
  {
    hide Little;
  }

  lemma ResourcesBack(r: Resources, rest: Bytes)
    requires ResourcesInBounds(r)
    ensures TakeResources(EncodeResources(r) + rest) == Ok((r, rest))
  {
    hide TakeInt;
    hide Little;
    Pow256Of8();
    var b3 := Little(r.bandwidth, 8) + rest;
    var b2 := Little(r.io, 8) + b3;
    var b1 := Little(r.memory, 8) + b2;
    assert EncodeResources(r) + rest == Little(r.compute, 8) + b1;
    IntBack(r.compute, 8, b1);
    IntBack(r.memory, 8, b2);
    IntBack(r.io, 8, b3);
    IntBack(r.bandwidth, 8, rest);
  }

  lemma ResourcesForth(b: Bytes)
    requires TakeResources(b).Ok?
    ensures var (r, rest) := TakeResources(b).value; b == EncodeResources(r) + rest && ResourcesInBounds(r)
  {
    hide TakeInt;
    hide Little;
    Pow256Of8();
    IntForth(b, 8);
    var (compute, b1) := TakeInt(b, 8).value;
    IntForth(b1, 8);
    var (memory, b2) := TakeInt(b1, 8).value;
    IntForth(b2, 8);
    var (io, b3) := TakeInt(b2, 8).value;
    IntForth(b3, 8);
    var (bandwidth, rest) := TakeInt(b3, 8).value;
    var (c, m, i, w) := (Little(compute, 8), Little(memory, 8), Little(io, 8), Little(bandwidth, 8));
    assert c + (m + (i + (w + rest))) == (c + (m + (i + w))) + rest;
  }

  lemma TailBack(t: Tail)
    requires TailInBounds(t)
    ensures TakeTail(EncodeTail(t)) == Ok(t)
  {
    hide TakeResources;
    hide TakeBytes;
    hide TakeExact;
    var b3 := t.signature;
    var b2 := EncodeBytes(t.payload) + b3;
    var b1 := EncodeResources(t.prices) + b2;
    ResourcesBack(t.limit, b1);
    ResourcesBack(t.prices, b2);
    BytesBack(t.payload, MAX_PAYLOAD, b3);
    assert b3 == t.signature + [];
    TakesBack(t.signature, []);
  }

  lemma TailForth(b: Bytes)
    requires TakeTail(b).Ok?
    ensures b == EncodeTail(TakeTail(b).value) && TailInBounds(TakeTail(b).value)
  {
    hide TakeResources;
    hide TakeBytes;
    hide TakeExact;
    ResourcesForth(b);
    var (limit, b1) := TakeResources(b).value;
    ResourcesForth(b1);
    var (prices, b2) := TakeResources(b1).value;
    BytesForth(b2, MAX_PAYLOAD);
    var (payload, b3) := TakeBytes(b2, MAX_PAYLOAD).value;
    ExactForth(b3, 64);
    var (signature, b4) := TakeExact(b3, 64).value;
    assert b3 == signature + [] == signature;
  }

  /** Decoding an in-bounds encoding returns the transaction, exactly if its version is the supported one. */
  lemma ParseOfEncode(tx: Envelope)
    requires InBounds(tx)
    ensures Parse(Encode(tx)) == if tx.head.version == TRANSACTION_VERSION then Ok(tx) else Err(Unsupported)
  {
    hide TakeHead;
    hide TakeLength;
    hide TakeKeys;
    hide TakeTail;
    var b3 := EncodeTail(tx.tail);
    var b2 := EncodeKeys(tx.keys) + b3;
    var b1 := EncodeLength(|tx.keys|) + b2;
    HeadBack(tx.head, b1);
    LengthBack(|tx.keys|, b2);
    KeysBack(tx.keys, b3);
    TailBack(tx.tail);
  }

  /** Every accepted byte string is the encoding of the transaction it decodes to. */
  lemma EncodeOfParse(b: Bytes)
    requires Parse(b).Ok?
    ensures InBounds(Parse(b).value) && Parse(b).value.head.version == TRANSACTION_VERSION
    ensures Encode(Parse(b).value) == b
  {
    hide TakeHead;
    hide TakeLength;
    hide TakeKeys;
    hide TakeTail;
    HeadForth(b);
    var (head, b1) := TakeHead(b).value;
    LengthForth(b1);
    var (count, b2) := TakeLength(b1).value;
    KeysForth(b2, count);
    var (keys, b3) := TakeKeys(b2, count).value;
    TailForth(b3);
  }

  // The size estimate that validation and metering use.

  function PrefixLen(n: nat): nat {
    if n < 128 then 1 else 5
  }

  function KeysLen(keys: seq<Bytes>): nat {
    if keys == [] then 0 else PrefixLen(|keys[0]|) + |keys[0]| + KeysLen(keys[1..])
  }

  function EstimatedLen(tx: Envelope): nat {
    189 + PrefixLen(|tx.keys|) + KeysLen(tx.keys) + PrefixLen(|tx.tail.payload|) + |tx.tail.payload|
  }

  lemma {:induction false} KeysLenIsExact(keys: seq<Bytes>)
    ensures |EncodeKeys(keys)| == KeysLen(keys)
  {
    if keys != [] {
      KeysLenIsExact(keys[1..]);
    }
  }

  /** The estimate is the exact encoded size. */
  lemma EstimateIsExact(tx: Envelope)
    requires InBounds(tx)
    ensures |Encode(tx)| == EstimatedLen(tx)
  {
    hide Little;
    KeysLenIsExact(tx.keys);
    assert |EncodeHead(tx.head)| == 61;
    assert |EncodeResources(tx.tail.limit)| == 32 && |EncodeResources(tx.tail.prices)| == 32;
  }
}
