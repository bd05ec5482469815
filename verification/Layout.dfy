/** The transaction envelope as offsets into its bytes: what is accepted, and where every field stands. */
module Layout {

  import opened Wrappers
  import opened Codec

  // Little-endian integers at an offset, digit by digit.

  function U16At(b: Bytes, at: nat): nat
    requires at + 2 <= |b|
  {
    b[at] as int + 0x100 * b[at + 1] as int
  }

  function U32At(b: Bytes, at: nat): nat
    requires at + 4 <= |b|
  {
    U16At(b, at) + 0x1_0000 * U16At(b, at + 2)
  }

  function U64At(b: Bytes, at: nat): nat
    requires at + 8 <= |b|
  {
    U32At(b, at) + 0x1_0000_0000 * U32At(b, at + 4)
  }

  lemma Split(b: Bytes, at: nat, n: nat)
    requires at + n <= |b|
    ensures b[at..][..n] == b[at..at + n] && b[at..][n..] == b[at + n..]
  {
  }

  lemma DigitFirst(b: Bytes, at: nat, n: nat)
    requires 0 < n && at + n <= |b|
    ensures FromLittle(b[at..at + n]) == b[at] + 256 * FromLittle(b[at + 1..at + n])
  {
    assert b[at..at + n][1..] == b[at + 1..at + n];
  }

  lemma TwoBytes(b: Bytes, at: nat)
    requires at + 2 <= |b|
    ensures FromLittle(b[at..at + 2]) == U16At(b, at)
  {
    DigitFirst(b, at, 2);
    DigitFirst(b, at + 1, 1);
    assert b[at + 2..at + 2] == [];
  }

  lemma FourBytes(b: Bytes, at: nat)
    requires at + 4 <= |b|
    ensures FromLittle(b[at..at + 4]) == U32At(b, at)
  {
    DigitFirst(b, at, 4);
    DigitFirst(b, at + 1, 3);
    TwoBytes(b, at + 2);
  }

  lemma EightBytes(b: Bytes, at: nat)
    requires at + 8 <= |b|
    ensures FromLittle(b[at..at + 8]) == U64At(b, at)
  {
    DigitFirst(b, at, 8);
    DigitFirst(b, at + 1, 7);
    DigitFirst(b, at + 2, 6);
    DigitFirst(b, at + 3, 5);
    FourBytes(b, at + 4);
  }

  lemma ReadsInt(b: Bytes, at: nat)
    requires at <= |b|
    ensures TakeInt(b[at..], 4) == if at + 4 <= |b| then Ok((U32At(b, at), b[at + 4..])) else Err(Truncated)
    ensures TakeInt(b[at..], 8) == if at + 8 <= |b| then Ok((U64At(b, at), b[at + 8..])) else Err(Truncated)
  {
    hide FromLittle;
    if at + 4 <= |b| {
      Split(b, at, 4);
      FourBytes(b, at);
    }
    if at + 8 <= |b| {
      Split(b, at, 8);
      EightBytes(b, at);
    }
  }

  lemma ReadsExact(b: Bytes, at: nat, n: nat)
    requires at <= |b|
    ensures TakeExact(b[at..], n) == if at + n <= |b| then Ok((b[at..at + n], b[at + n..])) else Err(Truncated)
  {
    if at + n <= |b| {
      Split(b, at, n);
    }
  }

  // The head: 61 bytes.

  ghost predicate HeadAt(b: Bytes, h: Head) {
    && 61 <= |b|
    && b[0] == 'A' as int && b[1] == 'L' as int && b[2] == 'T' as int && b[3] == 'X' as int
    && U32At(b, 4) == h.version == 1 && U32At(b, 8) == h.chainId
    && b[12..44] == h.sender && U64At(b, 44) == h.nonce && U64At(b, 52) == h.expiresAt
    && b[60] == match h.lane case Payments => 0 case Contracts => 1 case System => 2
  }

  lemma LaneIff(b: Bytes, lane: Lane)
    requires 60 <= |b|
    ensures TakeLane(b[60..]).Ok? ==> 61 <= |b| && TakeLane(b[60..]).value.1 == b[61..]
    ensures TakeLane(b[60..]).Ok? && TakeLane(b[60..]).value.0 == lane <==>
            61 <= |b| && b[60] == match lane case Payments => 0 case Contracts => 1 case System => 2
  {
    ReadsExact(b, 60, 1);
  }

  /** The head is accepted exactly when its fields stand at these offsets. */
  lemma HeadIff(b: Bytes, h: Head)
    ensures TakeHead(b).Ok? ==> 61 <= |b| && TakeHead(b).value.1 == b[61..]
    ensures TakeHead(b).Ok? && TakeHead(b).value.0 == h <==> HeadAt(b, h)
  {
    hide TakeInt;
    hide TakeExact;
    hide TakeLane;
    hide U32At;
    hide U64At;
    assert b[0..] == b;
    ReadsExact(b, 0, 4);
    if 4 <= |b| {
      ReadsInt(b, 4);
    }
    if 8 <= |b| {
      ReadsInt(b, 8);
    }
    if 12 <= |b| {
      ReadsExact(b, 12, 32);
    }
    if 44 <= |b| {
      ReadsInt(b, 44);
    }
    if 52 <= |b| {
      ReadsInt(b, 52);
    }
    if 60 <= |b| {
      ReadsExact(b, 60, 1);
      LaneIff(b, h.lane);
    }
    if 4 <= |b| {
      assert b[0..4] == MAGIC <==> b[0] == 65 && b[1] == 76 && b[2] == 84 && b[3] == 88;
    }
  }

  // Length prefixes and strings.

  /** One byte below 128, otherwise 0x80 and four bytes, up to 2^20. */
  ghost predicate LengthAt(b: Bytes, at: nat, n: nat) {
    && at < |b|
    && if n < 128 then b[at] == n
       else n <= 0x10_0000 && b[at] == 128 && at + 5 <= |b| && U32At(b, at + 1) == n
  }

  function Width(n: nat): nat {
    if n < 128 then 1 else 5
  }

  lemma LengthIff(b: Bytes, at: nat, n: nat)
    requires at <= |b|
    ensures TakeLength(b[at..]).Ok? && TakeLength(b[at..]).value.0 == n <==> LengthAt(b, at, n)
    ensures LengthAt(b, at, n) ==> at + Width(n) <= |b| && TakeLength(b[at..]).value.1 == b[at + Width(n)..]
  {
    hide TakeInt;
    hide TakeExact;
    hide U32At;
    ReadsExact(b, at, 1);
    if at < |b| {
      ReadsInt(b, at + 1);
    }
  }

  /** A length prefix and then exactly the bytes of `s`. */
  ghost predicate StringAt(b: Bytes, at: nat, s: Bytes) {
    && LengthAt(b, at, |s|)
    && at + Width(|s|) + |s| <= |b|
    && s == b[at + Width(|s|)..at + Width(|s|) + |s|]
  }

  lemma StringIff(b: Bytes, at: nat, limit: nat, s: Bytes)
    requires at <= |b|
    ensures TakeBytes(b[at..], limit).Ok? && TakeBytes(b[at..], limit).value.0 == s <==>
            StringAt(b, at, s) && |s| <= limit
    ensures StringAt(b, at, s) && |s| <= limit ==> TakeBytes(b[at..], limit).value.1 == b[at + Width(|s|) + |s|..]
  {
    hide TakeLength;
    hide LengthAt;
    hide TakeExact;
    if TakeLength(b[at..]).Ok? {
      var n := TakeLength(b[at..]).value.0;
      LengthIff(b, at, n);
      ReadsExact(b, at + Width(n), n);
    }
    LengthIff(b, at, |s|);
  }

  /** Strings of at most 256 bytes, one after the other. */
  ghost predicate StringsAt(b: Bytes, at: nat, strings: seq<Bytes>)
    decreases strings
  {
    strings != [] ==>
      && |strings[0]| <= 256 && StringAt(b, at, strings[0])
      && StringsAt(b, at + Width(|strings[0]|) + |strings[0]|, strings[1..])
  }

  ghost function EndOf(at: nat, strings: seq<Bytes>): nat
    decreases strings
  {
    if strings == [] then at else EndOf(at + Width(|strings[0]|) + |strings[0]|, strings[1..])
  }

  lemma {:induction false} StringsIff(b: Bytes, at: nat, count: nat, strings: seq<Bytes>)
    requires at <= |b|
    ensures TakeKeys(b[at..], count).Ok? && TakeKeys(b[at..], count).value.0 == strings <==>
            StringsAt(b, at, strings) && |strings| == count
    ensures StringsAt(b, at, strings) && |strings| == count ==>
              && at + |strings| <= EndOf(at, strings) <= |b|
              && TakeKeys(b[at..], count).value.1 == b[EndOf(at, strings)..]
    decreases count
  {
    hide TakeBytes;
    hide StringAt;
    if count > 0 {
      var first := TakeBytes(b[at..], MAX_STATE_KEY_LEN);
      if first.Ok? {
        var key := first.value.0;
        StringIff(b, at, 256, key);
        StringEnds(b, at, key);
        var next := at + Width(|key|) + |key|;
        if strings != [] {
          StringsIff(b, next, count - 1, strings[1..]);
        }
        if TakeKeys(b[next..], count - 1).Ok? {
          var rest := TakeKeys(b[next..], count - 1).value.0;
          assert ([key] + rest)[1..] == rest;
        }
      }
      if strings != [] {
        StringIff(b, at, 256, strings[0]);
        assert strings == [strings[0]] + strings[1..];
      }
    }
  }

  lemma StringEnds(b: Bytes, at: nat, s: Bytes)
    requires StringAt(b, at, s)
    ensures at + Width(|s|) + |s| <= |b|
  {
  }

  // The tail.

  /** Compute, memory, io and bandwidth, eight bytes each. */
  ghost predicate ResourcesAt(b: Bytes, at: nat, r: Resources) {
    && at + 32 <= |b|
    && U64At(b, at) == r.compute && U64At(b, at + 8) == r.memory
    && U64At(b, at + 16) == r.io && U64At(b, at + 24) == r.bandwidth
  }

  lemma ResourcesIff(b: Bytes, at: nat, r: Resources)
    requires at <= |b|
    ensures TakeResources(b[at..]).Ok? && TakeResources(b[at..]).value.0 == r <==> ResourcesAt(b, at, r)
    ensures TakeResources(b[at..]).Ok? ==> at + 32 <= |b| && TakeResources(b[at..]).value.1 == b[at + 32..]
  {
    hide TakeInt;
    hide U64At;
    ReadsInt(b, at);
    if at + 8 <= |b| {
      ReadsInt(b, at + 8);
    }
    if at + 16 <= |b| {
      ReadsInt(b, at + 16);
    }
    if at + 24 <= |b| {
      ReadsInt(b, at + 24);
    }
  }

  /** Limit, prices, payload of at most 2^20 bytes, and 64 bytes of signature that end the message. */
  ghost predicate TailAt(b: Bytes, at: nat, t: Tail) {
    && ResourcesAt(b, at, t.limit) && ResourcesAt(b, at + 32, t.prices)
    && |t.payload| <= 0x10_0000 && StringAt(b, at + 64, t.payload)
    && var end := at + 64 + Width(|t.payload|) + |t.payload|;
       |b| == end + 64 && t.signature == b[end..]
  }

  lemma TailIff(b: Bytes, at: nat, t: Tail)
    requires at <= |b|
    ensures TakeTail(b[at..]) == Ok(t) <==> TailAt(b, at, t)
  {
    hide TakeResources;
    hide ResourcesAt;
    hide TakeBytes;
    hide StringAt;
    hide TakeExact;
    if TakeResources(b[at..]).Ok? {
      ResourcesIff(b, at, TakeResources(b[at..]).value.0);
      if TakeResources(b[at + 32..]).Ok? {
        ResourcesIff(b, at + 32, TakeResources(b[at + 32..]).value.0);
        if TakeBytes(b[at + 64..], MAX_PAYLOAD).Ok? {
          var payload := TakeBytes(b[at + 64..], MAX_PAYLOAD).value.0;
          StringIff(b, at + 64, MAX_PAYLOAD, payload);
          StringEnds(b, at + 64, payload);
          var end := at + 64 + Width(|payload|) + |payload|;
          ReadsExact(b, end, 64);
          if end + 64 == |b| {
            assert b[end..end + 64] == b[end..];
          }
        }
      }
    }
    TailIsRead(b, at, t);
  }

  lemma TailIsRead(b: Bytes, at: nat, t: Tail)
    requires at <= |b|
    ensures TailAt(b, at, t) ==> TakeTail(b[at..]) == Ok(t)
  {
    hide TakeResources;
    hide ResourcesAt;
    hide TakeBytes;
    hide StringAt;
    hide TakeExact;
    if TailAt(b, at, t) {
      ResourcesIff(b, at, t.limit);
      ResourcesIff(b, at + 32, t.prices);
      StringIff(b, at + 64, MAX_PAYLOAD, t.payload);
      var end := at + 64 + Width(|t.payload|) + |t.payload|;
      ReadsExact(b, end, 64);
      assert b[end..end + 64] == b[end..];
    }
  }

  // The whole envelope.

  ghost predicate EnvelopeAt(b: Bytes, tx: Envelope) {
    && HeadAt(b, tx.head) && LengthAt(b, 61, |tx.keys|)
    && var first := 61 + Width(|tx.keys|);
       StringsAt(b, first, tx.keys) && TailAt(b, EndOf(first, tx.keys), tx.tail)
  }

  /** A byte string decodes to a transaction exactly when every field of it stands where the format puts it. */
  lemma DecodesIffLayout(b: Bytes, tx: Envelope)
    ensures Parse(b) == Ok(tx) <==> EnvelopeAt(b, tx)
  {
    if Parse(b).Ok? {
      DecodedLayout(b);
    }
    if EnvelopeAt(b, tx) {
      LayoutIsDecoded(b, tx);
    }
  }

  lemma DecodedLayout(b: Bytes)
    requires Parse(b).Ok?
    ensures EnvelopeAt(b, Parse(b).value)
  {
    hide TakeHead;
    hide HeadAt;
    hide TakeLength;
    hide LengthAt;
    hide TakeKeys;
    hide StringsAt;
    hide EndOf;
    hide TakeTail;
    hide TailAt;
    var tx := Parse(b).value;
    HeadIff(b, tx.head);
    var count := TakeLength(b[61..]).value.0;
    LengthIff(b, 61, count);
    StringsIff(b, 61 + Width(count), count, tx.keys);
    TailIff(b, EndOf(61 + Width(count), tx.keys), tx.tail);
  }

  lemma LayoutIsDecoded(b: Bytes, tx: Envelope)
    requires EnvelopeAt(b, tx)
    ensures Parse(b) == Ok(tx)
  {
    hide TakeHead;
    hide HeadAt;
    hide TakeLength;
    hide LengthAt;
    hide TakeKeys;
    hide StringsAt;
    hide EndOf;
    hide TakeTail;
    hide TailAt;
    var count := |tx.keys|;
    HeadIff(b, tx.head);
    LengthIff(b, 61, count);
    StringsIff(b, 61 + Width(count), count, tx.keys);
    TailIff(b, EndOf(61 + Width(count), tx.keys), tx.tail);
  }

  /** The encoder puts every field of a supported transaction exactly there. */
  lemma EncodesToLayout(tx: Envelope)
    requires InBounds(tx) && tx.head.version == TRANSACTION_VERSION
    ensures EnvelopeAt(Encode(tx), tx)
  {
    ParseOfEncode(tx);
    DecodedLayout(Encode(tx));
  }

  // Why other strings are refused: the first fault in reading order.

  ghost function HeadFault(b: Bytes): Option<DecodeError> {
    if |b| < 4 then Some(Truncated)
    else if b[..4] != [65, 76, 84, 88] then Some(Unsupported)
    else if |b| < 8 then Some(Truncated)
    else if U32At(b, 4) != 1 then Some(Unsupported)
    else if |b| < 61 then Some(Truncated)
    else if b[60] > 2 then Some(Unsupported)
    else None
  }

  ghost function LengthFault(b: Bytes, at: nat): Option<DecodeError> {
    if at >= |b| then Some(Truncated)
    else if b[at] < 128 then None
    else if b[at] > 128 then Some(NonCanonical)
    else if at + 5 > |b| then Some(Truncated)
    else if U32At(b, at + 1) < 128 then Some(NonCanonical)
    else if U32At(b, at + 1) > 0x10_0000 then Some(LimitExceeded)
    else None
  }

  /** The length that stands at `at`. */
  ghost function LengthOf(b: Bytes, at: nat): nat
    requires LengthFault(b, at).None?
  {
    if b[at] < 128 then b[at] else U32At(b, at + 1)
  }

  ghost function StringFault(b: Bytes, at: nat, limit: nat): Option<DecodeError> {
    if LengthFault(b, at).Some? then LengthFault(b, at)
    else
      var n := LengthOf(b, at);
      if n > limit then Some(LimitExceeded) else if at + Width(n) + n > |b| then Some(Truncated) else None
  }

  /** Offset after the string that stands at `at`. */
  ghost function After(b: Bytes, at: nat): nat
    requires LengthFault(b, at).None?
  {
    at + Width(LengthOf(b, at)) + LengthOf(b, at)
  }

  ghost function StringsFault(b: Bytes, at: nat, count: nat): Option<DecodeError>
    decreases count
  {
    if count == 0 then None
    else if StringFault(b, at, 256).Some? then StringFault(b, at, 256)
    else StringsFault(b, After(b, at), count - 1)
  }

  ghost function AfterStrings(b: Bytes, at: nat, count: nat): nat
    requires StringsFault(b, at, count).None?
    decreases count
  {
    if count == 0 then at else AfterStrings(b, After(b, at), count - 1)
  }

  ghost function TailFault(b: Bytes, at: nat): Option<DecodeError> {
    if at + 64 > |b| then Some(Truncated)
    else if StringFault(b, at + 64, 0x10_0000).Some? then StringFault(b, at + 64, 0x10_0000)
    else
      var end := After(b, at + 64) + 64;
      if end > |b| then Some(Truncated) else if end < |b| then Some(TrailingBytes) else None
  }

  ghost function EnvelopeFault(b: Bytes): Option<DecodeError> {
    if HeadFault(b).Some? then HeadFault(b)
    else if LengthFault(b, 61).Some? then LengthFault(b, 61)
    else
      var count := LengthOf(b, 61);
      var first := 61 + Width(count);
      if first + count > |b| then Some(Truncated)
      else if StringsFault(b, first, count).Some? then StringsFault(b, first, count)
      else TailFault(b, AfterStrings(b, first, count))
  }

  lemma HeadErrors(b: Bytes)
    ensures if HeadFault(b).None? then 61 <= |b| && TakeHead(b).Ok? && TakeHead(b).value.1 == b[61..]
            else TakeHead(b) == Err(HeadFault(b).value)
  {
    hide TakeInt;
    hide TakeExact;
    hide U32At;
    hide U64At;
    assert b[0..] == b;
    ReadsExact(b, 0, 4);
    if 4 <= |b| {
      assert b[0..4] == b[..4];
      ReadsInt(b, 4);
    }
    if 8 <= |b| {
      ReadsInt(b, 8);
    }
    if 12 <= |b| {
      ReadsExact(b, 12, 32);
    }
    if 44 <= |b| {
      ReadsInt(b, 44);
    }
    if 52 <= |b| {
      ReadsInt(b, 52);
    }
    if 60 <= |b| {
      ReadsExact(b, 60, 1);
    }
  }

  lemma LengthErrors(b: Bytes, at: nat)
    requires at <= |b|
    ensures if LengthFault(b, at).None? then
              at + Width(LengthOf(b, at)) <= |b|
              && TakeLength(b[at..]) == Ok((LengthOf(b, at), b[at + Width(LengthOf(b, at))..]))
            else TakeLength(b[at..]) == Err(LengthFault(b, at).value)
  {
    hide TakeInt;
    hide TakeExact;
    hide U32At;
    ReadsExact(b, at, 1);
    if at < |b| {
      ReadsInt(b, at + 1);
    }
  }

  lemma StringErrors(b: Bytes, at: nat, limit: nat)
    requires at <= |b|
    ensures StringFault(b, at, limit).None? ==> LengthFault(b, at).None?
    ensures var r := TakeBytes(b[at..], limit);
            if StringFault(b, at, limit).None? then After(b, at) <= |b| && r.Ok? && r.value.1 == b[After(b, at)..]
            else r == Err(StringFault(b, at, limit).value)
  {
    hide TakeLength;
    hide TakeExact;
    hide LengthFault;
    hide LengthOf;
    LengthErrors(b, at);
    if LengthFault(b, at).None? {
      ReadsExact(b, at + Width(LengthOf(b, at)), LengthOf(b, at));
    }
  }

  lemma {:induction false} StringsErrors(b: Bytes, at: nat, count: nat)
    requires at <= |b|
    ensures var r := TakeKeys(b[at..], count);
            if StringsFault(b, at, count).None? then
              AfterStrings(b, at, count) <= |b| && r.Ok? && r.value.1 == b[AfterStrings(b, at, count)..]
            else r == Err(StringsFault(b, at, count).value)
    decreases count
  {
    hide TakeBytes;
    hide StringFault;
    hide After;
    if count > 0 {
      StringErrors(b, at, 256);
      if StringFault(b, at, 256).None? {
        StringsErrors(b, After(b, at), count - 1);
      }
    }
  }

  lemma ResourcesErrors(b: Bytes, at: nat)
    requires at <= |b|
    ensures var r := TakeResources(b[at..]);
            if at + 32 <= |b| then r.Ok? && r.value.1 == b[at + 32..] else r == Err(Truncated)
  {
    hide TakeInt;
    hide U64At;
    ReadsInt(b, at);
    if at + 8 <= |b| {
      ReadsInt(b, at + 8);
    }
    if at + 16 <= |b| {
      ReadsInt(b, at + 16);
    }
    if at + 24 <= |b| {
      ReadsInt(b, at + 24);
    }
  }

  lemma TailErrors(b: Bytes, at: nat)
    requires at <= |b|
    ensures if TailFault(b, at).None? then TakeTail(b[at..]).Ok? else TakeTail(b[at..]) == Err(TailFault(b, at).value)
  {
    hide TakeResources;
    hide TakeBytes;
    hide TakeExact;
    hide StringFault;
    hide After;
    ResourcesErrors(b, at);
    if at + 32 <= |b| {
      ResourcesErrors(b, at + 32);
    }
    if at + 64 <= |b| {
      StringErrors(b, at + 64, MAX_PAYLOAD);
      if StringFault(b, at + 64, MAX_PAYLOAD).None? {
        ReadsExact(b, After(b, at + 64), 64);
      }
    }
  }

  /** A string without a fault decodes; otherwise the first fault is what is reported. */
  lemma RefusedForFirstFault(b: Bytes)
    ensures if EnvelopeFault(b).None? then Parse(b).Ok? else Parse(b) == Err(EnvelopeFault(b).value)
  {
    hide TakeHead;
    hide HeadFault;
    hide TakeLength;
    hide LengthFault;
    hide LengthOf;
    hide TakeKeys;
    hide StringsFault;
    hide AfterStrings;
    hide TakeTail;
    hide TailFault;
    HeadErrors(b);
    if HeadFault(b).None? {
      BodyErrors(b);
    }
  }

  lemma BodyErrors(b: Bytes)
    requires TakeHead(b).Ok? && 61 <= |b| && TakeHead(b).value.1 == b[61..] && HeadFault(b).None?
    ensures if EnvelopeFault(b).None? then Parse(b).Ok? else Parse(b) == Err(EnvelopeFault(b).value)
  {
    hide TakeHead;
    hide HeadFault;
    hide TakeLength;
    hide LengthFault;
    hide LengthOf;
    hide TakeKeys;
    hide StringsFault;
    hide AfterStrings;
    hide TakeTail;
    hide TailFault;
    LengthErrors(b, 61);
    if LengthFault(b, 61).None? {
      var count := LengthOf(b, 61);
      StringsErrors(b, 61 + Width(count), count);
      if StringsFault(b, 61 + Width(count), count).None? {
        TailErrors(b, AfterStrings(b, 61 + Width(count), count));
      }
    }
  }
}
