/** Name leases: canonical bytes, the lease transition and its fixed buffers. */
module Registry {

  import opened Wrappers
  import opened Codec

  const MAX_NAME := 63
  const MAX_RECORD := 256
  const MAX_LEASE := 379
  const MAX_CALL := 340
  const MAX_DURATION := 1_000_000

  datatype RegistryError = Encoding | Name | Occupied | Expired | Owner | Duration

  function Ascii(s: string): (r: Bytes)
    ensures |r| == |s|
  {
    seq(|s|, i requires 0 <= i < |s| => s[i] as int % 256)
  }

  const RESERVED := ["admin", "root", "system", "astrolune", "localhost", "daemon", "validator", "consensus",
                     "genesis", "null", "undefined", "www", "api", "rpc", "p2p"]

  const LEASE_MAGIC: Bytes := [65, 76, 68, 78, 83, 76, 48, 49]
  const CALL_MAGIC: Bytes := [65, 76, 68, 78, 83, 67, 48, 49]
  const KEY_PREFIX: Bytes := [100, 110, 115, 47, 118, 49, 47]

  /** The all-zero address. */
  predicate IsZero(owner: Bytes) {
    forall i | 0 <= i < |owner| :: owner[i] == 0
  }

  // Names.

  /** Maps a digit to the letter it can be mistaken for. */
  function SkeletonByte(b: Byte): Byte {
    match b
    case 48 => 111
    case 49 => 108
    case 51 => 101
    case 53 => 115
    case 56 => 98
    case _ => b
  }

  function Skeleton(name: Bytes): (r: Bytes)
    ensures |r| == |name|
  {
    seq(|name|, i requires 0 <= i < |name| => SkeletonByte(name[i]))
  }

  predicate IsNameByte(b: Byte) {
    97 <= b <= 122 || 48 <= b <= 57 || b == 45
  }

  /** Canonical spelling that is not confusable with a reserved name. */
  predicate NameOk(name: Bytes) {
    && 0 < |name| <= MAX_NAME && name[0] != 45 && name[|name| - 1] != 45
    && (forall i | 0 <= i < |name| :: IsNameByte(name[i]))
    && (forall r | r in RESERVED :: Skeleton(name) != Skeleton(Ascii(r)))
  }

  method LooksLike(a: Bytes, b: Bytes) returns (same: bool)
    ensures same <==> Skeleton(a) == Skeleton(b)
  {
    hide SkeletonByte;
    if |a| != |b| {
      return false;
    }
    for i := 0 to |a|
      invariant forall j | 0 <= j < i :: SkeletonByte(a[j]) == SkeletonByte(b[j])
    {
      if SkeletonByte(a[i]) != SkeletonByte(b[i]) {
        assert Skeleton(a)[i] != Skeleton(b)[i];
        return false;
      }
    }
    assert Skeleton(a) == Skeleton(b);
    return true;
  }

  method ValidateName(name: Bytes) returns (r: Result<(), RegistryError>)
    ensures r == if NameOk(name) then Ok(()) else Err(Name)
  {
    hide Skeleton;
    if |name| == 0 || |name| > MAX_NAME || name[0] == 45 || name[|name| - 1] == 45 {
      return Err(Name);
    }
    for i := 0 to |name|
      invariant forall j | 0 <= j < i :: IsNameByte(name[j])
    {
      if !IsNameByte(name[i]) {
        return Err(Name);
      }
    }
    for k := 0 to |RESERVED|
      invariant forall j | 0 <= j < k :: Skeleton(name) != Skeleton(Ascii(RESERVED[j]))
    {
      var reserved := Ascii(RESERVED[k]);
      var same := LooksLike(name, reserved);
      if same {
        assert RESERVED[k] in RESERVED;
        return Err(Name);
      }
    }
    return Ok(());
  }

  function KeyOf(name: Bytes): Bytes {
    KEY_PREFIX + Skeleton(name)
  }

  /** The storage key in a caller's buffer. */
  method RegistryKey(name: Bytes, output: array<Byte>) returns (r: Result<nat, RegistryError>)
    requires output.Length == MAX_NAME + 7
    modifies output
    ensures r.Ok? <==> NameOk(name)
    ensures r.Ok? ==> r.value == |KeyOf(name)| <= output.Length && output[..r.value] == KeyOf(name)
    ensures r.Err? ==> r.error == Name && output[..] == old(output[..])
  {
    var valid := ValidateName(name);
    if valid.Err? {
      return Err(valid.error);
    }
    var prefix := KEY_PREFIX;
    for i := 0 to 7
      invariant output[..i] == prefix[..i]
    {
      output[i] := prefix[i];
    }
    for i := 0 to |name|
      invariant output[..7 + i] == prefix + Skeleton(name)[..i]
    {
      output[7 + i] := SkeletonByte(name[i]);
    }
    assert Skeleton(name)[..|name|] == Skeleton(name);
    return Ok(7 + |name|);
  }

  // Records and leases.

  datatype Record = Record(kind: Byte, value: Bytes)

  predicate RecordOk(r: Record) {
    match r.kind
    case 0 => |r.value| == 32 && exists i | 0 <= i < |r.value| :: r.value[i] != 0
    case 1 => 0 < |r.value| <= MAX_RECORD && forall i | 0 <= i < |r.value| :: 32 <= r.value[i] <= 126
    case _ => false
  }

  datatype Lease = Lease(name: Bytes, owner: Bytes, issued: nat, expires: nat, record: Record)

  predicate LeaseOk(l: Lease) {
    NameOk(l.name) && |l.owner| == 32 && !IsZero(l.owner) && 0 < l.issued < l.expires <= U64_MAX && RecordOk(l.record)
  }

  function EncodeName(name: Bytes): Bytes
    requires |name| < 256
  {
    [|name|] + name
  }

  function EncodeRecord(r: Record): Bytes {
    [r.kind] + (Little(|r.value|, 2) + r.value)
  }

  function EncodeLease(l: Lease): Bytes
    requires |l.name| < 256
  {
    LEASE_MAGIC +
    (EncodeName(l.name) + (l.owner + (Little(l.issued, 8) + (Little(l.expires, 8) + EncodeRecord(l.record)))))
  }

  /** A valid lease always fits its buffer. */
  lemma LeaseFits(l: Lease)
    requires LeaseOk(l)
    ensures |EncodeLease(l)| <= MAX_LEASE
  {
    hide Little;
    assert |l.name| <= MAX_NAME && |l.record.value| <= MAX_RECORD;
  }

  // Parsers.

  type Read<+T> = Result<(T, Bytes), RegistryError>

  /** The contract reports every short read in the same way. */
  function AsRead<T>(parsed: Parsed<T>): Read<T> {
    if parsed.Ok? then Ok(parsed.value) else Err(Encoding)
  }

  function Take(b: Bytes, n: nat): Read<Bytes> {
    AsRead(TakeExact(b, n))
  }

  function TakeNumber(b: Bytes, n: nat): Read<nat> {
    AsRead(TakeInt(b, n))
  }

  function TakeName(b: Bytes): Read<Bytes> {
    var (count, b1) :- Take(b, 1);
    var (name, b2) :- Take(b1, count[0]);
    if NameOk(name) then Ok((name, b2)) else Err(Name)
  }

  function TakeRecord(b: Bytes): Read<Record> {
    var (kind, b1) :- Take(b, 1);
    var (length, b2) :- TakeNumber(b1, 2);
    var (value, b3) :- Take(b2, length);
    if RecordOk(Record(kind[0], value)) then Ok((Record(kind[0], value), b3)) else Err(Encoding)
  }

  function ParseLease(b: Bytes): Result<Lease, RegistryError> {
    var (magic, b1) :- Take(b, 8);
    if magic != LEASE_MAGIC then Err(Encoding)
    else
      var (name, b2) :- TakeName(b1);
      var (owner, b3) :- Take(b2, 32);
      var (issued, b4) :- TakeNumber(b3, 8);
      var (expires, b5) :- TakeNumber(b4, 8);
      var (record, b6) :- TakeRecord(b5);
      if b6 != [] then Err(Encoding)
      else if IsZero(owner) || issued == 0 || expires <= issued then Err(Encoding)
      else Ok(Lease(name, owner, issued, expires, record))
  }

  lemma TakeBack(value: Bytes, rest: Bytes)
    ensures Take(value + rest, |value|) == Ok((value, rest))
  {
    TakesBack(value, rest);
  }

  lemma TakeForth(b: Bytes, n: nat)
    requires Take(b, n).Ok?
    ensures var (value, rest) := Take(b, n).value; b == value + rest && |value| == n
  {
  }

  lemma NumberBack(x: nat, n: nat, rest: Bytes)
    requires x < Pow256(n)
    ensures TakeNumber(Little(x, n) + rest, n) == Ok((x, rest))
  {
    IntBack(x, n, rest);
  }

  lemma NumberForth(b: Bytes, n: nat)
    requires TakeNumber(b, n).Ok?
    ensures var (x, rest) := TakeNumber(b, n).value; b == Little(x, n) + rest && x < Pow256(n)
  {
    IntForth(b, n);
  }

  lemma NameBack(name: Bytes, rest: Bytes)
    requires NameOk(name)
    ensures TakeName(EncodeName(name) + rest) == Ok((name, rest))
  {
    assert 0 < |name| <= MAX_NAME;
    hide NameOk;
    assert EncodeName(name) + rest == [|name|] + (name + rest);
    TakeBack([|name|], name + rest);
    TakeBack(name, rest);
  }

  lemma NameForth(b: Bytes)
    requires TakeName(b).Ok?
    ensures var (name, rest) := TakeName(b).value; NameOk(name) && |name| < 256 && b == EncodeName(name) + rest
  {
    hide NameOk;
    var (count, b1) := Take(b, 1).value;
    var (name, b2) := Take(b1, count[0]).value;
    assert count == [count[0]] && b == [|name|] + (name + b2) == [|name|] + name + b2;
  }

  lemma RecordBack(r: Record, rest: Bytes)
    requires RecordOk(r)
    ensures TakeRecord(EncodeRecord(r) + rest) == Ok((r, rest))
  {
    assert |r.value| <= MAX_RECORD;
    hide RecordOk;
    hide TakeNumber;
    hide Little;
    assert EncodeRecord(r) + rest == [r.kind] + (Little(|r.value|, 2) + (r.value + rest));
    TakeBack([r.kind], Little(|r.value|, 2) + (r.value + rest));
    assert Pow256(2) == 65536;
    NumberBack(|r.value|, 2, r.value + rest);
    TakeBack(r.value, rest);
  }

  lemma RecordForth(b: Bytes)
    requires TakeRecord(b).Ok?
    ensures var (r, rest) := TakeRecord(b).value; RecordOk(r) && b == EncodeRecord(r) + rest
  {
    hide RecordOk;
    hide TakeNumber;
    hide Little;
    TakeForth(b, 1);
    var (kind, b1) := Take(b, 1).value;
    NumberForth(b1, 2);
    var (length, b2) := TakeNumber(b1, 2).value;
    TakeForth(b2, length);
    var (value, b3) := Take(b2, length).value;
    assert kind == [kind[0]];
    assert [kind[0]] + (Little(length, 2) + (value + b3)) == [kind[0]] + (Little(length, 2) + value) + b3;
  }

  /** Stored bytes of a valid lease decode to it. */
  lemma LeaseBack(l: Lease)
    requires LeaseOk(l)
    ensures |l.name| < 256 && ParseLease(EncodeLease(l)) == Ok(l)
  {
    assert |l.name| < 256;
    hide NameOk;
    hide RecordOk;
    hide Take;
    hide TakeNumber;
    hide TakeName;
    hide TakeRecord;
    hide Little;
    Pow256Of8();
    var b5 := EncodeRecord(l.record) + [];
    var b4 := Little(l.expires, 8) + b5;
    var b3 := Little(l.issued, 8) + b4;
    var b2 := l.owner + b3;
    var b1 := EncodeName(l.name) + b2;
    assert b5 == EncodeRecord(l.record);
    TakeBack(LEASE_MAGIC, b1);
    NameBack(l.name, b2);
    TakeBack(l.owner, b3);
    NumberBack(l.issued, 8, b4);
    NumberBack(l.expires, 8, b5);
    RecordBack(l.record, []);
  }

  /** Whatever decodes is valid and is the one encoding of its lease. */
  lemma LeaseForth(b: Bytes)
    requires ParseLease(b).Ok?
    ensures LeaseOk(ParseLease(b).value) && EncodeLease(ParseLease(b).value) == b
  {
    hide NameOk;
    hide RecordOk;
    hide Take;
    hide TakeNumber;
    hide TakeName;
    hide TakeRecord;
    hide Little;
    Pow256Of8();
    TakeForth(b, 8);
    var (magic, b1) := Take(b, 8).value;
    NameForth(b1);
    var (name, b2) := TakeName(b1).value;
    TakeForth(b2, 32);
    var (owner, b3) := Take(b2, 32).value;
    NumberForth(b3, 8);
    var (issued, b4) := TakeNumber(b3, 8).value;
    NumberForth(b4, 8);
    var (expires, b5) := TakeNumber(b4, 8).value;
    RecordForth(b5);
    var (record, b6) := TakeRecord(b5).value;
    assert EncodeRecord(record) + [] == EncodeRecord(record);
  }

  // Calls.

  datatype Action =
    | Register(duration: nat, record: Record)
    | Update(record: Record)
    | Renew(duration: nat)
    | Transfer(owner: Bytes)
    | Release

  datatype Call = Call(name: Bytes, action: Action)

  /** Field widths of an in-memory action. */
  predicate ActionSized(a: Action) {
    match a
    case Register(duration, _) => duration <= U64_MAX
    case Update(_) => true
    case Renew(duration) => duration <= U64_MAX
    case Transfer(owner) => |owner| == 32
    case Release => true
  }

  function RecordOf(a: Action): Option<Record> {
    if a.Register? || a.Update? then Some(a.record) else None
  }

  predicate ActionOk(a: Action) {
    ActionSized(a) && (RecordOf(a).Some? ==> RecordOk(RecordOf(a).value))
  }

  predicate CallOk(c: Call) {
    NameOk(c.name) && ActionOk(c.action)
  }

  function Tag(a: Action): Byte {
    match a case Register(_, _) => 0 case Update(_) => 1 case Renew(_) => 2 case Transfer(_) => 3 case Release => 4
  }

  function EncodeAction(a: Action): Bytes {
    match a
    case Register(duration, record) => Little(duration, 8) + EncodeRecord(record)
    case Update(record) => EncodeRecord(record)
    case Renew(duration) => Little(duration, 8)
    case Transfer(owner) => owner
    case Release => []
  }

  function EncodeCall(c: Call): Bytes
    requires |c.name| < 256
  {
    CALL_MAGIC + ([Tag(c.action)] + (EncodeName(c.name) + EncodeAction(c.action)))
  }

  function TakeAction(tag: Byte, b: Bytes): Read<Action> {
    match tag
    case 0 =>
      var (duration, b1) :- TakeNumber(b, 8);
      var (record, b2) :- TakeRecord(b1);
      Ok((Register(duration, record), b2))
    case 1 =>
      var (record, b1) :- TakeRecord(b);
      Ok((Update(record), b1))
    case 2 =>
      var (duration, b1) :- TakeNumber(b, 8);
      Ok((Renew(duration), b1))
    case 3 =>
      var (owner, b1) :- Take(b, 32);
      Ok((Transfer(owner), b1))
    case 4 => Ok((Release, b))
    case _ => Err(Encoding)
  }

  function ParseCall(b: Bytes): Result<Call, RegistryError> {
    if |b| > MAX_CALL then Err(Encoding)
    else
      var (magic, b1) :- Take(b, 8);
      if magic != CALL_MAGIC then Err(Encoding)
      else
        var (tag, b2) :- Take(b1, 1);
        var (name, b3) :- TakeName(b2);
        var (action, b4) :- TakeAction(tag[0], b3);
        if b4 != [] then Err(Encoding) else Ok(Call(name, action))
  }

  lemma ActionBack(a: Action)
    requires ActionOk(a)
    ensures TakeAction(Tag(a), EncodeAction(a)) == Ok((a, []))
  {
    hide RecordOk;
    hide Take;
    hide TakeNumber;
    hide TakeRecord;
    hide Little;
    Pow256Of8();
    match a
    case Register(duration, record) =>
      NumberBack(duration, 8, EncodeRecord(record));
      RecordBack(record, []);
      assert EncodeRecord(record) + [] == EncodeRecord(record);
    case Update(record) =>
      RecordBack(record, []);
      assert EncodeRecord(record) + [] == EncodeRecord(record);
    case Renew(duration) =>
      NumberBack(duration, 8, []);
      assert Little(duration, 8) + [] == Little(duration, 8);
    case Transfer(owner) =>
      TakeBack(owner, []);
      assert owner + [] == owner;
    case Release =>
  }

  lemma ActionForth(tag: Byte, b: Bytes)
    requires TakeAction(tag, b).Ok?
    ensures var (a, rest) := TakeAction(tag, b).value; ActionOk(a) && Tag(a) == tag && b == EncodeAction(a) + rest
  {
    hide RecordOk;
    hide Take;
    hide TakeNumber;
    hide TakeRecord;
    hide Little;
    Pow256Of8();
    match tag
    case 0 =>
      NumberForth(b, 8);
      var (duration, b1) := TakeNumber(b, 8).value;
      RecordForth(b1);
      var (record, b2) := TakeRecord(b1).value;
      assert Little(duration, 8) + (EncodeRecord(record) + b2) == Little(duration, 8) + EncodeRecord(record) + b2;
    case 1 =>
      RecordForth(b);
    case 2 =>
      NumberForth(b, 8);
    case 3 =>
      TakeForth(b, 32);
    case _ =>
      assert [] + b == b;
  }

  lemma CallFits(c: Call)
    requires CallOk(c)
    ensures |c.name| < 256 && |EncodeCall(c)| <= MAX_CALL
  {
    hide Little;
    assert |c.name| <= MAX_NAME;
  }

  /** Encoded calls decode to themselves. */
  lemma CallBack(c: Call)
    requires CallOk(c)
    ensures |c.name| < 256 && ParseCall(EncodeCall(c)) == Ok(c)
  {
    CallFits(c);
    hide NameOk;
    hide ActionOk;
    hide Take;
    hide TakeName;
    hide TakeAction;
    hide EncodeAction;
    var b3 := EncodeAction(c.action);
    var b2 := EncodeName(c.name) + b3;
    TakeBack(CALL_MAGIC, [Tag(c.action)] + b2);
    TakeBack([Tag(c.action)], b2);
    NameBack(c.name, b3);
    ActionBack(c.action);
  }

  /** Accepted calls are valid and are the one encoding of what they decode to. */
  lemma CallForth(b: Bytes)
    requires ParseCall(b).Ok?
    ensures CallOk(ParseCall(b).value) && |ParseCall(b).value.name| < 256 && EncodeCall(ParseCall(b).value) == b
  {
    hide NameOk;
    hide ActionOk;
    hide Take;
    hide TakeName;
    hide TakeAction;
    hide EncodeAction;
    TakeForth(b, 8);
    var (magic, b1) := Take(b, 8).value;
    TakeForth(b1, 1);
    var (tag, b2) := Take(b1, 1).value;
    NameForth(b2);
    var (name, b3) := TakeName(b2).value;
    ActionForth(tag[0], b3);
    var (action, b4) := TakeAction(tag[0], b3).value;
    assert tag == [tag[0]] && EncodeAction(action) + [] == EncodeAction(action);
  }

  // The transition.

  function Expiry(height: nat, duration: nat): Result<nat, RegistryError> {
    if duration == 0 || duration > MAX_DURATION || height + duration > U64_MAX then Err(Duration)
    else Ok(height + duration)
  }

  function CheckRecord(r: Record): Result<(), RegistryError> {
    if RecordOk(r) then Ok(()) else Err(Encoding)
  }

  function Previous(previous: Option<Bytes>): Result<Option<Lease>, RegistryError> {
    if previous.None? then Ok(None)
    else
      var lease :- ParseLease(previous.value);
      Ok(Some(lease))
  }

  /** The next lease of the called name, None for deletion. */
  function Next(call: Call, previous: Option<Bytes>, caller: Bytes, height: nat): Result<Option<Lease>, RegistryError> {
    if !NameOk(call.name) then Err(Name)
    else if IsZero(caller) || height == 0 then Err(Owner)
    else
      var stored :- Previous(previous);
      var live := if stored.Some? && height < stored.value.expires then stored else None;
      if call.action.Register? then
        if live.Some? then Err(Occupied)
        else
          var _ :- CheckRecord(call.action.record);
          var expires :- Expiry(height, call.action.duration);
          Ok(Some(Lease(call.name, caller, height, expires, call.action.record)))
      else if live.None? || live.value.name != call.name then Err(Expired)
      else if live.value.owner != caller then Err(Owner)
      else
        var lease := live.value;
        match call.action
        case Update(record) =>
          var _ :- CheckRecord(record);
          Ok(Some(lease.(record := record)))
        case Renew(duration) =>
          var expires :- Expiry(lease.expires, duration);
          if expires - height > MAX_DURATION then Err(Duration) else Ok(Some(lease.(expires := expires)))
        case Transfer(owner) => if IsZero(owner) then Err(Owner) else Ok(Some(lease.(owner := owner)))
        case _ => Ok(None)
  }

  /** A produced lease is always storable. */
  lemma NextIsValid(call: Call, previous: Option<Bytes>, caller: Bytes, height: nat)
    requires |caller| == 32 && ActionSized(call.action)
    requires Next(call, previous, caller, height).Ok? && Next(call, previous, caller, height).value.Some?
    ensures LeaseOk(Next(call, previous, caller, height).value.value)
  {
    hide NameOk;
    hide RecordOk;
    hide IsZero;
    hide ParseLease;
    if previous.Some? && ParseLease(previous.value).Ok? {
      LeaseForth(previous.value);
    }
  }

  /** Copies one piece into the buffer at a moving offset. */
  method Append(output: array<Byte>, at: nat, piece: Bytes) returns (next: nat)
    requires at + |piece| <= output.Length
    modifies output
    ensures next == at + |piece| && output[..next] == old(output[..at]) + piece && output[next..] == old(output[next..])
  {
    ghost var before := output[..];
    for i := 0 to |piece|
      invariant output[..at + i] == before[..at] + piece[..i]
      invariant output[at + i..] == before[at + i..]
    {
      ghost var shorter := output[..at + i];
      output[at + i] := piece[i];
      assert output[..at + i + 1] == shorter + [piece[i]];
      assert output[at + i + 1..] == before[at + i + 1..];
    }
    assert piece[..|piece|] == piece;
    return at + |piece|;
  }

  function Concat(pieces: seq<Bytes>): Bytes {
    if pieces == [] then [] else pieces[0] + Concat(pieces[1..])
  }

  /** Copies the pieces one after the other. */
  method WriteAll(pieces: seq<Bytes>, output: array<Byte>) returns (n: nat)
    requires |Concat(pieces)| <= output.Length
    modifies output
    ensures n == |Concat(pieces)| && output[..n] == Concat(pieces) && output[n..] == old(output[n..])
  {
    ghost var before := output[..];
    n := 0;
    assert pieces[0..] == pieces;
    for i := 0 to |pieces|
      invariant n <= output.Length && output[..n] + Concat(pieces[i..]) == Concat(pieces)
      invariant output[n..] == before[n..]
    {
      assert pieces[i..][0] == pieces[i] && pieces[i..][1..] == pieces[i + 1..];
      ghost var (done, at) := (output[..n], n);
      n := Append(output, n, pieces[i]);
      assert done + (pieces[i] + Concat(pieces[i + 1..])) == done + pieces[i] + Concat(pieces[i + 1..]);
      assert before[at..][|pieces[i]|..] == before[n..];
    }
    assert Concat(pieces[|pieces|..]) == [] && output[..n] + [] == output[..n];
  }

  function LeasePieces(l: Lease): seq<Bytes>
    requires |l.name| < 256
  {
    [LEASE_MAGIC, [|l.name|], l.name, l.owner, Little(l.issued, 8), Little(l.expires, 8), [l.record.kind],
     Little(|l.record.value|, 2), l.record.value]
  }

  lemma LeasePiecesJoin(l: Lease)
    requires |l.name| < 256
    ensures Concat(LeasePieces(l)) == EncodeLease(l)
  {
    hide Little;
    hide LEASE_MAGIC;
    NinePieces(LEASE_MAGIC, [|l.name|], l.name, l.owner, Little(l.issued, 8), Little(l.expires, 8), [l.record.kind],
               Little(|l.record.value|, 2), l.record.value);
  }

  lemma Cons(piece: Bytes, rest: seq<Bytes>)
    ensures Concat([piece] + rest) == piece + Concat(rest)
  {
    assert ([piece] + rest)[1..] == rest;
  }

  lemma NinePieces(a: Bytes, b: Bytes, c: Bytes, d: Bytes, e: Bytes, f: Bytes, g: Bytes, h: Bytes, i: Bytes)
    ensures Concat([a, b, c, d, e, f, g, h, i]) == a + (b + c + (d + (e + (f + (g + (h + i))))))
  {
    hide Concat;
    FivePieces(e, f, g, h, i);
    Cons(d, [e, f, g, h, i]);
    Cons(c, [d, e, f, g, h, i]);
    Cons(b, [c, d, e, f, g, h, i]);
    Cons(a, [b, c, d, e, f, g, h, i]);
    assert [d] + [e, f, g, h, i] == [d, e, f, g, h, i];
    assert [c] + [d, e, f, g, h, i] == [c, d, e, f, g, h, i];
    assert [b] + [c, d, e, f, g, h, i] == [b, c, d, e, f, g, h, i];
    assert [a] + [b, c, d, e, f, g, h, i] == [a, b, c, d, e, f, g, h, i];
    var rest := d + (e + (f + (g + (h + i))));
    assert b + (c + rest) == b + c + rest;
  }

  lemma FivePieces(a: Bytes, b: Bytes, c: Bytes, d: Bytes, e: Bytes)
    ensures Concat([a, b, c, d, e]) == a + (b + (c + (d + e)))
  {
    assert Concat([]) == [];
    hide Concat;
    Cons(e, []);
    Cons(d, [e]);
    Cons(c, [d, e]);
    Cons(b, [c, d, e]);
    Cons(a, [b, c, d, e]);
    assert [e] + [] == [e] && e + [] == e;
    assert [d] + [e] == [d, e] && [c] + [d, e] == [c, d, e];
    assert [b] + [c, d, e] == [b, c, d, e] && [a] + [b, c, d, e] == [a, b, c, d, e];
  }

  /** Writes a valid lease piece by piece; it never leaves the fixed buffer. */
  method WriteLease(l: Lease, output: array<Byte>) returns (n: nat)
    requires LeaseOk(l) && output.Length == MAX_LEASE
    modifies output
    ensures |l.name| < 256 && n == |EncodeLease(l)| <= MAX_LEASE
    ensures output[..n] == EncodeLease(l) && output[n..] == old(output[n..])
  {
    LeaseFits(l);
    LeasePiecesJoin(l);
    n := WriteAll(LeasePieces(l), output);
  }

  /** Runs one call against the stored bytes; an error leaves the output buffer untouched. */
  method Transition(call: Call, previous: Option<Bytes>, caller: Bytes, height: nat, output: array<Byte>)
    returns (r: Result<Option<nat>, RegistryError>)
    requires |caller| == 32 && ActionSized(call.action) && output.Length == MAX_LEASE
    modifies output
    ensures var next := Next(call, previous, caller, height);
            match next
            case Err(e) => r == Err(e) && output[..] == old(output[..])
            case Ok(None) => r == Ok(None) && output[..] == old(output[..])
            case Ok(Some(lease)) => LeaseOk(lease) && r.Ok? && r.value.Some? && r.value.value <= MAX_LEASE
                                    && output[..r.value.value] == EncodeLease(lease)
  {
    hide LeaseOk;
    hide EncodeLease;
    hide ParseLease;
    var valid := ValidateName(call.name);
    if valid.Err? {
      return Err(valid.error);
    }
    if IsZero(caller) || height == 0 {
      return Err(Owner);
    }
    var stored: Option<Lease> := None;
    if previous.Some? {
      var decoded := ParseLease(previous.value);
      if decoded.Err? {
        return Err(decoded.error);
      }
      stored := Some(decoded.value);
    }
    var live := if stored.Some? && height < stored.value.expires then stored else None;
    var lease;
    if call.action.Register? {
      if live.Some? {
        return Err(Occupied);
      }
      if !RecordOk(call.action.record) {
        return Err(Encoding);
      }
      var expires := Expiry(height, call.action.duration);
      if expires.Err? {
        return Err(expires.error);
      }
      lease := Lease(call.name, caller, height, expires.value, call.action.record);
    } else {
      if live.None? || live.value.name != call.name {
        return Err(Expired);
      }
      lease := live.value;
      if lease.owner != caller {
        return Err(Owner);
      }
      match call.action
      case Update(record) =>
        if !RecordOk(record) {
          return Err(Encoding);
        }
        lease := lease.(record := record);
      case Renew(duration) =>
        var expires := Expiry(lease.expires, duration);
        if expires.Err? {
          return Err(expires.error);
        }
        if expires.value - height > MAX_DURATION {
          return Err(Duration);
        }
        lease := lease.(expires := expires.value);
      case Transfer(owner) =>
        if IsZero(owner) {
          return Err(Owner);
        }
        lease := lease.(owner := owner);
      case Release =>
        return Ok(None);
    }
    assert Next(call, previous, caller, height) == Ok(Some(lease));
    NextIsValid(call, previous, caller, height);
    var n := WriteLease(lease, output);
    return Ok(Some(n));
  }
}
