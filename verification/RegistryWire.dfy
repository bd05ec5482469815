/** The registry's shrinking reader and its call encoder, proved against the byte layouts. */
module RegistryWire {

  import opened Wrappers
  import opened Codec
  import opened Registry

  class Reader {
    var rest: Bytes

    constructor (bytes: Bytes)
      ensures rest == bytes
    {
      rest := bytes;
    }

    method ReadExact(n: nat) returns (r: Result<Bytes, RegistryError>)
      modifies this
      ensures Moved(Take(old(rest), n), r, rest)
    {
      if |rest| < n {
        return Err(Encoding);
      }
      r := Ok(rest[..n]);
      rest := rest[n..];
    }

    method ReadNumber(n: nat) returns (r: Result<nat, RegistryError>)
      modifies this
      ensures Moved(TakeNumber(old(rest), n), r, rest)
    {
      var raw := ReadExact(n);
      return if raw.Err? then Err(raw.error) else Ok(FromLittle(raw.value));
    }

    method ReadName() returns (r: Result<Bytes, RegistryError>)
      modifies this
      ensures Moved(TakeName(old(rest)), r, rest)
    {
      hide NameOk;
      var count := ReadExact(1);
      if count.Err? {
        return Err(count.error);
      }
      var name := ReadExact(count.value[0]);
      if name.Err? {
        return Err(name.error);
      }
      var valid := ValidateName(name.value);
      return if valid.Ok? then name else Err(valid.error);
    }

    method ReadRecord() returns (r: Result<Record, RegistryError>)
      modifies this
      ensures Moved(TakeRecord(old(rest)), r, rest)
    {
      hide RecordOk;
      hide FromLittle;
      var kind := ReadExact(1);
      if kind.Err? {
        return Err(kind.error);
      }
      var length := ReadNumber(2);
      if length.Err? {
        return Err(length.error);
      }
      var value := ReadExact(length.value);
      if value.Err? {
        return Err(value.error);
      }
      var record := Record(kind.value[0], value.value);
      return if RecordOk(record) then Ok(record) else Err(Encoding);
    }

    method ReadAction(tag: Byte) returns (r: Result<Action, RegistryError>)
      modifies this
      ensures Moved(TakeAction(tag, old(rest)), r, rest)
    {
      hide TakeNumber;
      hide TakeRecord;
      hide Take;
      if tag == 0 {
        var duration := ReadNumber(8);
        if duration.Err? {
          return Err(duration.error);
        }
        var record := ReadRecord();
        return if record.Err? then Err(record.error) else Ok(Register(duration.value, record.value));
      } else if tag == 1 {
        var record := ReadRecord();
        return if record.Err? then Err(record.error) else Ok(Update(record.value));
      } else if tag == 2 {
        var duration := ReadNumber(8);
        return if duration.Err? then Err(duration.error) else Ok(Renew(duration.value));
      } else if tag == 3 {
        var owner := ReadExact(32);
        return if owner.Err? then Err(owner.error) else Ok(Transfer(owner.value));
      } else if tag == 4 {
        return Ok(Release);
      }
      return Err(Encoding);
    }
  }

  /** Strict lease decoding with a shrinking reader. */
  method DecodeLease(bytes: Bytes) returns (r: Result<Lease, RegistryError>)
    ensures r == ParseLease(bytes)
  {
    hide Take;
    hide TakeName;
    hide TakeNumber;
    hide TakeRecord;
    hide IsZero;
    var reader := new Reader(bytes);
    var magic := reader.ReadExact(8);
    if magic.Err? {
      return Err(magic.error);
    }
    if magic.value != LEASE_MAGIC {
      return Err(Encoding);
    }
    var name := reader.ReadName();
    if name.Err? {
      return Err(name.error);
    }
    var owner := reader.ReadExact(32);
    if owner.Err? {
      return Err(owner.error);
    }
    var issued := reader.ReadNumber(8);
    if issued.Err? {
      return Err(issued.error);
    }
    var expires := reader.ReadNumber(8);
    if expires.Err? {
      return Err(expires.error);
    }
    var record := reader.ReadRecord();
    if record.Err? {
      return Err(record.error);
    }
    if reader.rest != [] {
      return Err(Encoding);
    }
    if IsZero(owner.value) || issued.value == 0 || expires.value <= issued.value {
      return Err(Encoding);
    }
    return Ok(Lease(name.value, owner.value, issued.value, expires.value, record.value));
  }

  /** Strict call decoding. */
  method DecodeCall(bytes: Bytes) returns (r: Result<Call, RegistryError>)
    ensures r == ParseCall(bytes)
  {
    hide TakeName;
    hide TakeAction;
    if |bytes| > MAX_CALL {
      return Err(Encoding);
    }
    var reader := new Reader(bytes);
    var magic := reader.ReadExact(8);
    if magic.Err? {
      return Err(magic.error);
    }
    if magic.value != CALL_MAGIC {
      return Err(Encoding);
    }
    var tag := reader.ReadExact(1);
    if tag.Err? {
      return Err(tag.error);
    }
    var name := reader.ReadName();
    if name.Err? {
      return Err(name.error);
    }
    var action := reader.ReadAction(tag.value[0]);
    if action.Err? {
      return Err(action.error);
    }
    if reader.rest != [] {
      return Err(Encoding);
    }
    return Ok(Call(name.value, action.value));
  }

  /** Encodes a call into its fixed buffer, refusing invalid names and records. */
  method WriteCall(call: Call, output: array<Byte>) returns (r: Result<nat, RegistryError>)
    requires output.Length == MAX_CALL && ActionSized(call.action)
    modifies output
    ensures r.Ok? <==> NameOk(call.name) && (RecordOf(call.action).Some? ==> RecordOk(RecordOf(call.action).value))
    ensures r.Ok? ==> |call.name| < 256 && r.value == |EncodeCall(call)| <= MAX_CALL
                      && output[..r.value] == EncodeCall(call)
    ensures r.Err? ==> r.error == if NameOk(call.name) then Encoding else Name
  {
    hide Little;
    var valid := ValidateName(call.name);
    if valid.Err? {
      return Err(valid.error);
    }
    assert |call.name| <= MAX_NAME;
    hide NameOk;
    var record := RecordOf(call.action);
    if record.Some? && !RecordOk(record.value) {
      return Err(Encoding);
    }
    assert record.Some? ==> |record.value.value| <= MAX_RECORD;
    hide RecordOk;
    var pieces := [CALL_MAGIC, [Tag(call.action)], EncodeName(call.name), EncodeAction(call.action)];
    CallPieces(call);
    var n := WriteAll(pieces, output);
    return Ok(n);
  }

  lemma CallPieces(c: Call)
    requires |c.name| < 256
    ensures Concat([CALL_MAGIC, [Tag(c.action)], EncodeName(c.name), EncodeAction(c.action)]) == EncodeCall(c)
  {
    hide EncodeAction;
    hide EncodeName;
    var (m, t, n, a) := (CALL_MAGIC, [Tag(c.action)], EncodeName(c.name), EncodeAction(c.action));
    FivePieces(m, t, n, a, []);
    assert [m, t, n, a, []] == [m, t, n, a] + [[]];
    DropEmpty([m, t, n, a]);
    assert m + (t + (n + (a + []))) == m + (t + (n + a));
  }

  lemma {:induction false} DropEmpty(pieces: seq<Bytes>)
    ensures Concat(pieces + [[]]) == Concat(pieces)
  {
    if pieces != [] {
      DropEmpty(pieces[1..]);
      assert (pieces + [[]])[1..] == pieces[1..] + [[]];
    }
  }
}
