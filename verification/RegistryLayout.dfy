/** Stored leases and calls as offsets into their bytes, and which names count as one. */
module RegistryLayout {

  import opened Wrappers
  import opened Codec
  import opened Layout
  import opened Registry

  // Names.

  /** The two bytes are the same letter, or a digit and the letter it resembles. */
  ghost predicate Alike(x: Byte, y: Byte) {
    || x == y
    || {x as char, y as char} in {{'0', 'o'}, {'1', 'l'}, {'3', 'e'}, {'5', 's'}, {'8', 'b'}}
  }

  /** Nobody can tell the two spellings apart. */
  ghost predicate Confusable(a: Bytes, b: Bytes) {
    |a| == |b| && forall i | 0 <= i < |a| :: Alike(a[i], b[i])
  }

  lemma AlikeIsSkeleton(x: Byte, y: Byte)
    ensures Alike(x, y) <==> SkeletonByte(x) == SkeletonByte(y)
  {
    var (c, d) := (x as char, y as char);
    assert {c, d} == {'0', 'o'} <==> (c == '0' && d == 'o') || (c == 'o' && d == '0');
    assert {c, d} == {'1', 'l'} <==> (c == '1' && d == 'l') || (c == 'l' && d == '1');
    assert {c, d} == {'3', 'e'} <==> (c == '3' && d == 'e') || (c == 'e' && d == '3');
    assert {c, d} == {'5', 's'} <==> (c == '5' && d == 's') || (c == 's' && d == '5');
    assert {c, d} == {'8', 'b'} <==> (c == '8' && d == 'b') || (c == 'b' && d == '8');
  }

  /** Two names share a storage key exactly when they are confusable. */
  lemma ConfusableIffOneKey(a: Bytes, b: Bytes)
    ensures Confusable(a, b) <==> KeyOf(a) == KeyOf(b)
  {
    hide SkeletonByte;
    hide Alike;
    forall i | 0 <= i < |a| && i < |b|
      ensures Alike(a[i], b[i]) <==> Skeleton(a)[i] == Skeleton(b)[i]
    {
      AlikeIsSkeleton(a[i], b[i]);
    }
    assert KeyOf(a)[7..] == Skeleton(a) && KeyOf(b)[7..] == Skeleton(b);
    if Confusable(a, b) {
      assert Skeleton(a) == Skeleton(b);
    }
  }

  /** Keys are the text "dns/v1/" followed by one byte per letter of the name. */
  lemma KeysAreTagged(name: Bytes)
    ensures KeyOf(name)[..7] == Ascii("dns/v1/") && |KeyOf(name)| == 7 + |name|
  {
    assert Ascii("dns/v1/") == KEY_PREFIX;
  }

  ghost predicate IsLetter(x: Byte) {
    'a' <= x as char <= 'z' || '0' <= x as char <= '9' || x as char == '-'
  }

  /** A name is 1 to 63 small letters, digits and inner hyphens, and not confusable with a reserved one. */
  lemma NameRules(name: Bytes)
    ensures NameOk(name) <==>
            && 1 <= |name| <= 63 && (forall i | 0 <= i < |name| :: IsLetter(name[i]))
            && name[0] as char != '-' && name[|name| - 1] as char != '-'
            && forall r | r in ["admin", "root", "system", "astrolune", "localhost", "daemon", "validator", "consensus",
                                "genesis", "null", "undefined", "www", "api", "rpc", "p2p"] ::
                 !Confusable(name, Ascii(r))
  {
    forall r | r in RESERVED
      ensures Confusable(name, Ascii(r)) <==> Skeleton(name) == Skeleton(Ascii(r))
    {
      ConfusableIffOneKey(name, Ascii(r));
      assert KeyOf(name)[7..] == Skeleton(name) && KeyOf(Ascii(r))[7..] == Skeleton(Ascii(r));
    }
    hide Skeleton;
    hide Confusable;
    forall i | 0 <= i < |name|
      ensures IsLetter(name[i]) <==> IsNameByte(name[i])
    {
    }
  }

  /** A record is an address of 32 bytes that are not all zero, or 1 to 256 printable characters. */
  lemma RecordRules(r: Record)
    ensures RecordOk(r) <==>
            || (r.kind == 0 && |r.value| == 32 && exists i :: 0 <= i < 32 && r.value[i] != 0)
            || (r.kind == 1 && 1 <= |r.value| <= 256
                && forall i | 0 <= i < |r.value| :: ' ' <= r.value[i] as char <= '~')
  {
  }

  // Readers at an offset.

  lemma Reads(b: Bytes, at: nat, n: nat)
    requires at <= |b|
    ensures Take(b[at..], n) == if at + n <= |b| then Ok((b[at..at + n], b[at + n..])) else Err(Encoding)
  {
    hide TakeExact;
    ReadsExact(b, at, n);
  }

  lemma ReadsShort(b: Bytes, at: nat)
    requires at <= |b|
    ensures TakeNumber(b[at..], 2) == if at + 2 <= |b| then Ok((U16At(b, at), b[at + 2..])) else Err(Encoding)
  {
    hide FromLittle;
    if at + 2 <= |b| {
      Split(b, at, 2);
      TwoBytes(b, at);
    }
  }

  lemma ReadsLong(b: Bytes, at: nat)
    requires at <= |b|
    ensures TakeNumber(b[at..], 8) == if at + 8 <= |b| then Ok((U64At(b, at), b[at + 8..])) else Err(Encoding)
  {
    hide TakeInt;
    hide U64At;
    ReadsInt(b, at);
  }

  /** One length byte and a well-formed name. */
  ghost predicate NameAt(b: Bytes, at: nat, name: Bytes) {
    && at + 1 + |name| <= |b| && b[at] == |name| && name == b[at + 1..at + 1 + |name|]
    && NameOk(name)
  }

  lemma NameIff(b: Bytes, at: nat, name: Bytes)
    requires at <= |b|
    ensures TakeName(b[at..]).Ok? && TakeName(b[at..]).value.0 == name <==> NameAt(b, at, name)
    ensures NameAt(b, at, name) ==> TakeName(b[at..]).value.1 == b[at + 1 + |name|..]
  {
    hide Take;
    hide NameOk;
    Reads(b, at, 1);
    if at < |b| {
      Reads(b, at + 1, b[at]);
    }
  }

  /** Kind, two length bytes and a well-formed value. */
  ghost predicate RecordAt(b: Bytes, at: nat, r: Record) {
    && at + 3 + |r.value| <= |b| && b[at] == r.kind && U16At(b, at + 1) == |r.value|
    && r.value == b[at + 3..at + 3 + |r.value|] && RecordOk(r)
  }

  lemma RecordIff(b: Bytes, at: nat, r: Record)
    requires at <= |b|
    ensures TakeRecord(b[at..]).Ok? && TakeRecord(b[at..]).value.0 == r <==> RecordAt(b, at, r)
    ensures RecordAt(b, at, r) ==> TakeRecord(b[at..]).value.1 == b[at + 3 + |r.value|..]
  {
    hide Take;
    hide TakeNumber;
    hide U16At;
    hide RecordOk;
    Reads(b, at, 1);
    if at < |b| {
      ReadsShort(b, at + 1);
    }
    if at + 3 <= |b| {
      Reads(b, at + 3, U16At(b, at + 1));
    }
  }

  // Leases.

  /** Tag "ALDNSL01", name, 32 bytes of owner, issue and expiry height in eight bytes each, and the record. */
  ghost predicate LeaseAt(b: Bytes, l: Lease) {
    && 8 <= |b| && b[..8] == Ascii("ALDNSL01") && NameAt(b, 8, l.name)
    && var at := 9 + |l.name|;
       && at + 48 <= |b| && b[at..at + 32] == l.owner && !IsZero(l.owner)
       && U64At(b, at + 32) == l.issued && U64At(b, at + 40) == l.expires && 0 < l.issued < l.expires
       && RecordAt(b, at + 48, l.record) && |b| == at + 51 + |l.record.value|
  }

  lemma LeaseTag()
    ensures Ascii("ALDNSL01") == LEASE_MAGIC && Ascii("ALDNSC01") == CALL_MAGIC
  {
  }

  /** Stored bytes stand for a lease exactly when its fields stand at these offsets. */
  lemma LeaseIff(b: Bytes, l: Lease)
    ensures ParseLease(b) == Ok(l) <==> LeaseAt(b, l)
  {
    hide Take;
    hide TakeNumber;
    hide TakeName;
    hide TakeRecord;
    hide NameAt;
    hide RecordAt;
    hide IsZero;
    hide U64At;
    hide Ascii;
    LeaseTag();
    assert b[0..] == b;
    Reads(b, 0, 8);
    if 8 <= |b| {
      assert b[0..8] == b[..8];
      if TakeName(b[8..]).Ok? {
        FieldsIff(b, TakeName(b[8..]).value.0, l);
      }
      NameIff(b, 8, l.name);
    }
  }

  lemma FieldsIff(b: Bytes, name: Bytes, l: Lease)
    requires 8 <= |b| && TakeName(b[8..]).Ok? && TakeName(b[8..]).value.0 == name
    ensures NameAt(b, 8, name) && 9 + |name| <= |b| && TakeName(b[8..]).value.1 == b[9 + |name|..]
    ensures var at := 9 + |name|;
            && Take(b[at..], 32) == (if at + 32 <= |b| then Ok((b[at..at + 32], b[at + 32..])) else Err(Encoding))
            && (at + 32 <= |b| ==>
                  TakeNumber(b[at + 32..], 8) ==
                    if at + 40 <= |b| then Ok((U64At(b, at + 32), b[at + 40..])) else Err(Encoding))
            && (at + 40 <= |b| ==>
                  TakeNumber(b[at + 40..], 8) ==
                    if at + 48 <= |b| then Ok((U64At(b, at + 40), b[at + 48..])) else Err(Encoding))
            && (at + 48 <= |b| && TakeRecord(b[at + 48..]).Ok? ==>
                  var r := TakeRecord(b[at + 48..]).value.0;
                  RecordAt(b, at + 48, r) && TakeRecord(b[at + 48..]).value.1 == b[at + 51 + |r.value|..]
                  && at + 51 + |r.value| <= |b|)
            && (at + 48 <= |b| ==>
                  (TakeRecord(b[at + 48..]).Ok? && TakeRecord(b[at + 48..]).value.0 == l.record <==>
                   RecordAt(b, at + 48, l.record)))
  {
    hide Take;
    hide TakeNumber;
    hide TakeName;
    hide TakeRecord;
    hide U64At;
    NameIff(b, 8, name);
    var at := 9 + |name|;
    Reads(b, at, 32);
    if at + 32 <= |b| {
      ReadsLong(b, at + 32);
    }
    if at + 40 <= |b| {
      ReadsLong(b, at + 40);
    }
    if at + 48 <= |b| {
      RecordIff(b, at + 48, l.record);
      if TakeRecord(b[at + 48..]).Ok? {
        RecordIff(b, at + 48, TakeRecord(b[at + 48..]).value.0);
      }
    }
  }

  // Calls.

  /** The action's own fields, from `at` to the end of the call. */
  ghost predicate ActionAt(b: Bytes, at: nat, tag: Byte, a: Action) {
    match a
    case Register(duration, record) =>
      && tag == 0 && at + 8 <= |b| && U64At(b, at) == duration
      && RecordAt(b, at + 8, record) && |b| == at + 11 + |record.value|
    case Update(record) => tag == 1 && RecordAt(b, at, record) && |b| == at + 3 + |record.value|
    case Renew(duration) => tag == 2 && |b| == at + 8 && U64At(b, at) == duration
    case Transfer(owner) => tag == 3 && |b| == at + 32 && owner == b[at..]
    case Release => tag == 4 && |b| == at
  }

  lemma ActionIff(b: Bytes, at: nat, tag: Byte, a: Action)
    requires at <= |b|
    ensures TakeAction(tag, b[at..]) == Ok((a, [])) <==> ActionAt(b, at, tag, a)
  {
    hide Take;
    hide TakeNumber;
    hide TakeRecord;
    hide RecordAt;
    hide U64At;
    ReadsLong(b, at);
    Reads(b, at, 32);
    if |b| == at + 32 {
      assert b[at..at + 32] == b[at..];
    }
    assert b[at..] == [] <==> |b| == at;
    assert at + 8 <= |b| ==> (b[at + 8..] == [] <==> |b| == at + 8);
    assert at + 32 <= |b| ==> (b[at + 32..] == [] <==> |b| == at + 32);
    if tag == 0 && at + 8 <= |b| {
      RecordEnds(b, at + 8);
      if a.Register? {
        RecordIff(b, at + 8, a.record);
      }
    } else if tag == 1 {
      RecordEnds(b, at);
      if a.Update? {
        RecordIff(b, at, a.record);
      }
    } else if tag == 2 {
      var read := TakeNumber(b[at..], 8);
      assert read.Ok? ==> TakeAction(tag, b[at..]) == Ok((Renew(read.value.0), read.value.1));
    } else if tag == 3 {
      var read := Take(b[at..], 32);
      assert read.Ok? ==> TakeAction(tag, b[at..]) == Ok((Transfer(read.value.0), read.value.1));
    }
  }

  lemma RecordEnds(b: Bytes, at: nat)
    requires at <= |b|
    ensures TakeRecord(b[at..]).Ok? ==>
              var r := TakeRecord(b[at..]).value.0;
              RecordAt(b, at, r) && at + 3 + |r.value| <= |b| && TakeRecord(b[at..]).value.1 == b[at + 3 + |r.value|..]
  {
    hide TakeRecord;
    if TakeRecord(b[at..]).Ok? {
      RecordIff(b, at, TakeRecord(b[at..]).value.0);
    }
  }

  /** Tag "ALDNSC01", the action's number, the name, and the action's fields; at most 340 bytes. */
  ghost predicate CallAt(b: Bytes, c: Call) {
    && 9 <= |b| <= 340 && b[..8] == Ascii("ALDNSC01")
    && NameAt(b, 9, c.name) && ActionAt(b, 10 + |c.name|, b[8], c.action)
  }

  lemma CallIff(b: Bytes, c: Call)
    ensures ParseCall(b) == Ok(c) <==> CallAt(b, c)
  {
    hide Take;
    hide TakeName;
    hide TakeAction;
    hide NameAt;
    hide ActionAt;
    hide Ascii;
    LeaseTag();
    assert b[0..] == b;
    Reads(b, 0, 8);
    if 8 <= |b| {
      assert b[0..8] == b[..8];
      Reads(b, 8, 1);
      assert 9 <= |b| ==> b[8..9] == [b[8]];
    }
    if 9 <= |b| {
      NameIff(b, 9, c.name);
      if TakeName(b[9..]).Ok? {
        var name := TakeName(b[9..]).value.0;
        NameIff(b, 9, name);
        NameEnds(b, 9, name);
        ActionIff(b, 10 + |name|, b[8], c.action);
        var action := TakeAction(b[8], b[10 + |name|..]);
        if |b| <= 340 && b[..8] == CALL_MAGIC {
          assert ParseCall(b) == (if action.Err? then Err(action.error) else if action.value.1 != [] then Err(Encoding)
                                  else Ok(Call(name, action.value.0)));
        }
      }
    }
  }

  lemma NameEnds(b: Bytes, at: nat, name: Bytes)
    requires NameAt(b, at, name)
    ensures at + 1 + |name| <= |b|
  {
  }

  /** A whole name field stands at `at`, but what it spells is not a name. */
  ghost predicate BadNameAt(b: Bytes, at: nat) {
    at < |b| && at + 1 + b[at] <= |b| && !NameOk(b[at + 1..at + 1 + b[at]])
  }

  lemma NameErrors(b: Bytes, at: nat)
    requires at <= |b|
    ensures TakeName(b[at..]).Err? ==> TakeName(b[at..]).error == if BadNameAt(b, at) then Name else Encoding
    ensures BadNameAt(b, at) ==> TakeName(b[at..]).Err?
  {
    hide Take;
    hide NameOk;
    Reads(b, at, 1);
    if at < |b| {
      Reads(b, at + 1, b[at]);
    }
  }

  /** A refused lease is refused for its name only if the tag is right and the name is there to be read. */
  lemma LeaseErrors(b: Bytes)
    requires ParseLease(b).Err?
    ensures ParseLease(b).error ==
            if 8 <= |b| && b[..8] == Ascii("ALDNSL01") && BadNameAt(b, 8) then Name else Encoding
  {
    hide NameOk;
    hide RecordOk;
    hide IsZero;
    hide Ascii;
    hide FromLittle;
    LeaseTag();
    assert b[0..] == b;
    Reads(b, 0, 8);
    if 8 <= |b| {
      assert b[0..8] == b[..8];
      NameErrors(b, 8);
    }
  }

  lemma CallErrors(b: Bytes)
    requires ParseCall(b).Err?
    ensures ParseCall(b).error ==
            if 9 <= |b| <= 340 && b[..8] == Ascii("ALDNSC01") && BadNameAt(b, 9) then Name else Encoding
  {
    hide NameOk;
    hide RecordOk;
    hide Ascii;
    hide FromLittle;
    LeaseTag();
    assert b[0..] == b;
    Reads(b, 0, 8);
    if 8 <= |b| {
      assert b[0..8] == b[..8];
      Reads(b, 8, 1);
    }
    if 9 <= |b| {
      NameErrors(b, 9);
    }
  }
}
