/** The TLV codec of src/app_tlv.c: [FIELD_ID(1), LEN(1), VALUE(LEN)]. */
module Tlv {
  import opened Bytes

  datatype Field = Field(id: byte, value: seq<byte>)

  predicate Fits(f: Field) { |f.value| < 0x100 }

  predicate AllFit(fs: seq<Field>) { forall f <- fs :: Fits(f) }

  // ---- The format ----

  function Encode(f: Field): (s: seq<byte>)
    requires Fits(f)
    ensures |s| == 2 + |f.value|
  {
    [f.id, |f.value| as byte] + f.value
  }

  function EncodeAll(fs: seq<Field>): seq<byte>
    requires AllFit(fs)
  {
    if fs == [] then [] else Encode(fs[0]) + EncodeAll(fs[1..])
  }

  /** The first field of `data`, when there is a whole one. */
  function First(data: seq<byte>): (r: Option<Field>)
    ensures r.Some? ==> Fits(r.value) && |Encode(r.value)| <= |data| && data[..|Encode(r.value)|] == Encode(r.value)
  {
    if |data| < 2 || 2 + data[1] as int > |data| then None
    else Some(Field(data[0], data[2..2 + data[1] as int]))
  }

  /** All the fields of `data`, when it is nothing but whole fields. */
  function DecodeAll(data: seq<byte>): Option<seq<Field>>
  {
    if data == [] then Some([])
    else
      match First(data)
      case None => None
      case Some(f) =>
        match DecodeAll(data[2 + |f.value|..])
        case None => None
        case Some(fs) => Some([f] + fs)
  }

  lemma {:induction false} EncodeAllAppend(fs: seq<Field>, gs: seq<Field>)
    requires AllFit(fs) && AllFit(gs)
    ensures AllFit(fs + gs) && EncodeAll(fs + gs) == EncodeAll(fs) + EncodeAll(gs)
  {
    if fs == [] {
      assert fs + gs == gs;
    } else {
      EncodeAllAppend(fs[1..], gs);
      assert (fs + gs)[1..] == fs[1..] + gs && (fs + gs)[0] == fs[0];
    }
  }

  lemma DecodeCons(f: Field, tail: seq<byte>)
    requires Fits(f)
    ensures DecodeAll(Encode(f) + tail) ==
            match DecodeAll(tail)
            case None => None
            case Some(gs) => Some([f] + gs)
  {
    var data := Encode(f) + tail;
    assert data[2..2 + |f.value|] == f.value;
    assert First(data) == Some(f);
    assert data[2 + |f.value|..] == tail;
  }

  /** Decoding undoes encoding, whatever follows. */
  lemma {:induction false} DecodeAfterEncode(fs: seq<Field>, rest: seq<byte>)
    requires AllFit(fs)
    ensures DecodeAll(EncodeAll(fs) + rest) ==
            match DecodeAll(rest)
            case None => None
            case Some(gs) => Some(fs + gs)
  {
    hide DecodeAll, Encode;
    if fs == [] {
      assert EncodeAll(fs) + rest == rest;
      if DecodeAll(rest).Some? {
        assert fs + DecodeAll(rest).value == DecodeAll(rest).value;
      }
    } else {
      var tail := EncodeAll(fs[1..]) + rest;
      assert EncodeAll(fs) + rest == Encode(fs[0]) + tail;
      DecodeCons(fs[0], tail);
      DecodeAfterEncode(fs[1..], rest);
      if DecodeAll(rest).Some? {
        assert [fs[0]] + (fs[1..] + DecodeAll(rest).value) == fs + DecodeAll(rest).value;
      }
    }
  }

  lemma RoundTrip(fs: seq<Field>)
    requires AllFit(fs)
    ensures DecodeAll(EncodeAll(fs)) == Some(fs)
  {
    DecodeAfterEncode(fs, []);
    assert EncodeAll(fs) + [] == EncodeAll(fs);
    assert fs + [] == fs;
  }

  /** Encoding undoes decoding, so a byte string has at most one decoding. */
  lemma {:induction false} EncodeAfterDecode(data: seq<byte>)
    ensures DecodeAll(data).Some? ==>
              var fs := DecodeAll(data).value; AllFit(fs) && EncodeAll(fs) == data && 2 * |fs| <= |data|
  {
    if data != [] && First(data).Some? {
      var f := First(data).value;
      EncodeAfterDecode(data[2 + |f.value|..]);
    }
  }

  /** `data` consists of exactly `n` whole fields. */
  ghost predicate IsFieldList(data: seq<byte>, n: nat)
  {
    exists fs :: AllFit(fs) && |fs| == n && EncodeAll(fs) == data
  }

  lemma DecodesIffFieldList(data: seq<byte>, n: nat)
    ensures IsFieldList(data, n) <==> DecodeAll(data).Some? && |DecodeAll(data).value| == n
  {
    EncodeAfterDecode(data);
    if IsFieldList(data, n) {
      var fs :| AllFit(fs) && |fs| == n && EncodeAll(fs) == data;
      RoundTrip(fs);
    }
  }

  // ---- The code ----

  /** tlv_encode_field: the returned length is a uint8_t, exact up to 253 value bytes. */
  method EncodeField(buf: array<byte>, at: nat, id: byte, value: seq<byte>) returns (n: byte)
    requires |value| < 0x100 && at + 2 + |value| <= buf.Length
    modifies buf
    ensures buf[..] == old(buf[..at]) + Encode(Field(id, value)) + old(buf[at + 2 + |value|..])
    ensures n as int == |Encode(Field(id, value))| % 0x100
    ensures n as int == |Encode(Field(id, value))| <==> |value| <= 253
  {
    ghost var was, head := buf[..], [id, |value| as byte];
    buf[at] := id;
    buf[at + 1] := |value| as byte;
    assert buf[..] == was[..at] + head + was[at + 2..];
    if |value| > 0 {
      Copy(buf, at + 2, value);
    }
    Splice(was, at, head, value);
    n := ((2 + |value|) % 0x100) as byte;
  }

  /** tlv_decode_field: 0 and the field at `offset`, or -1 without a header, or -2 without the whole value. */
  method DecodeField(data: seq<byte>, offset: u16) returns (st: int, next: u16, id: byte, value: seq<byte>)
    requires |data| < 0x1_0000 && offset <= |data|
    ensures st == 0 <==> First(data[offset..]).Some?
    ensures st == 0 ==> First(data[offset..]) == Some(Field(id, value)) && next == offset + 2 + |value| <= |data|
    ensures st == -1 <==> offset + 2 > |data|
    ensures st == -1 ==> next == offset
    ensures st == -2 ==> next == offset + 2 && id == data[offset]
    ensures st == 0 || st == -1 || st == -2
  {
    next, id, value := offset, 0, [];
    if offset + 2 > |data| {
      return -1, next, id, value;
    }
    id := data[offset];
    var len := data[offset + 1];
    next := next + 2;
    if next + len as int > |data| {
      return -2, next, id, value;
    }
    value := data[next..next + len as int];
    next := next + len as int;
    st := 0;
    assert data[offset..][2..2 + len as int] == value;
  }

  /**
   * tlv_validate_payload: 0 for a list of whole fields whose number, counted in a uint8_t, is the
   * declared one, else -1.
   */
  method ValidatePayload(data: seq<byte>, fieldCount: byte) returns (st: int)
    requires |data| < 0x1_0000
    ensures st == 0 || st == -1
    ensures st == 0 <==> DecodeAll(data).Some? && |DecodeAll(data).value| % 0x100 == fieldCount as int
  {
    hide First;
    var offset: u16 := 0;
    var actualCount: byte := 0;
    ghost var done: seq<Field> := [];
    while offset < |data|
      invariant 0 <= offset <= |data|
      invariant actualCount as int == |done| % 0x100
      invariant AllFit(done) && EncodeAll(done) == data[..offset]
    {
      var r, next, id, value := DecodeField(data, offset);
      Continue(data, done, offset);
      if r != 0 {
        return -1;
      }
      EncodeAllAppend(done, [Field(id, value)]);
      assert EncodeAll([Field(id, value)]) == Encode(Field(id, value)) == data[offset..next];
      assert data[..next] == data[..offset] + data[offset..next];
      done := done + [Field(id, value)];
      offset := next;
      actualCount := ((actualCount as int + 1) % 0x100) as byte;
    }
    assert data[..offset] == data;
    RoundTrip(done);
    st := if actualCount != fieldCount then -1 else 0;
  }

  /** Decoding goes on from where a decoded prefix ends. */
  lemma Continue(data: seq<byte>, done: seq<Field>, offset: nat)
    requires offset < |data| && AllFit(done) && EncodeAll(done) == data[..offset]
    ensures DecodeAll(data).Some? ==> First(data[offset..]).Some?
  {
    DecodeAfterEncode(done, data[offset..]);
    assert data == data[..offset] + data[offset..];
  }

  /** For payloads of at most 511 bytes the count is exact: accepted means exactly `fieldCount` fields. */
  lemma AcceptanceIsExact(data: seq<byte>, fieldCount: byte)
    requires |data| <= 511
    ensures DecodeAll(data).Some? && |DecodeAll(data).value| % 0x100 == fieldCount as int <==>
            IsFieldList(data, fieldCount as int)
  {
    hide DecodeAll, EncodeAll, IsFieldList;
    EncodeAfterDecode(data);
    DecodesIffFieldList(data, fieldCount as int);
    if DecodeAll(data).Some? {
      assert |DecodeAll(data).value| < 0x100;
    }
  }

  /** At 512 bytes it no longer is: 256 empty fields are accepted as a list of none. */
  lemma CountWrapsAt256()
    ensures exists data: seq<byte> :: |data| == 512 && DecodeAll(data).Some?
              && |DecodeAll(data).value| % 0x100 == 0 && !IsFieldList(data, 0)
  {
    var fs := seq(256, i => Field(0, []));
    EmptyFields(fs);
    RoundTrip(fs);
    DecodesIffFieldList(EncodeAll(fs), 0);
  }

  lemma {:induction false} EmptyFields(fs: seq<Field>)
    requires forall f <- fs :: f.value == []
    ensures AllFit(fs) && |EncodeAll(fs)| == 2 * |fs|
  {
    if fs != [] {
      EmptyFields(fs[1..]);
    }
  }

  lemma {:induction false} FieldAt(fs: seq<Field>, i: nat)
    requires AllFit(fs) && i < |fs|
    ensures AllFit(fs[..i]) && |EncodeAll(fs[..i])| <= |EncodeAll(fs)|
    ensures First(EncodeAll(fs)[|EncodeAll(fs[..i])|..]) == Some(fs[i])
    ensures |EncodeAll(fs[..i + 1])| == |EncodeAll(fs[..i])| + 2 + |fs[i].value|
  {
    assert fs == fs[..i] + fs[i..] && fs[..i + 1] == fs[..i] + [fs[i]];
    EncodeAllAppend(fs[..i], fs[i..]);
    EncodeAllAppend(fs[..i], [fs[i]]);
    var rest := EncodeAll(fs[i..]);
    assert EncodeAll(fs)[|EncodeAll(fs[..i])|..] == rest;
    assert rest == Encode(fs[i]) + EncodeAll(fs[i..][1..]);
    assert rest[2..2 + |fs[i].value|] == fs[i].value;
    assert EncodeAll([fs[i]]) == Encode(fs[i]) + EncodeAll([]);
  }
}
