/** The decoder of read replies in src/shell_cmd.c. */
module ShellClient {
  import opened Bytes
  import opened Wire
  import opened Tlv
  import opened Fields
  import opened Protocol
  import opened ProtocolTheorems

  /** The value of the first field `id` in a list. */
  function Lookup(fs: seq<Field>, id: byte): Option<seq<byte>>
  {
    if fs == [] then None
    else if fs[0].id == id then Some(fs[0].value)
    else Lookup(fs[1..], id)
  }

  /** tlv_find_field scans at most `count` fields and gives up on a damaged one. */
  function Scan(data: seq<byte>, count: nat, id: byte): Option<seq<byte>>
    decreases count
  {
    if count == 0 then None
    else
      match First(data)
      case None => None
      case Some(f) => if f.id == id then Some(f.value) else Scan(data[2 + |f.value|..], count - 1, id)
  }

  method FindField(resp: seq<byte>, id: byte) returns (value: Option<seq<byte>>)
    requires |resp| < 0x1_0000
    ensures value == if |resp| < 3 then None else Scan(resp[3..], resp[2] as nat, id)
  {
    hide First;
    if |resp| < 3 {
      return None;
    }
    var count := resp[2];
    var off: u16 := 3;
    var i := 0;
    while i < count as int
      invariant 0 <= i <= count as int && 3 <= off <= |resp|
      invariant Scan(resp[3..], count as nat, id) == Scan(resp[off..], count as nat - i, id)
    {
      var r, next, fid, v := DecodeField(resp, off);
      if r != 0 {
        return None;
      }
      if fid == id {
        return Some(v);
      }
      assert resp[off..][2 + |v|..] == resp[next..];
      off := next;
      i := i + 1;
    }
    value := None;
  }

  /** On a whole list the scan is a look-up. */
  lemma {:induction false} ScanIsLookup(fs: seq<Field>, id: byte)
    requires AllFit(fs)
    ensures Scan(EncodeAll(fs), |fs|, id) == Lookup(fs, id)
  {
    if fs != [] {
      FieldAt(fs, 0);
      assert fs[..0] == [] && EncodeAll(fs)[0..] == EncodeAll(fs);
      assert EncodeAll(fs)[2 + |fs[0].value|..] == EncodeAll(fs[1..]);
      ScanIsLookup(fs[1..], id);
    }
  }

  lemma {:induction false} LookupOfValues(r: Registry, ids: seq<byte>, id: byte)
    ensures Lookup(Values(r, ids), id) == if id in ids then Some(Get(r, id)) else None
  {
    hide Get;
    if ids != [] {
      assert Values(r, ids)[1..] == Values(r, ids[1..]);
      assert id in ids <==> id == ids[0] || id in ids[1..];
      LookupOfValues(r, ids[1..], id);
    }
  }

  /** In any successful read reply the shell finds exactly the fields asked for, with the registry's bytes. */
  lemma FoundInReply(r: Registry, req: seq<byte>, respMax: nat, id: byte)
    requires |ReadReply(r, req, respMax)| >= 2 && ReadReply(r, req, respMax)[1] == OK
    ensures AsksProperly(req)
    ensures var reply := ReadReply(r, req, respMax);
            |reply| >= 3 && Scan(reply[3..], reply[2] as nat, id) ==
            if id in Requested(req) then Some(Get(r, id)) else None
  {
    hide Get, EncodeAll, DecodeAll, ReadReply, Scan, Lookup, ReplySize, Requested;
    ReadReplyDecodesBack(r, req, respMax);
    var fs := Values(r, Requested(req));
    var reply := ReadReply(r, req, respMax);
    EncodeAfterDecode(reply[3..]);
    ScanIsLookup(fs, id);
    LookupOfValues(r, Requested(req), id);
  }

  /** Reading everything: the eighteen readable fields are found and nothing else is. */
  lemma FoundInReadAll(r: Registry, req: seq<byte>, id: byte)
    requires |req| >= 6 && req[5] == 0
    ensures var reply := ReadReply(r, req, 256);
            |reply| == 90 && Scan(reply[3..], reply[2] as nat, id) == if IsReadable(id) then Some(Get(r, id)) else None
  {
    hide Get, EncodeAll, ReadReply, Scan, Lookup;
    ReadAllIsNinetyBytes(r, req, 256);
    var reply := ReadReply(r, req, 256);
    assert reply[2] == reply[..3][2] == 18;
    ScanIsLookup(Values(r, ALL_READABLE), id);
    LookupOfValues(r, ALL_READABLE, id);
    ListedIffReadable(id);
  }

  lemma ListedIffReadable(id: byte)
    ensures id in ALL_READABLE <==> IsReadable(id)
  {
  }

  // ---- Numbers ----

  function GetS16(v: seq<byte>): i16
    requires |v| == 2
  {
    var n := Get16Be(v);
    if n < 0x8000 then n else n - 0x1_0000
  }

  function GetU16(v: seq<byte>): u16
    requires |v| == 2
  {
    Get16Be(v)
  }

  function GetS32(v: seq<byte>): i32
    requires |v| == 4
  {
    ToI32(Get32Be(v))
  }

  /** The shell's numbers are the registry's, negative ones included. */
  lemma NumbersReadBack(r: Registry)
    ensures GetS16(Get(r, TEMPERATURE)) == r.temperature && GetS16(Get(r, ALTITUDE)) == r.altitude
    ensures GetU16(Get(r, DISTANCE)) == r.distance && GetU16(Get(r, UPDATE_INTERVAL)) == r.updateInterval
    ensures GetS32(Get(r, LATITUDE)) == r.latitude && GetS32(Get(r, LONGITUDE)) == r.longitude
  {
    hide Put32Be, Get32Be;
    Put32IsBigEndian(FromI32(r.latitude));
    Put32IsBigEndian(FromI32(r.longitude));
  }
}
