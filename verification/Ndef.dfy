/** Parsing the command record and encoding the response record: src/app_config.c. */
module Ndef {
  import opened Bytes
  import opened Wire

  const TYPE_CMD: seq<byte> :=   // "ulpinternal:cmd"
    [0x75, 0x6C, 0x70, 0x69, 0x6E, 0x74, 0x65, 0x72, 0x6E, 0x61, 0x6C, 0x3A, 0x63, 0x6D, 0x64]
  const TYPE_INFO: seq<byte> :=  // "ulpinternal:info"
    [0x75, 0x6C, 0x70, 0x69, 0x6E, 0x74, 0x65, 0x72, 0x6E, 0x61, 0x6C, 0x3A, 0x69, 0x6E, 0x66, 0x6F]

  // ---- Section 3.2 of the NFC Forum NDEF 1.0 specification: record layout ----

  /** One record; `begin`, `end` and `chunk` are its MB, ME and CF flags. */
  datatype Record = Record(
    begin: bool, end: bool, chunk: bool, short: bool, tnf: byte,
    typ: seq<byte>, id: Option<seq<byte>>, payload: seq<byte>
  )

  const TNF_EXTERNAL: byte := 4

  predicate WellFormed(r: Record)
  {
    && r.tnf < 8 && |r.typ| < 0x100 && (r.id.Some? ==> |r.id.value| < 0x100)
    && |r.payload| < (if r.short then 0x100 else 0x1_0000_0000)
  }

  function Bit(b: bool, v: byte): byte
    requires v <= 0x80
  {
    if b then v else 0
  }

  /** MB, ME, CF, SR, IL and TNF, from the most significant bit down. */
  function Flags(r: Record): byte
    requires r.tnf < 8
  {
    Bit(r.begin, 0x80) + Bit(r.end, 0x40) + Bit(r.chunk, 0x20) + Bit(r.short, 0x10) + Bit(r.id.Some?, 0x08) + r.tnf
  }

  function IdOf(r: Record): seq<byte> { if r.id.Some? then r.id.value else [] }

  /** Flags, TYPE LENGTH, PAYLOAD LENGTH, ID LENGTH. */
  function Header(r: Record): (h: seq<byte>)
    requires WellFormed(r)
    ensures |h| == (if r.short then 3 else 6) + (if r.id.Some? then 1 else 0)
  {
    [Flags(r), |r.typ| as byte]
    + (if r.short then [|r.payload| as byte] else Put32Be(|r.payload| as word))
    + (if r.id.Some? then [|r.id.value| as byte] else [])
  }

  /** Then TYPE, ID and PAYLOAD, in this order. */
  function Layout(r: Record): seq<byte>
    requires WellFormed(r)
  {
    Header(r) + r.typ + IdOf(r) + r.payload
  }

  // ---- ndef_parse_ext_cmd ----

  /** The outcome of parsing: no command, or a command with the place of its payload. */
  datatype Parsed = NoCommand | Command(start: nat, len: nat)

  const REACH: nat := 0x1_0200

  /** The bytes in memory behind the message, as far as the code can look when it leaves the message. */
  type Following = s: seq<byte> | |s| == REACH witness Zeros(REACH)

  predicate HasBit(flags: byte, v: byte)
    requires v > 0
  {
    flags as int / v as int % 2 == 1
  }

  /** The header length up to the payload length field, and the payload length. */
  function LengthFields(msg: seq<byte>): (r: Option<(nat, nat)>)
    requires |msg| >= 3
    ensures r.Some? ==> 3 <= r.value.0 <= |msg| && r.value.0 <= 6 && r.value.1 < 0x1_0000_0000
  {
    if HasBit(msg[0], 0x10) then Some((3, msg[2] as nat))
    else if |msg| < 6 then None
    else Some((6, Get32Be(msg[2..6]) as nat))
  }

  /** Where the code takes the type to begin: after the ID length and as many bytes as it says. */
  function HeaderLength(msg: seq<byte>, h: nat): (r: Option<nat>)
    requires 3 <= |msg| && 3 <= h <= 6
    ensures r.Some? ==> 3 <= r.value <= 262
  {
    if !HasBit(msg[0], 0x08) then Some(h)
    else if |msg| < h + 1 then None
    else Some(h + 1 + msg[h] as nat)
  }

  /** The lengths are added in uint32_t, so the type and the first payload byte may lie behind the message. */
  function Parse(msg: seq<byte>, after: Following): (r: Parsed)
    ensures r.Command? ==> 18 <= r.start <= 277 && 1 <= r.len < 0x1_0000_0000
  {
    if |msg| < 3 || msg[0] % 8 != TNF_EXTERNAL then NoCommand
    else
      match LengthFields(msg)
      case None => NoCommand
      case Some((h, payloadLen)) =>
        match HeaderLength(msg, h)
        case None => NoCommand
        case Some(headerLen) =>
          var typeLen := msg[1] as nat;
          if |msg| < (headerLen + typeLen + payloadLen) % 0x1_0000_0000 then NoCommand
          else if typeLen != 15 then NoCommand
          else if (msg + after)[headerLen..headerLen + 15] != TYPE_CMD then NoCommand
          else if payloadLen < 1 then NoCommand
          else Command(headerLen + 15, payloadLen)
  }

  method ParseExtCmd(msg: seq<byte>, after: Following) returns (found: bool, cmd: byte, start: nat, payloadLen: nat)
    requires |msg| < 0x1_0000_0000
    ensures found <==> Parse(msg, after).Command?
    ensures found ==> Parse(msg, after) == Command(start, payloadLen) && cmd == (msg + after)[start]
  {
    hide Get32Be;
    found, cmd, start, payloadLen := false, 0, 0, 0;
    if |msg| < 3 {
      return;
    }
    var flags := msg[0];
    var tnf := flags % 8;
    if tnf != TNF_EXTERNAL {
      return;
    }
    var typeLen := msg[1] as int;
    var headerLen;
    if HasBit(flags, 0x10) {
      payloadLen := msg[2] as int;
      headerLen := 3;
    } else {
      if |msg| < 6 {
        return;
      }
      payloadLen := Get32Be(msg[2..6]) as int;
      headerLen := 6;
    }
    if HasBit(flags, 0x08) {
      if |msg| < headerLen + 1 {
        return;
      }
      var idLen := msg[headerLen] as int;
      headerLen := headerLen + 1 + idLen;
    }
    if |msg| < (headerLen + typeLen + payloadLen) % 0x1_0000_0000 {
      return;
    }
    if typeLen != 15 {
      return;
    }
    if (msg + after)[headerLen..headerLen + 15] != TYPE_CMD {
      return;
    }
    if payloadLen < 1 {
      return;
    }
    start := headerLen + typeLen;
    cmd := (msg + after)[start];
    found := true;
  }

  /** The two record types, as text. */
  lemma TypesAre()
    ensures TYPE_CMD == Ascii("ulpinternal:cmd") && TYPE_INFO == Ascii("ulpinternal:info")
  {
  }

  /** What is accepted is an external record of the command type, with a payload of the declared length. */
  lemma AcceptedIsCommand(msg: seq<byte>, after: Following)
    requires Parse(msg, after).Command?
    ensures var p := Parse(msg, after); var h := if msg[0] as nat / 16 % 2 == 1 then 3 else 6;
            && |msg| >= h && msg[0] % 8 == 4 && msg[1] == 15
            && (msg + after)[p.start - 15..p.start] == Ascii("ulpinternal:cmd")
            && p.len == (if h == 3 then msg[2] as nat else FromBigEndian(msg[2..6]))
            && (if msg[0] as nat / 8 % 2 == 1 then |msg| > h && p.start == h + 1 + msg[h] as nat + 15
                else p.start == h + 15)
            && (p.start + p.len) % 0x1_0000_0000 <= |msg|
  {
    hide FromBigEndian, Get32Be, TYPE_CMD;
    TypesAre();
    if |msg| >= 6 {
      Get32IsBigEndian(msg[2..6]);
    }
  }

  /** In a message of at least 278 bytes header, type and first payload byte always lie inside. */
  lemma NeverBeyond(msg: seq<byte>, after: Following, after': Following)
    requires |msg| >= 278
    ensures Parse(msg, after) == Parse(msg, after')
  {
    hide LengthFields, TYPE_CMD;
    SameWindow(msg, after, after');
  }

  lemma SameWindow(msg: seq<byte>, after: Following, after': Following)
    ensures forall i, j :: 0 <= i <= j <= |msg| ==> (msg + after)[i..j] == (msg + after')[i..j]
  {
  }

  /** The 32-bit sum as computed, and as meant. */
  function LengthSum(msg: seq<byte>): nat
    requires |msg| >= 3
  {
    match LengthFields(msg)
    case None => 0
    case Some((h, payloadLen)) =>
      match HeaderLength(msg, h)
      case None => 0
      case Some(headerLen) => headerLen + msg[1] as nat + payloadLen
  }

  /**
   * An accepted payload lies inside the message exactly when the sum of the lengths does not wrap, and
   * then what is behind the message has no influence.
   */
  lemma PayloadInsideIff(msg: seq<byte>, after: Following)
    requires 3 <= |msg| < 0x1_0000_0000
    ensures var p := Parse(msg, after);
            p.Command? ==> (p.start + p.len <= |msg| <==> LengthSum(msg) < 0x1_0000_0000)
    ensures LengthSum(msg) < 0x1_0000_0000 ==> forall after' :: Parse(msg, after') == Parse(msg, after)
  {
    hide Get32Be, TYPE_CMD;
    forall after': Following | LengthSum(msg) < 0x1_0000_0000
      ensures Parse(msg, after') == Parse(msg, after)
    {
      SameWindow(msg, after, after');
    }
  }

  /** It does happen: a long record that declares a payload of 2^32 - 21 bytes is accepted in a message of any size. */
  lemma PayloadBeyondMessage(rest: seq<byte>, after: Following)
    ensures var msg := [0xC4, 15, 0xFF, 0xFF, 0xFF, 0xEB] + TYPE_CMD + [CMD_READ] + rest;
            Parse(msg, after) == Command(21, 0xFFFF_FFEB) && (|msg| < 0x1_0000_0000 ==> 21 + 0xFFFF_FFEB > |msg|)
  {
    var msg := [0xC4, 15, 0xFF, 0xFF, 0xFF, 0xEB] + TYPE_CMD + [CMD_READ] + rest;
    assert msg[2..6] == [0xFF, 0xFF, 0xFF, 0xEB];
    assert (msg + after)[6..21] == TYPE_CMD;
  }

  // ---- Commands as the standard lays them out ----

  predicate IsCommandRecord(r: Record)
  {
    WellFormed(r) && r.tnf == TNF_EXTERNAL && r.typ == TYPE_CMD && |r.payload| >= 1
  }

  lemma FlagBits(r: Record)
    requires r.tnf < 8
    ensures Flags(r) % 8 == r.tnf && HasBit(Flags(r), 0x10) == r.short && HasBit(Flags(r), 0x08) == r.id.Some?
  {
  }

  lemma PositionBits(r: Record)
    requires r.tnf < 8
    ensures HasBit(Flags(r), 0x80) == r.begin && HasBit(Flags(r), 0x40) == r.end && HasBit(Flags(r), 0x20) == r.chunk
  {
  }

  /** What the parser reads from the header of a laid-out record. */
  lemma HeaderReadBack(r: Record, rest: seq<byte>)
    requires WellFormed(r)
    ensures var msg := Layout(r) + rest; var h := if r.short then 3 else 6;
            |msg| >= 3 && msg[1] as int == |r.typ| && msg[0] == Flags(r)
            && LengthFields(msg) == Some((h, |r.payload|))
            && HeaderLength(msg, h) == Some(|Header(r)| + |IdOf(r)|)
  {
    hide Put32Be, Get32Be, Flags;
    var msg := Layout(r) + rest;
    FlagBits(r);
    assert msg[..|Header(r)|] == Header(r);
    assert msg[0] == Header(r)[0] && msg[1] == Header(r)[1] && msg[2] == Header(r)[2];
    if !r.short {
      assert msg[2..6] == Header(r)[2..6] == Put32Be(|r.payload| as word);
      Put32IsBigEndian(|r.payload| as word);
    }
    if r.id.Some? {
      assert msg[|Header(r)| - 1] == Header(r)[|Header(r)| - 1];
    }
  }

  /**
   * The standard puts TYPE before ID, the code looks for it after the ID. So the parser returns the
   * payload exactly when TYPE followed by ID happens to end in the type again.
   */
  lemma ParsesIffTypeReappears(r: Record, rest: seq<byte>, after: Following)
    requires IsCommandRecord(r) && |Layout(r) + rest| < 0x1_0000_0000
    ensures var both := TYPE_CMD + IdOf(r);
            Parse(Layout(r) + rest, after) ==
            if both[|IdOf(r)|..] == TYPE_CMD then Command(|Layout(r)| - |r.payload|, |r.payload|) else NoCommand
  {
    hide Put32Be, Get32Be, Flags, HasBit, LengthFields, HeaderLength, Header, Layout;
    HeaderReadBack(r, rest);
    FlagBits(r);
    TypeAsSeen(r, rest);
    var msg, h := Layout(r) + rest, |Header(r)| + |IdOf(r)|;
    assert (msg + after)[h..h + 15] == msg[h..h + 15];
  }

  /** The bytes the code compares with the type. */
  lemma TypeAsSeen(r: Record, rest: seq<byte>)
    requires IsCommandRecord(r)
    ensures var h := |Header(r)| + |IdOf(r)|; var msg := Layout(r) + rest;
            |Layout(r)| == h + 15 + |r.payload| && msg[h..h + 15] == (TYPE_CMD + IdOf(r))[|IdOf(r)|..]
  {
    hide Header;
    var n, tail := |IdOf(r)|, TYPE_CMD + IdOf(r) + r.payload + rest;
    assert Layout(r) + rest == Header(r) + tail;
    assert tail[n..n + 15] == (TYPE_CMD + IdOf(r))[n..];
  }

  /** "ulpinternal:cmd" has no proper border. */
  lemma TypeHasNoBorder(n: nat)
    requires 0 < n < 15
    ensures TYPE_CMD[..15 - n] != TYPE_CMD[n..]
  {
    assert TYPE_CMD[..15 - n][0] == 0x75 && TYPE_CMD[n..][0] == TYPE_CMD[n];
  }

  lemma TypeReappearsIff(id: seq<byte>)
    ensures (TYPE_CMD + id)[|id|..] == TYPE_CMD <==> id == [] || (|id| >= 15 && id[|id| - 15..] == TYPE_CMD)
  {
    var both := TYPE_CMD + id;
    var n := |id|;
    if 0 < n < 15 {
      TypeHasNoBorder(n);
      assert both[n..][..15 - n] == TYPE_CMD[n..];
    } else if n >= 15 {
      assert both[n..] == id[n - 15..];
    }
  }

  /**
   * A standard command record, short or long, with any flags and anything after it, yields exactly its
   * payload if and only if it has no ID, an empty one, or one that ends in "ulpinternal:cmd"; all others
   * are ignored.
   */
  lemma CommandRecordParsesIff(r: Record, rest: seq<byte>, after: Following)
    requires IsCommandRecord(r) && |Layout(r) + rest| < 0x1_0000_0000
    ensures var id := IdOf(r); var msg := Layout(r) + rest; var p := Parse(msg, after);
            if id == [] || (|id| >= 15 && id[|id| - 15..] == TYPE_CMD) then
              p.Command? && p.start + p.len <= |msg| && msg[p.start..p.start + p.len] == r.payload
            else p.NoCommand?
  {
    hide Parse, Header;
    ParsesIffTypeReappears(r, rest, after);
    TypeReappearsIff(IdOf(r));
    var msg := Layout(r) + rest;
    assert msg[|Layout(r)| - |r.payload|..|Layout(r)|] == r.payload;
  }

  /** A one-byte ID is enough for a correct command to be ignored. */
  lemma IdHidesCommand(after: Following)
    ensures exists r: Record :: IsCommandRecord(r) && r.id == Some([0x31]) && Parse(Layout(r), after) == NoCommand
  {
    hide Parse, Layout;
    var r := Record(true, true, false, true, TNF_EXTERNAL, TYPE_CMD, Some([0x31]), [CMD_READ]);
    assert Layout(r) + [] == Layout(r);
    LayoutOfShort(r);
    CommandRecordParsesIff(r, [], after);
  }

  lemma LayoutOfShort(r: Record)
    requires IsCommandRecord(r) && r.short
    ensures |Layout(r)| < 0x1_0000
  {
  }

  // ---- ndef_encode_response ----

  /** The response record: one short external record, its payload length cut to one byte. */
  function Response(payload: seq<byte>): seq<byte>
  {
    [0xD4, 16, (|payload| % 0x100) as byte] + TYPE_INFO + payload
  }

  /** 0 and the encoded length, or -1 and nothing written when the buffer is too small. */
  method EncodeResponse(payload: seq<byte>, dst: array<byte>, at: nat, max: nat) returns (st: int, n: nat)
    requires at + max <= dst.Length && |payload| < 0x1_0000
    modifies dst
    ensures st == if max < 19 + |payload| then -1 else 0
    ensures st == -1 ==> n == max && dst[..] == old(dst[..])
    ensures st == 0 ==> n == 19 + |payload| && dst[..] == old(dst[..at]) + Response(payload) + old(dst[at + n..])
  {
    var typeLen := 16;
    var total := 3 + typeLen + |payload|;
    if max < total {
      return -1, max;
    }
    ghost var was := dst[..];
    var p := PutRecordHeader(dst, at, typeLen as byte, |payload|);
    PutBoth(dst, p, TYPE_INFO, payload);
    Splice(was, at, [0xD4, 16, (|payload| % 0x100) as byte], TYPE_INFO + payload);
    assert Response(payload) == [0xD4, 16, (|payload| % 0x100) as byte] + (TYPE_INFO + payload);
    p := p + typeLen + |payload|;
    st, n := 0, p - at;
  }

  /** MB, ME, SR and an external type; then the two lengths, one byte each. */
  method PutRecordHeader(dst: array<byte>, at: nat, typeLen: byte, payloadLen: nat) returns (p: nat)
    requires at + 3 <= dst.Length
    modifies dst
    ensures p == at + 3
    ensures dst[..] == old(dst[..at]) + [0xD4, typeLen, (payloadLen % 0x100) as byte] + old(dst[at + 3..])
  {
    p := at;
    dst[p] := 0xD4;
    p := p + 1;
    dst[p] := typeLen;
    p := p + 1;
    dst[p] := (payloadLen % 0x100) as byte;
    p := p + 1;
  }

  /** The type, then the payload. */
  method PutBoth(dst: array<byte>, p: nat, typ: seq<byte>, payload: seq<byte>)
    requires p + |typ| + |payload| <= dst.Length
    modifies dst
    ensures dst[..] == old(dst[..p]) + (typ + payload) + old(dst[p + |typ| + |payload|..])
  {
    ghost var was := dst[..];
    Copy(dst, p, typ);
    Copy(dst, p + |typ|, payload);
    Splice(was, p, typ, payload);
  }

  /** What the standard makes of it. */
  function InfoRecord(payload: seq<byte>): Record
  {
    Record(true, true, false, true, TNF_EXTERNAL, TYPE_INFO, None, payload)
  }

  /** Up to 255 bytes the response is the standard record of its payload and of no other, and never beyond. */
  lemma ResponseIsStandardRecord(payload: seq<byte>)
    ensures |payload| <= 255 <==>
            exists r: Record :: WellFormed(r) && r.payload == payload && Layout(r) == Response(payload)
    ensures Response(payload)[2] as int == |payload| % 256 && Response(payload)[19..] == payload
    ensures |payload| <= 255 ==>
              forall r: Record :: WellFormed(r) && Layout(r) == Response(payload) ==> r == InfoRecord(payload)
  {
    hide Layout;
    if |payload| <= 255 {
      InfoLayout(payload);
    }
    forall r: Record | WellFormed(r) && Layout(r) == Response(payload)
      ensures |r.payload| <= 255 && (|payload| <= 255 ==> r == InfoRecord(payload))
    {
      OnlyInfoRecord(r, payload);
    }
  }

  lemma InfoLayout(payload: seq<byte>)
    requires |payload| <= 255
    ensures WellFormed(InfoRecord(payload)) && Layout(InfoRecord(payload)) == Response(payload)
  {
  }

  /** Flags and lengths determine the record. */
  lemma OnlyInfoRecord(r: Record, payload: seq<byte>)
    requires WellFormed(r) && Layout(r) == Response(payload)
    ensures |r.payload| <= 255 && (|payload| <= 255 ==> r == InfoRecord(payload))
  {
    var msg := Response(payload);
    assert Layout(r)[0] == Flags(r) && msg[0] == 0xD4;
    FlagsDetermine(r);
    assert Layout(r)[1] as int == |r.typ| && msg[1] == 16;
    assert Layout(r)[2] as int == |r.payload|;
    if |payload| <= 255 {
      assert Layout(r)[3..19] == r.typ && msg[3..19] == TYPE_INFO;
      assert Layout(r)[19..] == r.payload && msg[19..] == payload;
    }
  }

  lemma FlagsDetermine(r: Record)
    requires r.tnf < 8 && Flags(r) == 0xD4
    ensures r.begin && r.end && !r.chunk && r.short && r.id.None? && r.tnf == TNF_EXTERNAL
  {
  }

  /** A response is never taken for a command, whatever the message area holds behind it. */
  lemma ResponseIsNoCommand(payload: seq<byte>, rest: seq<byte>, after: Following)
    ensures Parse(Response(payload) + rest, after) == NoCommand
  {
  }
}
