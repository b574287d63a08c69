/** The NFC entry point of src/app_config.c: an NDEF command record in, an NDEF response record out. */
module NfcEntry {
  import opened Bytes
  import opened Wire
  import opened Ndef
  import opened Handlers
  import Auth
  import Fields
  import Protocol
  import P = ProtocolTheorems

  /** The device state and the message area after a tag write, and whether it was a command. */
  datatype Outcome = Outcome(device: Protocol.State, reply: Option<seq<byte>>)

  /** The payload length is passed on as a uint16_t. `after` is what memory holds behind the message. */
  function Handle(s: Protocol.State, msg: seq<byte>, after: Following, now: nat, random: Auth.Nonce): Outcome
  {
    match Parse(msg, after)
    case NoCommand => Outcome(s, None)
    case Command(start, len) =>
      var (d, reply) := Protocol.Process(s, NFC, (msg + after)[start..start + len % 0x1_0000], 256, now, random);
      Outcome(d, if reply == [] || |msg| < 19 + |reply| then None else Some(reply))
  }

  /**
   * `file` holds the two NLEN bytes and then the message. When a response has been encoded the NFC library
   * writes the new NLEN and answers `nlenWritten`; nothing is said about these two bytes then.
   */
  method AppConfigHandleNdef(
    device: Device, file: array<byte>, after: Following, now: nat, random: Auth.Nonce, nlenWritten: bool)
    returns (handled: bool)
    requires 2 <= file.Length < 0x1_0000_0000
    modifies device.fields, device.auth, file
    ensures var o := Handle(old(device.View()), old(file[2..]), after, now, random);
            device.View() == o.device && (handled <==> o.reply.Some? && nlenWritten)
            && match o.reply
               case None => file[..] == old(file[..])
               case Some(reply) =>
                 2 + |Response(reply)| <= file.Length
                 && file[2..] == Response(reply) + old(file[..])[2 + |Response(reply)|..]
  {
    hide Protocol.Process, Parse, Device.View, Auth.Module.View, Auth.HandleCmd, Response, TYPE_INFO, TYPE_CMD;
    ghost var was := file[..];
    var msg := file[2..];
    var found, cmd, start, len := ParseExtCmd(msg, after);
    if !found {
      return false;
    }
    var resp := new byte[256];
    Auth.ReplyLength(device.auth.View(), NFC, (msg + after)[start..start + len % 0x1_0000], now, random);
    var n := device.ProcessAppPayload(NFC, (msg + after)[start..start + len % 0x1_0000], resp, 256, now, random);
    if n == 0 {
      return false;
    }
    var st, m := EncodeResponse(resp[..n], file, 2, file.Length - 2);
    if st != 0 {
      return false;
    }
    Behind(was, Response(resp[..n]), file[..]);
    handled := nlenWritten;
  }

  lemma Behind(was: seq<byte>, a: seq<byte>, now: seq<byte>)
    requires 2 + |a| <= |was| && now == was[..2] + a + was[2 + |a|..]
    ensures now[2..] == a + was[2 + |a|..]
  {
  }

  /** As long as the lengths do not wrap, and so for every message of standard records, only the message matters. */
  lemma OnlyTheMessageMatters(
    s: Protocol.State, msg: seq<byte>, after: Following, after': Following, now: nat, random: Auth.Nonce)
    requires |msg| < 0x1_0000_0000 && (|msg| >= 3 ==> LengthSum(msg) < 0x1_0000_0000)
    ensures Handle(s, msg, after, now, random) == Handle(s, msg, after', now, random)
  {
    hide Protocol.Process, LengthSum;
    if |msg| >= 3 {
      PayloadInsideIff(msg, after);
      SameWindow(msg, after, after');
    }
  }

  /**
   * End to end: a standard command record without ID is processed with exactly its payload, and what can
   * then be read from the tag is the standard record of the reply, unless the payload is a read that asks
   * for a full buffer: then no standard record of the reply has the encoded form.
   */
  lemma CommandInResponseOut(
    s: Protocol.State, r: Record, rest: seq<byte>, after: Following, now: nat, random: Auth.Nonce)
    requires IsCommandRecord(r) && r.id.None? && |r.payload| < 0x1_0000 && |Layout(r) + rest| < 0x1_0000_0000
    ensures var msg := Layout(r) + rest; var (d, reply) := Protocol.Process(s, NFC, r.payload, 256, now, random);
            && Handle(s, msg, after, now, random) ==
               Outcome(d, if reply == [] || |msg| < 19 + |reply| then None else Some(reply))
            && |reply| <= 256
            && (!P.FillsBuffer(r.payload) ==>
                  WellFormed(InfoRecord(reply)) && Layout(InfoRecord(reply)) == Response(reply))
            && (P.FillsBuffer(r.payload) ==> !ComesBack(reply))
  {
    hide Protocol.Process, Parse, Layout, Header, P.FillsBuffer, WellFormed, Response;
    var msg := Layout(r) + rest;
    CommandRecordParsesIff(r, rest, after);
    var p := Parse(msg, after);
    var reply := Protocol.Process(s, NFC, r.payload, 256, now, random).1;
    P.LongestReply(s, NFC, r.payload, now, random);
    if P.FillsBuffer(r.payload) {
      ResponseIsStandardRecord(reply);
    } else {
      InfoLayout(reply);
    }
    PayloadLength(r, rest, after);
    assert (msg + after)[p.start..p.start + p.len] == msg[p.start..p.start + p.len];
  }

  /** Some standard record with this payload has the encoded form of the response. */
  ghost predicate ComesBack(reply: seq<byte>)
  {
    exists rec: Record :: WellFormed(rec) && rec.payload == reply && Layout(rec) == Response(reply)
  }

  lemma PayloadLength(r: Record, rest: seq<byte>, after: Following)
    requires IsCommandRecord(r) && r.id.None? && |Layout(r) + rest| < 0x1_0000_0000
    ensures Parse(Layout(r) + rest, after).Command? && Parse(Layout(r) + rest, after).len == |r.payload|
  {
    hide Parse, Layout;
    ParsesIffTypeReappears(r, rest, after);
    TypeReappearsIff([]);
  }

  /** A read of 84 fields, in a short record. */
  function LongRead(): Record
  {
    Record(true, true, false, true, TNF_EXTERNAL, TYPE_CMD, None,
           [CMD_READ, 0, 0, 0, 0, 84] + seq(83, i => DEVICE_STATE) + [TEMPERATURE])
  }

  lemma LongReadFills()
    ensures P.FillsBuffer(LongRead().payload) && IsCommandRecord(LongRead()) && |Layout(LongRead())| == 108
  {
    hide Fields.Get, Protocol.ReplySize;
    var ids, req := seq(83, i => DEVICE_STATE) + [TEMPERATURE], LongRead().payload;
    assert req[6..90] == ids;
    assert ids[..83] == seq(83, i => DEVICE_STATE);
    SizeOfRepeated(Fields.PowerUp(), 83);
    SizeOfTwoKinds(Fields.PowerUp(), ids);
  }

  /** The limit matters: in every state this command is answered with 256 bytes, which do not come back. */
  lemma LongestReplyIsLost(s: Protocol.State, rest: seq<byte>, after: Following, now: nat, random: Auth.Nonce)
    requires 167 <= |rest| < 0xFFFF_FF00
    ensures var o := Handle(s, Layout(LongRead()) + rest, after, now, random);
            o.reply.Some? && |o.reply.value| == 256 && o.reply.value[1] == OK && !ComesBack(o.reply.value)
  {
    hide Protocol.ReadReply, Handle, ComesBack, Layout, Protocol.ReplySize, P.Requested, Protocol.AllReadable;
    var r := LongRead();
    LongReadFills();
    CommandInResponseOut(s, r, rest, after, now, random);
    P.LongestReply(s, NFC, r.payload, now, random);
    P.ReadReplyDecodesBack(s.reg, r.payload, 256);
    P.SizeIsFixed(s.reg, Fields.PowerUp(), P.Requested(r.payload));
  }

  lemma SizeOfTwoKinds(r: Fields.Registry, ids: seq<byte>)
    requires |ids| == 84 && ids[83] == TEMPERATURE
    ensures Protocol.ReplySize(r, ids) == Protocol.ReplySize(r, ids[..83]) + 4
  {
  }

  lemma {:induction false} SizeOfRepeated(r: Fields.Registry, n: nat)
    ensures Protocol.ReplySize(r, seq(n, i => DEVICE_STATE)) == 3 + 3 * n
  {
    if n > 0 {
      assert seq(n, i => DEVICE_STATE)[..n - 1] == seq(n - 1, i => DEVICE_STATE);
      SizeOfRepeated(r, n - 1);
    }
  }
}
