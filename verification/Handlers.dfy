/** The command handlers as the firmware runs them: request bytes in, response buffer filled in place. */
module Handlers {
  import opened Bytes
  import opened Wire
  import opened Tlv
  import opened Protocol
  import F = Fields
  import Auth

  /** Writes a reply if the buffer is large enough for it. */
  method Respond(resp: array<byte>, respMax: u16, bytes: seq<byte>) returns (n: u16)
    requires respMax <= resp.Length && |bytes| < 0x100
    modifies resp
    ensures n <= respMax && resp[..n] == Bounded(bytes, respMax)
  {
    if respMax < |bytes| {
      return 0;
    }
    Copy(resp, 0, bytes);
    n := |bytes|;
  }

  class Device {
    const fields: F.Module
    const auth: Auth.Module

    function View(): State
      reads fields, auth
    {
      State(fields.View(), auth.View(), fields.unixtime)
    }

    /** The statics before start-up. */
    constructor ()
      ensures View() == Initial()
      ensures fresh(fields) && fresh(auth)
    {
      hide Auth.Initial, F.PowerUp, F.Module.View, Auth.Module.View;
      auth := new Auth.Module();
      fields := new F.Module();
    }

    /** The two calls of main. NFC commands may already have come in before, and may come in between. */
    method StartUp()
      modifies fields, auth
      ensures View() == InitFields(InitAuth(old(View())))
    {
      hide F.Reset, Auth.ResetPassword, F.Module.View, Auth.Module.View;
      auth.AppAuthInit();
      fields.AppFieldsInit();
    }

    /** append_field_to_resp: the TLV size, 0 for an unknown field, 0xFF when the buffer is too small. */
    method AppendField(id: byte, resp: array<byte>, respMax: u16, pos: u16) returns (ret: byte, next: u16)
      requires pos <= respMax <= resp.Length
      modifies resp
      ensures ret == 0 <==> !F.IsReadable(id)
      ensures F.IsReadable(id) ==>
                var f := Field(id, F.Get(fields.View(), id));
                if pos + |Encode(f)| > respMax then ret == 0xFF
                else ret != 0xFF && next == pos + |Encode(f)| && resp[pos..next] == Encode(f)
      ensures ret == 0 || ret == 0xFF ==> next == pos && resp[..] == old(resp[..])
      ensures pos <= next <= respMax && resp[..pos] == old(resp[..pos])
    {
      hide F.Get;
      var valBuf := new byte[32];
      next := pos;
      var valLen := fields.AppFieldGet(id, valBuf, 32);
      assert F.GetUpTo(fields.View(), id, 32) == F.Get(fields.View(), id);
      if valLen == 0 {
        return 0, pos;
      }
      var tlvSize := 2 + valLen;
      if pos + tlvSize as int > respMax {
        return 0xFF, pos;
      }
      var n := EncodeField(resp, pos, id, valBuf[..valLen as int]);
      next := pos + n as int;
      ret := tlvSize;
    }

    /** Appends the fields `ids` to a response that holds its header, up to the first that does not fit. */
    method AppendAll(ids: seq<byte>, resp: array<byte>, respMax: u16) returns (failed: bool, i: nat, pos: u16)
      requires 3 <= respMax <= resp.Length && AllReadable(ids) && |ids| < 0x100
      modifies resp
      ensures resp[..3] == old(resp[..3])
      ensures failed <==> ReplySize(fields.View(), ids) > respMax
      ensures failed ==> i == FirstOverflow(fields.View(), ids, respMax)
      ensures !failed ==> i == |ids| && 3 <= pos == ReplySize(fields.View(), ids) <= respMax
                          && resp[3..pos] == EncodeAll(Values(fields.View(), ids))
    {
      hide F.Get, FirstOverflow, F.Module.View, ReplySize, EncodeAll;
      ghost var r := fields.View();
      NothingListed(r, ids[..0]);
      i, pos := 0, 3;
      while i < |ids|
        invariant i <= |ids|
        invariant pos == ReplySize(r, ids[..i]) <= respMax
        invariant resp[..3] == old(resp[..3]) && resp[3..pos] == EncodeAll(Values(r, ids[..i]))
        invariant fields.View() == r
      {
        ghost var head, body := resp[..3], resp[3..pos];
        ValuesAppend(r, ids, i);
        var ret, next := AppendField(ids[i], resp, respMax, pos);
        assert resp[..pos] == head + body;
        if ret == 0xFF {
          OverflowAt(r, ids, respMax, i);
          return true, i, pos;
        }
        assert resp[3..next] == body + resp[pos..next];
        assert resp[..3] == resp[..pos][..3];
        pos := next;
        i := i + 1;
      }
      assert ids[..i] == ids;
      failed := false;
    }

    method HandleCmdRead(req: seq<byte>, resp: array<byte>, respMax: u16) returns (n: u16)
      requires |req| < 0x1_0000 && respMax <= resp.Length
      modifies fields, resp
      ensures n <= respMax
      ensures (View(), resp[..n]) == Read(old(View()), req, respMax)
    {
      hide Listing, FirstUnreadable, AllReadable, Get32Be, F.Module.View, Auth.Module.View;
      AllListedAreReadable();
      if |req| < 6 {
        n := Respond(resp, respMax, [CMD_READ, PARAM_LEN, 0x00]);
        return;
      }
      SetUnixtime(Get32Be(req[1..5]));
      var fieldCount := req[5];
      var listLen: byte := ((|req| - 6) % 0x100) as byte;
      if respMax < 3 {
        return 0;
      }
      var ids: seq<byte>;
      if fieldCount == 0 {
        ids := ALL_READABLE;
      } else {
        if fieldCount > listLen {
          n := Respond(resp, respMax, [CMD_READ, PARAM_LEN, 0x00]);
          return;
        }
        ids := req[6..6 + fieldCount as int];
        var bad := FindUnreadable(ids);
        if bad.Some? {
          n := Respond(resp, respMax, [CMD_READ, UNSUPPORTED, bad.value]);
          return;
        }
      }
      n := ListFields(ids, resp, respMax);
    }

    /** The successful reply, with its count byte filled in last, or the one naming the field that does not fit. */
    method ListFields(ids: seq<byte>, resp: array<byte>, respMax: u16) returns (n: u16)
      requires 3 <= respMax <= resp.Length && AllReadable(ids) && |ids| < 0x100
      modifies resp
      ensures n <= respMax && resp[..n] == Listing(fields.View(), ids, respMax)
    {
      hide F.Get, ReplySize, FirstOverflow, F.Module.View;
      Copy(resp, 0, [CMD_READ, OK]);
      ghost var head := resp[..2];
      var failed, i, pos := AppendAll(ids, resp, respMax);
      if failed {
        n := Respond(resp, respMax, [CMD_READ, UNKNOWN, ids[i]]);
        return;
      }
      assert resp[..2] == resp[..3][..2] == head;
      ghost var body := resp[3..pos];
      resp[2] := i as byte;
      assert resp[..pos] == [CMD_READ, OK, i as byte] + body;
      n := pos;
    }

    method SetUnixtime(ts: word)
      modifies fields
      ensures fields.View() == old(fields.View()) && fields.unixtime == ts
    {
      fields.unixtime := ts;
    }

    /** The loop that checks all ids before anything is written to the response. */
    method FindUnreadable(ids: seq<byte>) returns (bad: Option<byte>)
      ensures bad == FirstUnreadable(ids)
    {
      hide F.GetUpTo;
      var i := 0;
      assert ids[0..] == ids;
      while i < |ids|
        invariant i <= |ids| && FirstUnreadable(ids) == FirstUnreadable(ids[i..])
      {
        var valBuf := new byte[32];
        var len := fields.AppFieldGet(ids[i], valBuf, 32);
        ReadableIffBytes(fields.View(), ids[i]);
        if len == 0 {
          return Some(ids[i]);
        }
        assert ids[i..][1..] == ids[i + 1..];
        i := i + 1;
      }
      bad := None;
    }

    /**
     * Phase 2 of CMD 0x02: decodes and validates field by field into the cache and changes nothing else.
     * Since phase 1 has accepted the structure, decoding cannot fail here.
     */
    method FillCache(data: seq<byte>, fieldCount: byte, cache: array<Field>)
      returns (status: byte, id: byte, cached: nat)
      requires |data| < 0x1_0000 && cache.Length == CACHE_MAX
      requires DecodeAll(data).Some? && fieldCount as int <= |DecodeAll(data).value|
      modifies cache
      ensures var fs := DecodeAll(data).value[..fieldCount as int]; var k := FirstInvalid(fs);
              if k < |fs| && k < CACHE_MAX then status == F.Validate(fs[k].id, fs[k].value) && id == fs[k].id
              else if |fs| > CACHE_MAX then status == PARAM_LEN && id == 0x00
              else status == OK && cached == |fs| && cache[..cached] == fs
    {
      hide F.Validate, DecodeAll, EncodeAll, First, FirstInvalid;
      EncodeAfterDecode(data);
      ghost var all := DecodeAll(data).value;
      ghost var fs := all[..fieldCount as int];
      var offset: u16 := 0;
      var i := 0;
      cached := 0;
      assert all[..0] == [] && |EncodeAll([])| == 0 by { NothingEncoded(); }
      while i < fieldCount as int
        invariant 0 <= i == cached <= fieldCount as int && cached <= CACHE_MAX
        invariant offset == |EncodeAll(all[..i])| <= |data|
        invariant cache[..i] == all[..i] && F.AllValid(all[..i])
      {
        assert fs[..i] == all[..i] && fs[i] == all[i];
        FirstInvalidFrom(fs, i);
        if cached >= CACHE_MAX {
          return PARAM_LEN, 0x00, cached;
        }
        FieldAt(all, i);
        var r, next, fid, value := DecodeField(data, offset);
        assert r == 0;
        status := F.Validate(fid, value);
        if status != OK {
          return status, fid, cached;
        }
        cache[cached] := Field(fid, value);
        assert all[..i + 1] == all[..i] + [all[i]];
        offset := next;
        cached := cached + 1;
        i := i + 1;
      }
      assert fs == all[..i] && fs[..i] == fs;
      FirstInvalidFrom(fs, i);
      status, id := OK, 0x00;
    }

    /** Phase 4 of CMD 0x02. */
    method ApplyCache(cache: array<Field>, cached: nat)
      requires cached <= cache.Length && F.AllValid(cache[..cached])
      modifies fields
      ensures fields.View() == F.SetAll(old(fields.View()), cache[..cached]) && fields.unixtime == old(fields.unixtime)
    {
      hide F.Set, F.Validate, F.Module.View;
      ghost var fs := cache[..cached];
      for i := 0 to cached
        invariant fields.View() == F.SetAll(old(fields.View()), fs[..i]) && fields.unixtime == old(fields.unixtime)
        invariant cache[..cached] == fs
      {
        assert cache[i] == fs[i] && fs[i] in fs;
        F.ValidIsWritable(fs[i].id, fs[i].value);
        fields.AppFieldSet(cache[i].id, cache[i].value);
        assert fs[..i + 1][..i] == fs[..i];
      }
      assert fs[..cached] == fs;
    }

    method HandleCmdWrite(ch: Channel, req: seq<byte>, resp: array<byte>, respMax: u16, now: nat) returns (n: u16)
      requires |req| < 0x1_0000 && respMax <= resp.Length
      modifies fields, auth, resp
      ensures n <= respMax
      ensures (View(), resp[..n]) == Write(old(View()), ch, req, respMax, now)
    {
      hide DecodeAll, FirstInvalid, F.SetAll, F.Validate, Auth.CheckWrite, Auth.Module.View;
      if |req| < 2 || req[1] == 0 {
        n := Respond(resp, respMax, [CMD_WRITE, PARAM_LEN, 0x00]);
        return;
      }
      var fieldCount := req[1];

      // Phase 1: structure
      var r := ValidatePayload(req[2..], fieldCount);
      if r != 0 {
        n := Respond(resp, respMax, [CMD_WRITE, PARAM_LEN, 0x00]);
        return;
      }

      // Phase 2: validity of every field
      var cache := new Field[CACHE_MAX];
      var status, id, cached := FillCache(req[2..], fieldCount, cache);
      if status != OK {
        n := Respond(resp, respMax, [CMD_WRITE, status, id]);
        return;
      }
      assert Check(req) == Accepted(cache[..cached]);

      // Phase 3: permission
      if !(fields.deviceState == FACTORY && !fields.factoryInitDone) {
        var authSt := auth.AppAuthCheckWrite(ch, now);
        if authSt != OK {
          n := Respond(resp, respMax, [CMD_WRITE, authSt, 0x00]);
          return;
        }
      }

      // Phase 4: the writes
      ApplyCache(cache, cached);

      // Phase 5: leaving the factory state
      if fields.deviceState == FACTORY && !fields.factoryInitDone {
        fields.AppFieldMarkFactoryInitDone();
      }
      n := Respond(resp, respMax, [CMD_WRITE, OK, 0x00]);
    }

    method HandleCmdAction(ch: Channel, req: seq<byte>, resp: array<byte>, respMax: u16, now: nat) returns (n: u16)
      requires |req| < 0x1_0000 && respMax <= resp.Length
      modifies fields, auth, resp
      ensures n <= respMax
      ensures (View(), resp[..n]) == Action(old(View()), ch, req, respMax, now)
    {
      hide Auth.CheckWrite, Auth.ResetPassword, Auth.Module.View, F.Reset;
      if |req| < 2 {
        n := Respond(resp, respMax, [CMD_ACTION, PARAM_LEN, 0x00, 0x00]);
        return;
      }
      var subcmd := req[1];
      if subcmd == 0x01 {
        fields.deviceState := POWER_ON;
        n := Respond(resp, respMax, [CMD_ACTION, OK, 0x01, fields.deviceState]);
      } else if subcmd == 0x02 {
        var authSt := auth.AppAuthCheckWrite(ch, now);
        if authSt != OK {
          n := Respond(resp, respMax, [CMD_ACTION, authSt, 0x02, fields.deviceState]);
          return;
        }
        fields.deviceState := POWER_OFF;
        n := Respond(resp, respMax, [CMD_ACTION, OK, 0x02, fields.deviceState]);
      } else if subcmd == 0x03 {
        var authSt := auth.AppAuthCheckWrite(ch, now);
        if authSt != OK {
          n := Respond(resp, respMax, [CMD_ACTION, authSt, 0x03, fields.deviceState]);
          return;
        }
        if |req| < 9 || req[2..9] != CONFIRMATION {
          n := Respond(resp, respMax, [CMD_ACTION, PARAM_VALUE, 0x03, fields.deviceState]);
          return;
        }
        fields.AppFieldsInit();
        auth.AppAuthResetPassword();
        n := Respond(resp, respMax, [CMD_ACTION, OK, 0x03, FACTORY]);
      } else {
        n := Respond(resp, respMax, [CMD_ACTION, UNSUPPORTED, subcmd]);
      }
    }

    /** process_app_payload. CMD 0x03 answers without looking at `respMax`, so the buffer must hold its reply. */
    method ProcessAppPayload(ch: Channel, req: seq<byte>, resp: array<byte>, respMax: u16, now: nat, random: Auth.Nonce)
      returns (n: u16)
      requires |req| < 0x1_0000 && respMax <= resp.Length
      requires |req| > 0 && req[0] == CMD_AUTH ==> |Auth.HandleCmd(auth.View(), ch, req, now, random).1| <= resp.Length
      modifies fields, auth, resp
      ensures n <= resp.Length
      ensures (View(), resp[..n]) == Process(old(View()), ch, req, respMax, now, random)
    {
      hide Read, Write, Action, Auth.HandleCmd, F.Module.View, Auth.Module.View;
      if |req| < 1 {
        return 0;
      }
      var cmd := req[0];
      if cmd == CMD_READ {
        n := HandleCmdRead(req, resp, respMax);
      } else if cmd == CMD_WRITE {
        n := HandleCmdWrite(ch, req, resp, respMax, now);
      } else if cmd == CMD_AUTH {
        n := auth.AppAuthHandleCmd(ch, req, resp, now, random);
      } else if cmd == CMD_ACTION {
        n := HandleCmdAction(ch, req, resp, respMax, now);
      } else {
        n := Respond(resp, respMax, [cmd, UNSUPPORTED]);
      }
    }
  }

  lemma NothingListed(r: F.Registry, ids: seq<byte>)
    requires ids == []
    ensures ReplySize(r, ids) == 3 && EncodeAll(Values(r, ids)) == []
  {
  }

  lemma NothingEncoded()
    ensures |EncodeAll([])| == 0
  {
  }

  lemma ReadableIffBytes(r: F.Registry, id: byte)
    ensures |F.GetUpTo(r, id, 32)| == 0 <==> !F.IsReadable(id)
  {
  }
}
