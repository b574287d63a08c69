/** CMD 0x01, 0x02 and 0x04 and their dispatch: src/app_protocol.c. */
module Protocol {
  import opened Bytes
  import opened Wire
  import opened Tlv
  import opened Fields
  import Auth

  const ALL_READABLE: seq<byte> :=
    [DEVICE_STATE, DEVICE_TYPE, MODEL, SERIAL, FW_VER, HW_VER, PROTOCOL_VERSION, BATTERY, TEMPERATURE, DISTANCE, POSITION,
     MODE, UPDATE_INTERVAL, INSTALL_LOCATION, GNSS_FIX, LATITUDE, LONGITUDE, ALTITUDE]

  const CACHE_MAX: nat := 16
  const CONFIRMATION: seq<byte> := [0x46, 0x41, 0x43, 0x54, 0x4F, 0x52, 0x59]  // "FACTORY"

  datatype State = State(reg: Registry, auth: Auth.State, unixtime: word)

  type Answer = (State, seq<byte>)

  // ---- Start-up ----

  /** The device before main has initialised it. */
  function Initial(): State { State(PowerUp(), Auth.Initial(), 0) }

  /** app_auth_init. */
  function InitAuth(s: State): State { s.(auth := Auth.ResetPassword(s.auth)) }

  /** app_fields_init. */
  function InitFields(s: State): State { s.(reg := Reset(s.reg)) }

  /** A reply that is only sent when the response buffer holds it. */
  function Bounded(bytes: seq<byte>, respMax: nat): seq<byte>
  {
    if respMax < |bytes| then [] else bytes
  }

  // ---- CMD 0x01 ----

  /** The fields `ids` with their current values. */
  function Values(r: Registry, ids: seq<byte>): (fs: seq<Field>)
    ensures |fs| == |ids| && AllFit(fs)
    ensures forall i :: 0 <= i < |ids| ==> fs[i] == Field(ids[i], Get(r, ids[i]))
  {
    seq(|ids|, i requires 0 <= i < |ids| => Field(ids[i], Get(r, ids[i])))
  }

  predicate AllReadable(ids: seq<byte>)
  {
    forall id <- ids :: IsReadable(id)
  }

  /** The size of a reply listing `ids`: a header of three bytes, then two bytes and the value for each field. */
  function ReplySize(r: Registry, ids: seq<byte>): (n: nat)
    ensures n >= 3
  {
    if ids == [] then 3 else ReplySize(r, ids[..|ids| - 1]) + 2 + |Get(r, ids[|ids| - 1])|
  }

  /** The first k for which the first k + 1 of `ids` no longer fit. */
  function FirstOverflow(r: Registry, ids: seq<byte>, respMax: nat): (k: nat)
    requires respMax >= 3 && ReplySize(r, ids) > respMax
    ensures k < |ids| && ReplySize(r, ids[..k]) <= respMax < ReplySize(r, ids[..k + 1])
  {
    assert ids != [];
    hide Get, ReplySize;
    var n := |ids| - 1;
    assert ids[..n + 1] == ids;
    if ReplySize(r, ids[..n]) <= respMax then n
    else
      var k := FirstOverflow(r, ids[..n], respMax);
      PrefixOfPrefix(ids, n, k);
      PrefixOfPrefix(ids, n, k + 1);
      k
  }

  lemma PrefixOfPrefix(ids: seq<byte>, n: nat, k: nat)
    requires k <= n <= |ids|
    ensures ids[..n][..k] == ids[..k]
  {
  }

  /** The reply that lists `ids`, or names the first one for which the buffer is too small. */
  function Listing(r: Registry, ids: seq<byte>, respMax: nat): seq<byte>
    requires |ids| < 0x100 && respMax >= 3
  {
    if ReplySize(r, ids) <= respMax then [CMD_READ, OK, |ids| as byte] + EncodeAll(Values(r, ids))
    else [CMD_READ, UNKNOWN, ids[FirstOverflow(r, ids, respMax)]]
  }

  function FirstUnreadable(ids: seq<byte>): (r: Option<byte>)
    ensures r.None? <==> AllReadable(ids)
  {
    if ids == [] then None
    else if !IsReadable(ids[0]) then Some(ids[0])
    else FirstUnreadable(ids[1..])
  }

  lemma {:induction false} FirstUnreadableAt(ids: seq<byte>, k: nat)
    requires k < |ids| && AllReadable(ids[..k]) && !IsReadable(ids[k])
    ensures FirstUnreadable(ids) == Some(ids[k])
  {
    hide IsReadable;
    if k > 0 {
      assert ids[0] in ids[..k];
      assert forall id <- ids[1..][..k - 1] :: id in ids[..k];
      FirstUnreadableAt(ids[1..], k - 1);
    }
  }

  /** The reply to CMD 0x01. The length of the id list is computed in a uint8_t. */
  function ReadReply(r: Registry, req: seq<byte>, respMax: nat): seq<byte>
  {
    if |req| < 6 then Bounded([CMD_READ, PARAM_LEN, 0x00], respMax)
    else if respMax < 3 then []
    else if req[5] == 0 then Listing(r, ALL_READABLE, respMax)
    else if req[5] as int > (|req| - 6) % 0x100 then [CMD_READ, PARAM_LEN, 0x00]
    else
      var ids := req[6..6 + req[5] as int];
      match FirstUnreadable(ids)
      case Some(id) => [CMD_READ, UNSUPPORTED, id]
      case None => Listing(r, ids, respMax)
  }

  function Read(s: State, req: seq<byte>, respMax: nat): Answer
  {
    (if |req| < 6 then s else s.(unixtime := Get32Be(req[1..5])), ReadReply(s.reg, req, respMax))
  }

  // How a listing grows.

  lemma ValuesAppend(r: Registry, ids: seq<byte>, i: nat)
    requires i < |ids|
    ensures Values(r, ids[..i + 1]) == Values(r, ids[..i]) + [Field(ids[i], Get(r, ids[i]))]
    ensures EncodeAll(Values(r, ids[..i + 1])) ==
            EncodeAll(Values(r, ids[..i])) + Encode(Field(ids[i], Get(r, ids[i])))
    ensures ReplySize(r, ids[..i + 1]) == ReplySize(r, ids[..i]) + 2 + |Get(r, ids[i])|
  {
    hide Get;
    var f := Field(ids[i], Get(r, ids[i]));
    assert ids[..i + 1][..i] == ids[..i];
    assert Values(r, ids[..i + 1]) == Values(r, ids[..i]) + [f];
    EncodeAllAppend(Values(r, ids[..i]), [f]);
    assert EncodeAll([f]) == Encode(f) + EncodeAll([]);
  }

  /** It is the size of what is encoded. */
  lemma {:induction false} ReplySizeIsEncoded(r: Registry, ids: seq<byte>)
    ensures ReplySize(r, ids) == 3 + |EncodeAll(Values(r, ids))|
  {
    hide Get;
    if ids != [] {
      var n := |ids| - 1;
      ReplySizeIsEncoded(r, ids[..n]);
      ValuesAppend(r, ids, n);
      assert ids[..n + 1] == ids;
    }
  }

  lemma {:induction false} ReplySizeGrows(r: Registry, ids: seq<byte>, i: nat)
    requires i <= |ids|
    ensures ReplySize(r, ids[..i]) <= ReplySize(r, ids)
    decreases |ids| - i
  {
    hide ReplySize;
    if i < |ids| {
      ValuesAppend(r, ids, i);
      ReplySizeGrows(r, ids, i + 1);
    } else {
      assert ids[..i] == ids;
    }
  }

  /** The overflow position is the only place where the reply passes the limit. */
  lemma OverflowAt(r: Registry, ids: seq<byte>, respMax: nat, i: nat)
    requires respMax >= 3 && i < |ids|
    requires ReplySize(r, ids[..i]) <= respMax < ReplySize(r, ids[..i + 1])
    ensures ReplySize(r, ids) > respMax && FirstOverflow(r, ids, respMax) == i
  {
    hide ReplySize, FirstOverflow;
    ReplySizeGrows(r, ids, i + 1);
    var k := FirstOverflow(r, ids, respMax);
    if k < i {
      assert ids[..i][..k + 1] == ids[..k + 1];
      ReplySizeGrows(r, ids[..i], k + 1);
    } else if i < k {
      assert ids[..k][..i + 1] == ids[..i + 1];
      ReplySizeGrows(r, ids[..k], i + 1);
    }
  }

  lemma AllListedAreReadable()
    ensures AllReadable(ALL_READABLE) && |ALL_READABLE| == 18
  {
  }

  // ---- CMD 0x02 ----

  /** Only a factory-fresh device takes its first write without authentication. */
  predicate IsOpen(r: Registry)
  {
    r.deviceState == FACTORY && !r.initDone
  }

  /** The position of the first field that fails validation, |fs| when there is none. */
  function FirstInvalid(fs: seq<Field>): (k: nat)
    ensures k <= |fs| && AllValid(fs[..k])
    ensures k < |fs| ==> Validate(fs[k].id, fs[k].value) != OK
  {
    if fs == [] || Validate(fs[0].id, fs[0].value) != OK then 0
    else
      var k := FirstInvalid(fs[1..]);
      assert fs[..k + 1] == [fs[0]] + fs[1..][..k];
      k + 1
  }

  /** Validation has found nothing wrong in the first `i` fields. */
  lemma FirstInvalidFrom(fs: seq<Field>, i: nat)
    requires i <= |fs| && AllValid(fs[..i])
    ensures FirstInvalid(fs) >= i
    ensures i < |fs| && Validate(fs[i].id, fs[i].value) != OK ==> FirstInvalid(fs) == i
  {
    hide Validate, FirstInvalid;
    var k := FirstInvalid(fs);
    if i < k {
      assert fs[..k][i] == fs[i];
    }
  }

  /** The fields CMD 0x02 works on: none when the TLV structure is refused. The entry count is a uint8_t. */
  function Declared(req: seq<byte>): (r: Option<seq<Field>>)
    ensures r.Some? ==> |req| >= 2 && 1 <= |r.value| == req[1] as nat && AllFit(r.value)
  {
    if |req| < 2 || req[1] == 0 then None
    else
      EncodeAfterDecode(req[2..]);
      match DecodeAll(req[2..])
      case None => None
      case Some(fs) => if |fs| % 0x100 != req[1] as int then None else Some(fs[..req[1] as int])
  }

  /** Phases 1 and 2: the fields to write, or the status and field id to answer. */
  datatype Checked = Refused(status: byte, id: byte) | Accepted(fields: seq<Field>)

  function Check(req: seq<byte>): (c: Checked)
    ensures c.Accepted? ==> 1 <= |c.fields| <= CACHE_MAX && AllValid(c.fields)
    ensures c.Refused? ==> c.status != OK
  {
    match Declared(req)
    case None => Refused(PARAM_LEN, 0x00)
    case Some(fs) =>
      var k := FirstInvalid(fs);
      if k < |fs| && k < CACHE_MAX then Refused(Validate(fs[k].id, fs[k].value), fs[k].id)
      else if |fs| > CACHE_MAX then Refused(PARAM_LEN, 0x00)
      else
        assert fs[..k] == fs;
        Accepted(fs)
  }

  /** Phases 4 and 5. */
  function Apply(r: Registry, fs: seq<Field>): Registry
    requires AllValid(fs)
  {
    var r' := SetAll(r, fs);
    if IsOpen(r') then MarkInitDone(r') else r'
  }

  function Write(s: State, ch: Channel, req: seq<byte>, respMax: nat, now: nat): Answer
  {
    match Check(req)
    case Refused(status, id) => (s, Bounded([CMD_WRITE, status, id], respMax))
    case Accepted(fs) =>
      var (a, st) := if IsOpen(s.reg) then (s.auth, OK) else Auth.CheckWrite(s.auth, ch, now);
      if st != OK then (s.(auth := a), Bounded([CMD_WRITE, st, 0x00], respMax))
      else (s.(auth := a, reg := Apply(s.reg, fs)), Bounded([CMD_WRITE, OK, 0x00], respMax))
  }

  // ---- CMD 0x04 ----

  /** A factory reset is ordered by nine bytes that end in "FACTORY"; more may follow. */
  predicate Confirmed(req: seq<byte>)
  {
    |req| >= 9 && req[2..9] == CONFIRMATION
  }

  function Action(s: State, ch: Channel, req: seq<byte>, respMax: nat, now: nat): Answer
  {
    if |req| < 2 then (s, Bounded([CMD_ACTION, PARAM_LEN, 0x00, 0x00], respMax))
    else if req[1] == 0x01 then
      (s.(reg := s.reg.(deviceState := POWER_ON)), Bounded([CMD_ACTION, OK, 0x01, POWER_ON], respMax))
    else if req[1] == 0x02 || req[1] == 0x03 then
      var (a, st) := Auth.CheckWrite(s.auth, ch, now);
      if st != OK then (s.(auth := a), Bounded([CMD_ACTION, st, req[1], s.reg.deviceState], respMax))
      else if req[1] == 0x02 then
        (s.(auth := a, reg := s.reg.(deviceState := POWER_OFF)), Bounded([CMD_ACTION, OK, 0x02, POWER_OFF], respMax))
      else if !Confirmed(req) then
        (s.(auth := a), Bounded([CMD_ACTION, PARAM_VALUE, 0x03, s.reg.deviceState], respMax))
      else
        (s.(auth := Auth.ResetPassword(a), reg := Reset(s.reg)), Bounded([CMD_ACTION, OK, 0x03, FACTORY], respMax))
    else (s, Bounded([CMD_ACTION, UNSUPPORTED, req[1]], respMax))
  }

  /** process_app_payload: the new state and the reply, empty when none is sent. */
  function Process(s: State, ch: Channel, req: seq<byte>, respMax: nat, now: nat, random: Auth.Nonce): Answer
  {
    if |req| < 1 then (s, [])
    else if req[0] == CMD_READ then Read(s, req, respMax)
    else if req[0] == CMD_WRITE then Write(s, ch, req, respMax, now)
    else if req[0] == CMD_AUTH then
      var (a, reply) := Auth.HandleCmd(s.auth, ch, req, now, random);
      (s.(auth := a), reply)
    else if req[0] == CMD_ACTION then Action(s, ch, req, respMax, now)
    else (s, Bounded([req[0], UNSUPPORTED], respMax))
  }
}
