/** What single commands promise: the write transaction, the read reply, and reading back what was written. */
module ProtocolTheorems {
  import opened Bytes
  import opened Wire
  import opened Tlv
  import opened Fields
  import opened Protocol
  import Auth

  // ---- CMD 0x02 ----

  /**
   * The body of `req` holds the fields `all`, and `fs` are those of them it declares: the count is only
   * compared modulo 256, so up to 511 bytes `fs` is the whole body and beyond that it may be a part.
   */
  predicate Declares(req: seq<byte>, all: seq<Field>, fs: seq<Field>)
  {
    && |req| >= 2 && AllFit(all) && EncodeAll(all) == req[2..]
    && fs <= all && |all| % 0x100 == |fs| == req[1] as nat
  }

  lemma DeclaresIsDeclared(req: seq<byte>, all: seq<Field>, fs: seq<Field>)
    requires Declares(req, all, fs)
    ensures Declared(req) == (if fs == [] then None else Some(fs)) && AllFit(fs)
    ensures |req| <= 513 ==> fs == all
  {
    hide DecodeAll, EncodeAll;
    RoundTrip(all);
    EncodeAfterDecode(req[2..]);
    assert fs == all[..|fs|];
    assert |fs| == |all| ==> fs == all;
  }

  /** Phase 1: a body that is no list of exactly COUNT fields, COUNT at least 1, is answered PARAM_LEN. */
  lemma BadStructure(s: State, ch: Channel, req: seq<byte>, respMax: nat, now: nat)
    requires respMax >= 3
    requires |req| < 2 || req[1] == 0
             || if |req| <= 513 then !IsFieldList(req[2..], req[1] as nat)
                else forall n: nat :: n % 0x100 == req[1] as nat ==> !IsFieldList(req[2..], n)
    ensures Write(s, ch, req, respMax, now) == (s, [0x02, 0x05, 0x00])
  {
    hide DecodeAll, IsFieldList, FirstInvalid, Auth.CheckWrite;
    if |req| >= 2 {
      var data := req[2..];
      EncodeAfterDecode(data);
      if DecodeAll(data).Some? {
        DecodesIffFieldList(data, |DecodeAll(data).value|);
      }
      assert Declared(req).None?;
    }
  }

  /** Still in the factory state and never written. */
  predicate IsFresh(r: Registry)
  {
    r.deviceState == 0x00 && !r.initDone
  }

  /** Phases 2 to 5 on a well-formed list: the answer is that of the first failing phase and the first bad field. */
  lemma WellFormedWrite(
    s: State, ch: Channel, req: seq<byte>, all: seq<Field>, fs: seq<Field>, respMax: nat, now: nat)
    requires respMax >= 3 && Declares(req, all, fs) && fs != []
    ensures forall k :: 0 <= k < |fs| && k < 16 && AllValid(fs[..k]) && Validate(fs[k].id, fs[k].value) != OK ==>
              Write(s, ch, req, respMax, now) == (s, [0x02, Validate(fs[k].id, fs[k].value), fs[k].id])
    ensures |fs| > 16 && AllValid(fs[..16]) ==> Write(s, ch, req, respMax, now) == (s, [0x02, 0x05, 0x00])
    ensures |fs| <= 16 && AllValid(fs) ==>
              var (a, st) := if IsFresh(s.reg) then (s.auth, OK) else Auth.CheckWrite(s.auth, ch, now);
              var done := SetAll(s.reg, fs);
              Write(s, ch, req, respMax, now) ==
              (if st != OK then s.(auth := a)
               else s.(auth := a, reg := if IsFresh(s.reg) then MarkInitDone(done) else done),
               [0x02, st, 0x00])
  {
    hide DecodeAll, EncodeAll, FirstInvalid, Validate, Auth.CheckWrite, SetAll;
    DeclaresIsDeclared(req, all, fs);
    forall k | 0 <= k < |fs| && AllValid(fs[..k]) && Validate(fs[k].id, fs[k].value) != OK
      ensures FirstInvalid(fs) == k
    {
      FirstInvalidFrom(fs, k);
    }
    if |fs| > 16 && AllValid(fs[..16]) {
      FirstInvalidFrom(fs, 16);
    }
    if AllValid(fs) {
      SetAllKeepsState(s.reg, fs);
    }
  }

  /** When CMD 0x02 succeeds: `fs` are the declared fields of the body `all`. */
  ghost predicate Writable(s: State, ch: Channel, req: seq<byte>, all: seq<Field>, fs: seq<Field>, now: nat)
  {
    && Declares(req, all, fs) && 1 <= |fs| <= 16 && AllValid(fs)
    && (IsFresh(s.reg) || Auth.CheckWrite(s.auth, ch, now).1 == OK)
  }

  /** On bodies of any length; up to 511 bytes the declared fields are the whole body. */
  lemma WriteSucceedsIff(s: State, ch: Channel, req: seq<byte>, respMax: nat, now: nat)
    requires respMax >= 3
    ensures |Write(s, ch, req, respMax, now).1| == 3
    ensures Write(s, ch, req, respMax, now).1[1] == OK <==> exists all, fs :: Writable(s, ch, req, all, fs, now)
    ensures |req| <= 513 ==> forall all, fs :: Writable(s, ch, req, all, fs, now) ==> fs == all
  {
    hide DecodeAll, EncodeAll, FirstInvalid, Validate, Auth.CheckWrite, SetAll;
    if all, fs :| Writable(s, ch, req, all, fs, now) {
      WritableIsAccepted(s, ch, req, all, fs, now);
    }
    if Write(s, ch, req, respMax, now).1[1] == OK {
      EncodeAfterDecode(req[2..]);
      assert Writable(s, ch, req, DecodeAll(req[2..]).value, Check(req).fields, now);
    }
    forall all, fs | |req| <= 513 && Writable(s, ch, req, all, fs, now)
      ensures fs == all
    {
      DeclaresIsDeclared(req, all, fs);
    }
  }

  lemma WritableIsAccepted(s: State, ch: Channel, req: seq<byte>, all: seq<Field>, fs: seq<Field>, now: nat)
    requires Writable(s, ch, req, all, fs, now)
    ensures Check(req) == Accepted(fs)
  {
    hide DecodeAll, EncodeAll, Validate, Auth.CheckWrite, FirstInvalid;
    DeclaresIsDeclared(req, all, fs);
    assert fs[..|fs|] == fs;
    FirstInvalidFrom(fs, |fs|);
  }

  /**
   * All or nothing, on any body and with any response buffer: without a reply that says OK nothing changes
   * but an expired NFC deadline, and with it the declared fields have all been applied, in order. What is
   * done does not depend on the buffer, although a buffer below three bytes hides the reply.
   */
  lemma WriteIsTransaction(s: State, ch: Channel, req: seq<byte>, respMax: nat, now: nat)
    ensures var (s', reply) := Write(s, ch, req, respMax, now);
            && s' == Write(s, ch, req, 3, now).0
            && reply == (if respMax < 3 then [] else Write(s, ch, req, 3, now).1)
            && s'.unixtime == s.unixtime
            && (s'.auth == s.auth || (ch.NFC? && 0 < s.auth.nfcUntil < now && s'.auth == s.auth.(nfcUntil := 0)))
    ensures var (s', reply) := Write(s, ch, req, 3, now);
            && |reply| == 3
            && (reply[1] != OK ==> s'.reg == s.reg)
            && (reply[1] == OK ==>
                  s'.auth == s.auth && |req| >= 2 && DecodeAll(req[2..]).Some?
                  && var all := DecodeAll(req[2..]).value;
                     1 <= req[1] as nat <= |all| && AllValid(all[..req[1] as nat])
                     && s'.reg == Apply(s.reg, all[..req[1] as nat]))
  {
    hide DecodeAll, FirstInvalid, Validate, SetAll, Apply;
    if Check(req).Accepted? {
      EncodeAfterDecode(req[2..]);
    }
  }

  /** What is applied beyond the list itself is that a factory-fresh device leaves the factory state. */
  lemma ApplyIsFold(r: Registry, fs: seq<Field>)
    requires AllValid(fs)
    ensures Apply(r, fs) ==
            if IsFresh(r) then SetAll(r, fs).(initDone := true, deviceState := 0x01) else SetAll(r, fs)
  {
    hide SetAll, Validate;
    SetAllKeepsState(r, fs);
  }

  /**
   * An accepted write covers the whole body if and only if the body has at most 511 bytes; the next
   * larger bodies that are accepted have 515.
   */
  lemma WholeListWrittenIff(s: State, ch: Channel, req: seq<byte>, now: nat)
    requires Write(s, ch, req, 3, now).1 == [CMD_WRITE, OK, 0x00]
    ensures |req| >= 2 && DecodeAll(req[2..]).Some?
    ensures var all := DecodeAll(req[2..]).value;
            (|all| == req[1] as nat <==> |req| <= 513)
            && (|req| <= 513 || |req| >= 517)
            && (|req| <= 513 ==> AllValid(all) && Write(s, ch, req, 3, now).0.reg == Apply(s.reg, all))
  {
    hide DecodeAll, EncodeAll, FirstInvalid, Validate, SetAll, Apply;
    WriteIsTransaction(s, ch, req, 3, now);
    var all, n := DecodeAll(req[2..]).value, req[1] as nat;
    EncodeAfterDecode(req[2..]);
    var head, tail := all[..n], all[n..];
    assert all == head + tail;
    EncodeAllAppend(head, tail);
    ValidSize(head);
    LeastSize(tail);
    assert |tail| == 0 ==> head == all;
    assert |all| % 0x100 == n;
  }

  /** Valid fields take three to ten bytes each. */
  lemma {:induction false} ValidSize(fs: seq<Field>)
    requires AllFit(fs) && AllValid(fs)
    ensures 3 * |fs| <= |EncodeAll(fs)| <= 10 * |fs|
  {
    hide Validate;
    if fs != [] {
      ValidLength(fs[0]);
      ValidSize(fs[1..]);
    }
  }

  lemma ValidLength(f: Field)
    requires Validate(f.id, f.value) == OK
    ensures 1 <= |f.value| <= 8
  {
    hide Get32Be;
  }

  /** Any field takes at least two. */
  lemma LeastSize(fs: seq<Field>)
    requires AllFit(fs)
    ensures 2 * |fs| <= |EncodeAll(fs)| && (fs == [] ==> EncodeAll(fs) == [])
  {
    RoundTrip(fs);
    EncodeAfterDecode(EncodeAll(fs));
  }

  /** Without the size limit phase 1 only sees the number of fields modulo 256. */
  lemma StructureAcceptedIff(req: seq<byte>)
    requires |req| >= 2
    ensures Declared(req).Some? <==>
            req[1] != 0 && exists n: nat :: n % 0x100 == req[1] as nat && IsFieldList(req[2..], n)
  {
    hide DecodeAll, IsFieldList;
    var data := req[2..];
    EncodeAfterDecode(data);
    if DecodeAll(data).Some? {
      DecodesIffFieldList(data, |DecodeAll(data).value|);
    }
    if n: nat :| n % 0x100 == req[1] as nat && IsFieldList(data, n) {
      DecodesIffFieldList(data, n);
    }
  }

  /** The factory-fresh device takes `first`, and only that, from a body of 257 fields declared as one. */
  lemma OnlyFirstIsWritten(s: State, ch: Channel, now: nat, first: Field, filler: seq<Field>, req: seq<byte>)
    requires IsOpen(s.reg) && |filler| == 256 && AllFit([first] + filler) && Validate(first.id, first.value) == OK
    requires req == [CMD_WRITE, 0x01] + EncodeAll([first] + filler)
    ensures DecodeAll(req[2..]) == Some([first] + filler) && !IsFieldList(req[2..], 1)
    ensures Write(s, ch, req, 3, now).1 == [CMD_WRITE, OK, 0x00]
    ensures AllValid([first]) && Write(s, ch, req, 3, now).0.reg == Apply(s.reg, [first])
  {
    hide DecodeAll, EncodeAll, IsFieldList, Apply, Validate, FirstInvalid, Auth.CheckWrite;
    var fs := [first] + filler;
    RoundTrip(fs);
    assert req[2..] == EncodeAll(fs);
    DecodesIffFieldList(req[2..], 1);
    assert Writable(s, ch, req, fs, [first], now);
    WritableIsAccepted(s, ch, req, fs, [first], now);
  }

  /**
   * So on a long body the whole-list promise fails. From a body of 515 bytes only the first field is
   * written; and from one of 771, in which every field is valid, a mode other than the list's last one.
   */
  lemma LongBodyWritesOnlyAPrefix(s: State, ch: Channel, now: nat)
    requires IsOpen(s.reg)
    ensures exists req :: |req| == 517 && !IsFieldList(req[2..], req[1] as nat)
              && Write(s, ch, req, 3, now).1 == [CMD_WRITE, OK, 0x00]
              && AllValid([ModeField(1)]) && Write(s, ch, req, 3, now).0.reg == Apply(s.reg, [ModeField(1)])
    ensures exists req :: |req| == 773 && Write(s, ch, req, 3, now).1 == [CMD_WRITE, OK, 0x00]
              && DecodeAll(req[2..]).Some? && AllValid(DecodeAll(req[2..]).value)
              && Write(s, ch, req, 3, now).0.reg.mode == 1
              && Apply(s.reg, DecodeAll(req[2..]).value).mode == 2
  {
    hide DecodeAll, EncodeAll, IsFieldList, Validate, Write;
    var first := ModeField(1);
    ValidMode(1);
    ValidMode(2);
    SingleField(first);

    var empty := seq(256, i => Field(0, []));
    EmptyFields(empty);
    EncodeAllAppend([first], empty);
    var short := [CMD_WRITE, 0x01] + EncodeAll([first] + empty);
    OnlyFirstIsWritten(s, ch, now, first, empty, short);

    var modes := seq(256, i => ModeField(2));
    SizeOfModes(modes);
    EncodeAllAppend([first], modes);
    var all := [first] + modes;
    var long := [CMD_WRITE, 0x01] + EncodeAll(all);
    OnlyFirstIsWritten(s, ch, now, first, modes, long);
    assert AllValid(all);
    LastMode(s.reg, [], 1);
    LastMode(s.reg, all[..256], 2);
    assert [] + [first] == [first] && all[..256] + [ModeField(2)] == all;
  }

  function ModeField(mode: byte): Field
  {
    Field(MODE, [mode])
  }

  lemma ValidMode(mode: byte)
    requires 1 <= mode <= 3
    ensures Validate(MODE, [mode]) == OK
  {
  }

  lemma {:induction false} SizeOfModes(fs: seq<Field>)
    requires forall f <- fs :: f == ModeField(2)
    ensures AllFit(fs) && |EncodeAll(fs)| == 3 * |fs|
  {
    if fs != [] {
      assert fs[0] in fs && forall f <- fs[1..] :: f in fs;
      SizeOfModes(fs[1..]);
    }
  }

  lemma LastMode(r: Registry, fs: seq<Field>, mode: byte)
    requires AllValid(fs) && 1 <= mode <= 3
    ensures AllValid(fs + [ModeField(mode)]) && Apply(r, fs + [ModeField(mode)]).mode == mode
  {
    ValidMode(mode);
    var all := fs + [ModeField(mode)];
    assert all[..|all| - 1] == fs;
  }

  lemma SingleField(f: Field)
    requires Fits(f)
    ensures EncodeAll([f]) == Encode(f)
  {
    assert EncodeAll([f]) == Encode(f) + EncodeAll([]);
  }

  // ---- CMD 0x01 ----

  /** The ids a read asks for. */
  function Requested(req: seq<byte>): seq<byte>
    requires |req| >= 6 && req[5] as int <= |req| - 6
  {
    if req[5] == 0 then ALL_READABLE else req[6..6 + req[5] as int]
  }

  /** The id list is long enough as the code sees it: its length is computed in a uint8_t. */
  predicate AsksProperly(req: seq<byte>)
  {
    |req| >= 6 && req[5] as int <= (|req| - 6) % 0x100
  }

  /**
   * A read succeeds exactly when the code finds the id list long enough, every id can be read and the
   * listing fits; its reply then decodes back. Without room for a header there is no reply at all.
   */
  lemma ReadReplyDecodesBack(r: Registry, req: seq<byte>, respMax: nat)
    ensures var reply := ReadReply(r, req, respMax);
            if respMax < 3 then reply == []
            else
              && 3 <= |reply| <= respMax
              && (reply[1] == OK <==>
                  AsksProperly(req) && AllReadable(Requested(req)) && ReplySize(r, Requested(req)) <= respMax)
              && (reply[1] == OK ==>
                    |reply| == ReplySize(r, Requested(req)) && reply[2] as int == |Requested(req)|
                    && DecodeAll(reply[3..]) == Some(Values(r, Requested(req))))
  {
    hide Get, EncodeAll, DecodeAll, FirstOverflow, FirstUnreadable;
    if respMax >= 3 && AsksProperly(req) {
      var ids := Requested(req);
      AllListedAreReadable();
      ReplySizeIsEncoded(r, ids);
      RoundTrip(Values(r, ids));
      var reply := ReadReply(r, req, respMax);
      if reply[1] == OK {
        assert reply[3..] == EncodeAll(Values(r, ids));
      }
    }
  }

  /** A refused read names the first id that cannot be read, or else the first for which there is no room. */
  predicate NamesField(r: Registry, req: seq<byte>, respMax: nat, k: nat)
    requires AsksProperly(req) && k < |Requested(req)|
  {
    var ids, reply := Requested(req), ReadReply(r, req, respMax);
    && (AllReadable(ids[..k]) && !IsReadable(ids[k]) ==> reply == [0x01, 0x01, ids[k]])
    && (AllReadable(ids) && ReplySize(r, ids[..k]) <= respMax < ReplySize(r, ids[..k + 1]) ==>
          reply == [0x01, 0xFF, ids[k]])
  }

  lemma RefusalNames(r: Registry, req: seq<byte>, respMax: nat, k: nat)
    requires respMax >= 3 && AsksProperly(req) && k < |Requested(req)|
    ensures NamesField(r, req, respMax, k)
  {
    hide Get, EncodeAll, FirstOverflow, FirstUnreadable, ReplySize, IsReadable;
    var ids := Requested(req);
    AllListedAreReadable();
    if AllReadable(ids[..k]) && !IsReadable(ids[k]) {
      FirstUnreadableAt(ids, k);
      assert ids[k] in ids;
    }
    if ReplySize(r, ids[..k]) <= respMax < ReplySize(r, ids[..k + 1]) {
      OverflowAt(r, ids, respMax, k);
    }
  }

  /** When the id list is found too short, the refusal says so and names none. */
  lemma ReadRefusalNamesTheField(r: Registry, req: seq<byte>, respMax: nat)
    requires respMax >= 3
    ensures if AsksProperly(req) then forall k :: 0 <= k < |Requested(req)| ==> NamesField(r, req, respMax, k)
            else ReadReply(r, req, respMax) == [0x01, 0x05, 0x00]
  {
    hide NamesField, Requested;
    if AsksProperly(req) {
      forall k | 0 <= k < |Requested(req)|
        ensures NamesField(r, req, respMax, k)
      {
        RefusalNames(r, req, respMax, k);
      }
    }
  }

  /**
   * Up to 261 bytes a request that carries its ids is found long enough. The limit is sharp: a request for
   * one readable id, with 255 bytes behind it, is refused.
   */
  lemma LongRequestIsRefused(r: Registry, req: seq<byte>, tail: seq<byte>, respMax: nat)
    requires respMax >= 3 && |tail| == 255
    ensures |req| <= 261 ==> (AsksProperly(req) <==> |req| >= 6 && req[5] as int <= |req| - 6)
    ensures var long := [0x01, 0, 0, 0, 0, 1, MODE] + tail;
            |long| == 262 && long[5] as int <= |long| - 6 && IsReadable(MODE) && !AsksProperly(long)
            && ReadReply(r, long, respMax) == [0x01, 0x05, 0x00]
  {
  }

  /** Field values have fixed lengths, so the size of a reply is known from the ids alone. */
  lemma {:induction false} SizeIsFixed(r: Registry, r': Registry, ids: seq<byte>)
    ensures ReplySize(r, ids) == ReplySize(r', ids)
  {
    hide Get;
    if ids != [] {
      SizeIsFixed(r, r', ids[..|ids| - 1]);
      LengthIsFixed(r, r', ids[|ids| - 1]);
    }
  }

  lemma LengthIsFixed(r: Registry, r': Registry, id: byte)
    ensures |Get(r, id)| == |Get(r', id)|
  {
  }

  /** A read that is answered with a full buffer of 256 bytes; that can be told from the request alone. */
  predicate FillsBuffer(req: seq<byte>)
  {
    && |req| > 0 && req[0] == CMD_READ && AsksProperly(req)
    && AllReadable(Requested(req)) && ReplySize(PowerUp(), Requested(req)) == 256
  }

  /** No other command is answered with as many. */
  lemma LongestReply(s: State, ch: Channel, req: seq<byte>, now: nat, random: Auth.Nonce)
    ensures |Process(s, ch, req, 256, now, random).1| <= 256
    ensures |Process(s, ch, req, 256, now, random).1| == 256 <==> FillsBuffer(req)
  {
    hide ReadReply, Write, Action, Auth.HandleCmd, AllReadable, ReplySize, Requested;
    if |req| == 0 {
    } else if req[0] == CMD_READ {
      ReadReplyDecodesBack(s.reg, req, 256);
      RefusalIsShort(s.reg, req);
      if AsksProperly(req) {
        SizeIsFixed(s.reg, PowerUp(), Requested(req));
      }
    } else {
      OtherRepliesAreShort(s, ch, req, now, random);
    }
  }

  lemma RefusalIsShort(r: Registry, req: seq<byte>)
    ensures |ReadReply(r, req, 256)| >= 2 && (ReadReply(r, req, 256)[1] == OK || |ReadReply(r, req, 256)| == 3)
  {
    hide Get, EncodeAll, FirstOverflow, FirstUnreadable, ReplySize;
    AllListedAreReadable();
  }

  lemma OtherRepliesAreShort(s: State, ch: Channel, req: seq<byte>, now: nat, random: Auth.Nonce)
    requires |req| > 0 && req[0] != CMD_READ
    ensures |Process(s, ch, req, 256, now, random).1| <= 11
  {
    hide Check, Apply, Reset, Confirmed, Auth.CheckWrite, Auth.HandleCmd, Auth.ResetPassword;
    Auth.ReplyLength(s.auth, ch, req, now, random);
  }

  /** Reading everything takes exactly ninety bytes, whatever the values. */
  lemma ReadAllIsNinetyBytes(r: Registry, req: seq<byte>, respMax: nat)
    requires |req| >= 6 && req[5] == 0 && respMax >= 90
    ensures var reply := ReadReply(r, req, respMax);
            |reply| == 90 && reply[..3] == [CMD_READ, OK, 18] && reply[3..] == EncodeAll(Values(r, ALL_READABLE))
  {
    hide EncodeAll, FirstOverflow;
    var ids := ALL_READABLE;
    ReplySizeIsEncoded(r, ids);
    FirstNineFields(r);
    AllEighteenFields(r);
  }

  lemma SizeStep(r: Registry, n: nat)
    requires n < |ALL_READABLE|
    ensures ReplySize(r, ALL_READABLE[..n + 1]) == ReplySize(r, ALL_READABLE[..n]) + 2 + |Get(r, ALL_READABLE[n])|
  {
    ValuesAppend(r, ALL_READABLE, n);
  }

  lemma FirstNineFields(r: Registry)
    ensures ReplySize(r, ALL_READABLE[..9]) == 47
  {
    hide ReplySize, Get;
    SizeStep(r, 0); SizeStep(r, 1); SizeStep(r, 2); SizeStep(r, 3); SizeStep(r, 4);
    SizeStep(r, 5); SizeStep(r, 6); SizeStep(r, 7); SizeStep(r, 8);
    NoFields(r);
    StringLengths(r);
  }

  lemma NoFields(r: Registry)
    ensures ReplySize(r, ALL_READABLE[..0]) == 3
  {
  }

  lemma StringLengths(r: Registry)
    ensures |Get(r, MODEL)| == 8 && |Get(r, SERIAL)| == 6
  {
  }

  lemma AllEighteenFields(r: Registry)
    requires ReplySize(r, ALL_READABLE[..9]) == 47
    ensures ReplySize(r, ALL_READABLE) == 90
  {
    hide ReplySize, Get;
    SizeStep(r, 9); SizeStep(r, 10); SizeStep(r, 11); SizeStep(r, 12); SizeStep(r, 13);
    SizeStep(r, 14); SizeStep(r, 15); SizeStep(r, 16); SizeStep(r, 17);
    assert ALL_READABLE[..18] == ALL_READABLE;
  }

  /** The fields of a device that was never written. */
  function PowerUpFields(): seq<Field>
  {
    [Field(0x01, [0x00]), Field(0x02, [0x01]), Field(0x03, Ascii("RL_TN100")),
     Field(0x04, Ascii("123456")), Field(0x05, [0x01, 0x00, 0x00]), Field(0x06, [0x01, 0x00, 0x00]),
     Field(0x07, [0x20]), Field(0x10, [0x64]), Field(0x11, [0x00, 0xfa]),
     Field(0x12, [0x00, 0x0f]), Field(0x13, [0x00]), Field(0x20, [0x02]),
     Field(0x21, [0x00, 0x00]), Field(0x22, [0x0e, 0xab, 0x00, 0x78, 0x46, 0x5f, 0xe3, 0x94]),
     Field(0x23, [0x01]), Field(0x24, [0x0e, 0xab, 0x00, 0x78]),
     Field(0x25, [0x46, 0x5f, 0xe3, 0x94]), Field(0x26, [0x00, 0x0f])]
  }

  lemma PowerUpListed(i: nat)
    requires i < 18
    ensures |PowerUpFields()| == 18 && PowerUpFields()[i] == Field(ALL_READABLE[i], Get(PowerUp(), ALL_READABLE[i]))
  {
    hide Get, PowerUp;
    PowerUpIdentity();
    PowerUpReadings();
    PowerUpSettings();
  }

  /** Reading everything from such a device. */
  lemma PowerUpReply()
    ensures AllFit(PowerUpFields())
    ensures ReadReply(PowerUp(), [0x01, 0, 0, 0, 0, 0], 256) == [0x01, 0x00, 18] + EncodeAll(PowerUpFields())
  {
    hide Get, PowerUp, EncodeAll, PowerUpFields, FirstOverflow;
    var r, req := PowerUp(), [0x01, 0, 0, 0, 0, 0];
    ReadAllIsNinetyBytes(r, req, 256);
    forall i | 0 <= i < 18
      ensures |PowerUpFields()| == 18 && PowerUpFields()[i] == Values(r, ALL_READABLE)[i]
    {
      PowerUpListed(i);
    }
    assert PowerUpFields() == Values(r, ALL_READABLE);
    var reply := ReadReply(r, req, 256);
    assert reply == reply[..3] + reply[3..];
  }

  // ---- Dispatch ----

  /** Which command a payload is, by its first byte; a read only takes over the time. */
  lemma Dispatch(s: State, ch: Channel, req: seq<byte>, respMax: nat, now: nat, random: Auth.Nonce)
    ensures var (s', reply) := Process(s, ch, req, respMax, now, random);
            if |req| == 0 then s' == s && reply == []
            else if req[0] == 0x01 then
              && reply == ReadReply(s.reg, req, respMax) && s'.reg == s.reg && s'.auth == s.auth
              && s'.unixtime as nat == (if |req| < 6 then s.unixtime as nat else FromBigEndian(req[1..5]))
            else if req[0] == 0x02 then (s', reply) == Write(s, ch, req, respMax, now)
            else if req[0] == 0x03 then
              s' == s.(auth := s'.auth) && (s'.auth, reply) == Auth.HandleCmd(s.auth, ch, req, now, random)
            else if req[0] == 0x04 then (s', reply) == Action(s, ch, req, respMax, now)
            else s' == s && reply == if respMax < 2 then [] else [req[0], 0x01]
  {
    hide ReadReply, Write, Action, Auth.HandleCmd, FromBigEndian, Get32Be;
    if |req| >= 6 {
      Get32IsBigEndian(req[1..5]);
    }
  }

  /** A small buffer hides the reply of a write or an action and changes nothing else. */
  lemma LimitHidesReply(s: State, ch: Channel, req: seq<byte>, respMax: nat, now: nat)
    ensures Write(s, ch, req, respMax, now).0 == Write(s, ch, req, 256, now).0
    ensures Action(s, ch, req, respMax, now).0 == Action(s, ch, req, 256, now).0
    ensures var full := Write(s, ch, req, 256, now).1;
            Write(s, ch, req, respMax, now).1 == if respMax < |full| then [] else full
    ensures var full := Action(s, ch, req, 256, now).1;
            Action(s, ch, req, respMax, now).1 == if respMax < |full| then [] else full
  {
    hide Check, Apply, Auth.CheckWrite, Auth.ResetPassword, Reset, Confirmed;
  }

  /** What each action does on a channel with permission `p`, and its reply. */
  lemma ActionIs(s: State, ch: Channel, req: seq<byte>, now: nat)
    requires |req| > 0 && req[0] == 0x04
    ensures var p := Auth.CheckWrite(s.auth, ch, now).1;
            var (s', reply) := Action(s, ch, req, 256, now);
            && s'.unixtime == s.unixtime
            && if |req| == 1 then s' == s && reply == [0x04, 0x05, 0x00, 0x00]
               else if req[1] == 0x01 then s'.reg == s.reg.(deviceState := 0x01) && reply == [0x04, 0x00, 0x01, 0x01]
               else if req[1] != 0x02 && req[1] != 0x03 then s' == s && reply == [0x04, 0x01, req[1]]
               else if p != 0x00 then s'.reg == s.reg && reply == [0x04, p, req[1], s.reg.deviceState]
               else if req[1] == 0x02 then s'.reg == s.reg.(deviceState := 0x02) && reply == [0x04, 0x00, 0x02, 0x02]
               else if |req| >= 9 && req[2..9] == Ascii("FACTORY") then
                 && reply == [0x04, 0x00, 0x03, 0x00] && s'.auth.hash == Auth.DefaultHash()
                 && !s'.reg.initDone && s'.reg.deviceState == 0x00
                 && forall id :: Get(s'.reg, id) ==
                                 if id in {0x10, 0x11, 0x12, 0x13} then Get(s.reg, id) else Get(PowerUp(), id)
               else s'.reg == s.reg && reply == [0x04, 0x06, 0x03, s.reg.deviceState]
  {
    hide Auth.CheckWrite, Auth.DefaultHash, Get, PowerUp;
    assert CONFIRMATION == Ascii("FACTORY");
    forall id
      ensures Get(Reset(s.reg), id) == if id in {0x10, 0x11, 0x12, 0x13} then Get(s.reg, id) else Get(PowerUp(), id)
    {
      ReadsAfterReset(s.reg, id);
    }
  }

  // ---- Writing and reading together ----

  /** A write on the wire: the interval of a fresh device becomes ten minutes. */
  lemma IntervalOnTheWire(s: State, ch: Channel, now: nat)
    requires s.reg == PowerUp()
    ensures var (s', reply) := Write(s, ch, [0x02, 0x01, 0x21, 0x02, 0x00, 0x0A], 256, now);
            && reply == [0x02, 0x00, 0x00]
            && s'.reg == PowerUp().(updateInterval := 10, deviceState := 0x01, initDone := true)
  {
    hide DecodeAll, Check, Auth.CheckWrite;
    GetIsBigEndian(0x00, 0x0A, 0, 0);
    var req, f := [0x02, 0x01, 0x21, 0x02, 0x00, 0x0A], Field(0x21, [0x00, 0x0A]);
    SingleField(f);
    assert EncodeAll([f]) == req[2..];
    ValidateIs(0x21, f.value);
    assert Writable(s, ch, req, [f], [f], now);
    WritableIsAccepted(s, ch, req, [f], [f], now);
    assert [f][..0] == [] && f.value[..2] == [0x00, 0x0A];
    ApplyIsFold(s.reg, [f]);
    assert SetAll(s.reg, []) == s.reg;
    assert SetAll(s.reg, [f]) == Set(s.reg, 0x21, f.value);
  }

  /** After a successful write every field written holds the last value in the list, and a location sets the position. */
  lemma WrittenValues(s: State, ch: Channel, req: seq<byte>, all: seq<Field>, fs: seq<Field>, now: nat, k: nat)
    requires Declares(req, all, fs) && Write(s, ch, req, 3, now).1 == [CMD_WRITE, OK, 0x00]
    requires k < |fs| && LastWith(fs, k, fs[k].id)
    ensures var r' := Write(s, ch, req, 3, now).0.reg;
            && IsWritable(fs[k].id) && Get(r', fs[k].id) == fs[k].value
            && (fs[k].id == INSTALL_LOCATION ==>
                  |fs[k].value| == 8 && Get(r', LATITUDE) == fs[k].value[..4] && Get(r', LONGITUDE) == fs[k].value[4..])
  {
    hide DecodeAll, EncodeAll, SetAll, Get, Write, Validate, Apply;
    WriteIsTransaction(s, ch, req, 3, now);
    RoundTrip(all);
    assert fs == all[..|fs|];
    assert fs[k] in fs;
    ValidIsWritable(fs[k].id, fs[k].value);
    GetAfterSetAll(s.reg, fs, k);
    ApplyIsFold(s.reg, fs);
    var done := SetAll(s.reg, fs);
    StateDoesNotShow(done, POWER_ON, true, fs[k].id);
    StateDoesNotShow(done, POWER_ON, true, LATITUDE);
    StateDoesNotShow(done, POWER_ON, true, LONGITUDE);
  }

  /** Reading one field right after a successful write that set it returns the last value written. */
  lemma ReadAfterWrite(
    s: State, ch: Channel, req: seq<byte>, all: seq<Field>, fs: seq<Field>, now: nat, k: nat, read: seq<byte>)
    requires Declares(req, all, fs) && Write(s, ch, req, 3, now).1 == [CMD_WRITE, OK, 0x00]
    requires k < |fs| && LastWith(fs, k, fs[k].id) && read == [CMD_READ, 0, 0, 0, 0, 1, fs[k].id]
    ensures Fits(fs[k]) && ReadReply(Write(s, ch, req, 3, now).0.reg, read, 256) == [CMD_READ, OK, 1] + Encode(fs[k])
  {
    hide *;
    DeclaredFits(req, all, fs, k);
    WrittenValues(s, ch, req, all, fs, now, k);
    WritableIsReadable(fs[k].id);
    ReadOne(Write(s, ch, req, 3, now).0.reg, fs[k].id);
  }

  lemma DeclaredFits(req: seq<byte>, all: seq<Field>, fs: seq<Field>, k: nat)
    requires Declares(req, all, fs) && k < |fs|
    ensures Fits(fs[k])
  {
    assert fs[k] == all[k];
  }

  lemma WritableIsReadable(id: byte)
    ensures IsWritable(id) ==> IsReadable(id)
  {
  }

  lemma ReadOne(r: Registry, id: byte)
    requires IsReadable(id)
    ensures ReadReply(r, [CMD_READ, 0, 0, 0, 0, 1, id], 256) == [CMD_READ, OK, 1] + Encode(Field(id, Get(r, id)))
  {
    hide Get, FirstUnreadable, Listing, Encode;
    var req := [CMD_READ, 0, 0, 0, 0, 1, id];
    assert req[6..7] == [id];
    SingleListing(r, id);
  }

  lemma StateDoesNotShow(r: Registry, st: byte, done: bool, id: byte)
    ensures id != DEVICE_STATE ==> Get(r.(deviceState := st, initDone := done), id) == Get(r, id)
    ensures IsWritable(id) ==> id != DEVICE_STATE
  {
    hide Put32Be, Put16Be;
  }

  lemma SingleListing(r: Registry, id: byte)
    requires IsReadable(id)
    ensures FirstUnreadable([id]).None? && Listing(r, [id], 256) == [CMD_READ, OK, 1] + Encode(Field(id, Get(r, id)))
  {
    hide Get, FirstOverflow;
    var f := Field(id, Get(r, id));
    assert Values(r, [id]) == [f];
    SingleField(f);
    assert [id][1..] == [];
  }
}
