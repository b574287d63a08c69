/** Whole runs of the device: life-cycle, registry invariants, and the tie to the authentication histories. */
module DeviceRuns {
  import opened Bytes
  import opened Wire
  import opened Tlv
  import opened Fields
  import opened Protocol
  import Auth
  import A = AuthRuns
  import P = ProtocolTheorems

  datatype Event =
    | Payload(ch: Channel, req: seq<byte>, respMax: nat, now: nat, random: Auth.Nonce)
    | BleDisconnect(now: nat)
    | Sensors(battery: byte, temperature: i16, distance: u16, position: byte, now: nat)
    | AuthInit(now: nat)    // app_auth_init
    | FieldsInit(now: nat)  // app_fields_init

  function Next(s: State, e: Event): Answer
  {
    match e
    case Payload(ch, req, respMax, now, random) => Process(s, ch, req, respMax, now, random)
    case BleDisconnect(_) => (s.(auth := Auth.Disconnect(s.auth)), [])
    case Sensors(b, t, d, p, _) =>
      (s.(reg := s.reg.(battery := b, temperature := t, distance := d, position := p)), [])
    case AuthInit(_) => (InitAuth(s), [])
    case FieldsInit(_) => (InitFields(s), [])
  }

  /**
   * The state after a run from power-up on. The NFC field is sensed before main calls the two
   * initialisations, so these are events of the run and commands may come in earlier.
   */
  function Run(events: seq<Event>): State
  {
    if events == [] then Initial() else Next(Run(events[..|events| - 1]), events[|events| - 1]).0
  }

  predicate Monotone(events: seq<Event>)
  {
    forall i, j :: 0 <= i < j < |events| ==> events[i].now <= events[j].now
  }

  // ---- Invariants of every reachable state ----

  predicate Healthy(s: State)
  {
    && InRange(s.reg)
    && s.reg.deviceState in {FACTORY, POWER_ON, POWER_OFF}
    && (s.reg.deviceState == FACTORY ==> !s.reg.initDone)
  }

  lemma HealthyWrite(s: State, ch: Channel, req: seq<byte>, respMax: nat, now: nat)
    requires Healthy(s)
    ensures Healthy(Write(s, ch, req, respMax, now).0)
  {
    hide SetAll, Check, Auth.CheckWrite, Get32Be;
    if Check(req).Accepted? {
      SetAllInRange(s.reg, Check(req).fields);
      SetAllKeepsState(s.reg, Check(req).fields);
    }
  }

  lemma HealthyAction(s: State, ch: Channel, req: seq<byte>, respMax: nat, now: nat)
    requires Healthy(s)
    ensures Healthy(Action(s, ch, req, respMax, now).0)
  {
    hide Auth.CheckWrite, Auth.ResetPassword, Confirmed;
  }

  lemma HealthyStep(s: State, e: Event)
    requires Healthy(s)
    ensures Healthy(Next(s, e).0)
  {
    hide Write, Action, Auth.HandleCmd, Get32Be, ReadReply;
    if e.Payload? {
      HealthyWrite(s, e.ch, e.req, e.respMax, e.now);
      HealthyAction(s, e.ch, e.req, e.respMax, e.now);
    }
  }

  /** In every reachable state mode and coordinates are in range, the position agrees, and FACTORY means uninitialised. */
  lemma {:induction false} AlwaysHealthy(events: seq<Event>)
    ensures Healthy(Run(events))
  {
    hide Next, Healthy;
    if events == [] {
      InitiallyHealthy();
    } else {
      AlwaysHealthy(events[..|events| - 1]);
      HealthyStep(Run(events[..|events| - 1]), events[|events| - 1]);
    }
  }

  lemma InitiallyHealthy()
    ensures Healthy(Initial())
  {
    hide Auth.Initial;
  }

  // ---- The factory state ----

  /** An authenticated factory reset carrying the confirmation. */
  predicate IsFactoryReset(s: State, e: Event)
  {
    && e.Payload? && |e.req| >= 2 && e.req[0] == CMD_ACTION && e.req[1] == 0x03 && Confirmed(e.req)
    && Auth.CheckWrite(s.auth, e.ch, e.now).1 == OK
  }

  predicate Renews(s: State, e: Event)
  {
    IsFactoryReset(s, e) || e.FieldsInit?
  }

  /** FACTORY is entered again, and initialisation forgotten, only by such a reset or at start-up; a reset does both. */
  lemma OnlyResetReturnsToFactory(s: State, e: Event)
    ensures Next(s, e).0.reg.deviceState == FACTORY && s.reg.deviceState != FACTORY ==> Renews(s, e)
    ensures s.reg.initDone && !Next(s, e).0.reg.initDone ==> Renews(s, e)
    ensures Renews(s, e) ==> IsOpen(Next(s, e).0.reg)
    ensures IsFactoryReset(s, e) ==> Next(s, e).0.auth.hash == Auth.DefaultHash()
  {
    hide SetAll, Check, Auth.CheckWrite, Auth.HandleCmd, Auth.DefaultHash;
    if e.Payload? && Check(e.req).Accepted? {
      SetAllKeepsState(s.reg, Check(e.req).fields);
    }
  }

  /** What else moves the life-cycle: power-off needs permission, power-on is free or ends the factory state. */
  lemma LifeCycle(s: State, e: Event)
    requires Next(s, e).0.reg.deviceState != s.reg.deviceState
    ensures e.FieldsInit? || (e.Payload? && |e.req| >= 2)
    ensures Next(s, e).0.reg.deviceState == POWER_OFF ==>
              e.Payload? && e.req[..2] == [CMD_ACTION, 0x02] && Auth.CheckWrite(s.auth, e.ch, e.now).1 == OK
    ensures Next(s, e).0.reg.deviceState == POWER_ON ==>
              e.Payload? && (e.req[..2] == [CMD_ACTION, 0x01] || SkipsCheck(s, e))
    ensures Next(s, e).0.reg.deviceState in {FACTORY, POWER_ON, POWER_OFF}
  {
    hide SetAll, Check, Auth.CheckWrite, Auth.HandleCmd, Auth.DefaultHash, Declared;
    if e.Payload? && Check(e.req).Accepted? {
      SetAllKeepsState(s.reg, Check(e.req).fields);
      AcceptedHasBody(e.req);
    }
  }

  lemma AcceptedHasBody(req: seq<byte>)
    requires Check(req).Accepted?
    ensures |req| >= 2
  {
    hide FirstInvalid, DecodeAll;
  }

  /** A successful write that was let through without the permission check. */
  predicate SkipsCheck(s: State, e: Event)
  {
    e.Payload? && |e.req| >= 1 && e.req[0] == CMD_WRITE && IsOpen(s.reg) && Check(e.req).Accepted?
  }

  lemma SkippingEndsFactory(s: State, e: Event)
    requires SkipsCheck(s, e)
    ensures Next(s, e).0.reg.initDone && Next(s, e).0.reg.deviceState == POWER_ON
    ensures e.respMax >= 3 ==> Next(s, e).1 == [CMD_WRITE, OK, 0x00]
  {
    hide SetAll, Check, Auth.CheckWrite;
    SetAllKeepsState(s.reg, Check(e.req).fields);
  }

  lemma {:induction false} InitDonePersists(events: seq<Event>, i: nat, j: nat)
    requires i <= j <= |events| && Run(events[..i]).reg.initDone && !Run(events[..j]).reg.initDone
    ensures exists k :: i <= k < j && Renews(Run(events[..k]), events[k])
  {
    hide Next, Renews, IsFactoryReset;
    if i < j {
      var s := Run(events[..j - 1]);
      assert events[..j][..j - 1] == events[..j - 1];
      if s.reg.initDone {
        OnlyResetReturnsToFactory(s, events[j - 1]);
      } else {
        InitDonePersists(events, i, j - 1);
      }
    }
  }

  /** Any two writes that skipped the permission check have a factory reset, or app_fields_init, between them. */
  lemma SkippedChecksAreSeparated(events: seq<Event>, i: nat, j: nat)
    requires i < j < |events|
    requires SkipsCheck(Run(events[..i]), events[i]) && SkipsCheck(Run(events[..j]), events[j])
    ensures exists k :: i < k < j && Renews(Run(events[..k]), events[k])
  {
    hide Next, Renews, IsFactoryReset;
    SkippingEndsFactory(Run(events[..i]), events[i]);
    assert events[..i + 1][..i] == events[..i];
    InitDonePersists(events, i + 1, j);
  }

  /** The start-up matters: a write that comes in before app_fields_init is forgotten, and a second one is let through. */
  lemma EarlyWriteIsForgotten(random: Auth.Nonce)
    ensures var w := Payload(NFC, [CMD_WRITE, 1, MODE, 1, 1], 256, 0, random); var events := [w, FieldsInit(0), w];
            SkipsCheck(Run(events[..0]), events[0]) && SkipsCheck(Run(events[..2]), events[2])
            && forall k :: 0 <= k < |events| ==> !IsFactoryReset(Run(events[..k]), events[k])
  {
    hide Check, Next, Auth.CheckWrite, Auth.Initial;
    var w := Payload(NFC, [CMD_WRITE, 1, MODE, 1, 1], 256, 0, random);
    var events := [w, FieldsInit(0), w];
    ModeWriteAccepted();
    assert events[..2][..1] == events[..1];
    OnlyResetReturnsToFactory(Run(events[..1]), events[1]);
  }

  lemma ModeWriteAccepted()
    ensures Check([CMD_WRITE, 1, MODE, 1, 1]).Accepted?
  {
    hide DecodeAll;
    var fs, req := [P.ModeField(1)], [CMD_WRITE, 1, MODE, 1, 1];
    P.ValidMode(1);
    P.SingleField(fs[0]);
    assert req[2..] == EncodeAll(fs);
    P.DeclaresIsDeclared(req, fs, fs);
    assert fs[..1] == fs;
    FirstInvalidFrom(fs, 1);
  }

  // ---- The device as an authentication run ----

  /** What an event of the device is for the authentication module. */
  function AuthEvents(s: State, e: Event): seq<A.Event>
  {
    match e
    case BleDisconnect(now) => [A.BleDisconnect(now)]
    case Sensors(_, _, _, _, _) => []
    case AuthInit(now) => [A.Init(now)]
    case FieldsInit(_) => []
    case Payload(ch, req, _, now, random) =>
      if |req| < 1 then []
      else if req[0] == CMD_AUTH then [A.Command(ch, req, now, random)]
      else if req[0] == CMD_WRITE then
        if Check(req).Accepted? && !IsOpen(s.reg) then [A.Check(ch, now)] else []
      else if req[0] == CMD_ACTION && |req| >= 2 && (req[1] == 0x02 || req[1] == 0x03) then
        [A.Check(ch, now)] + (if IsFactoryReset(s, e) then [A.PasswordReset(ch, now)] else [])
      else []
  }

  function AuthTrace(events: seq<Event>): seq<A.Event>
  {
    if events == [] then []
    else
      var pre := events[..|events| - 1];
      AuthTrace(pre) + AuthEvents(Run(pre), events[|events| - 1])
  }

  lemma RunOne(a: Auth.State, e: A.Event)
    ensures A.Run(a, [e]) == (A.Next(a, e).0, [A.Step(e, A.Next(a, e).1)])
  {
    hide A.Next;
    assert [e][..0] == [];
    assert [e][0] == e;
    assert A.Run(a, [e][..0]) == (a, []);
    assert A.Run(a, [e]).1 == [A.Step(e, A.Next(a, e).1)];
  }

  lemma {:induction false} RunConcat(a: Auth.State, es: seq<A.Event>, fs: seq<A.Event>)
    ensures A.Run(a, es + fs).0 == A.Run(A.Run(a, es).0, fs).0
    ensures A.Run(a, es + fs).1 == A.Run(a, es).1 + A.Run(A.Run(a, es).0, fs).1
  {
    hide A.Next;
    if fs == [] {
      assert es + fs == es;
    } else {
      var n := |fs| - 1;
      RunConcat(a, es, fs[..n]);
      assert (es + fs)[..|es + fs| - 1] == es + fs[..n];
    }
  }

  lemma RunNone(a: Auth.State)
    ensures A.Run(a, []) == (a, [])
  {
  }

  // What of an authentication history can be seen from outside: CMD 0x03 payloads and lost links.

  datatype Step = Step(event: Event, reply: seq<byte>)

  /** The events of a run with the replies the device sends. */
  function Observed(events: seq<Event>): (h: seq<Step>)
    ensures |h| == |events|
  {
    if events == [] then []
    else
      var pre, e := events[..|events| - 1], events[|events| - 1];
      Observed(pre) + [Step(e, Next(Run(pre), e).1)]
  }

  function AuthStep(st: Step): A.History
  {
    match st.event
    case Payload(ch, req, _, now, random) =>
      if |req| >= 1 && req[0] == CMD_AUTH then [A.Step(A.Command(ch, req, now, random), st.reply)] else []
    case BleDisconnect(now) => [A.Step(A.BleDisconnect(now), [])]
    case Sensors(_, _, _, _, _) => []
    case AuthInit(_) => []
    case FieldsInit(_) => []
  }

  /** The CMD 0x03 payloads and lost links of an observed device run, with the replies. */
  function AuthHistory(h: seq<Step>): A.History
  {
    if h == [] then [] else AuthHistory(h[..|h| - 1]) + AuthStep(h[|h| - 1])
  }

  /** The same of a history of the authentication module. */
  function Visible(h: A.History): A.History
  {
    if h == [] then []
    else
      var st := h[|h| - 1];
      Visible(h[..|h| - 1]) + (if st.event.Command? || st.event.BleDisconnect? then [st] else [])
  }

  lemma {:induction false} VisibleConcat(g: A.History, h: A.History)
    ensures Visible(g + h) == Visible(g) + Visible(h)
  {
    if h == [] {
      assert g + h == g;
    } else {
      var n := |h| - 1;
      VisibleConcat(g, h[..n]);
      assert (g + h)[..|g + h| - 1] == g + h[..n];
    }
  }

  lemma VisibleOne(st: A.Step)
    ensures Visible([st]) == if st.event.Command? || st.event.BleDisconnect? then [st] else []
  {
    assert [st][..0] == [];
  }

  lemma SimulationStep(s: State, e: Event)
    ensures var (a, h) := A.Run(s.auth, AuthEvents(s, e));
            a == Next(s, e).0.auth && Visible(h) == AuthStep(Step(e, Next(s, e).1))
  {
    hide A.Run, Visible, Auth.CheckWrite, Auth.HandleCmd, Auth.ResetPassword, Check, Apply, Reset, Confirmed;
    var es := AuthEvents(s, e);
    RunNone(s.auth);
    NothingVisible();
    if |es| == 1 {
      assert es == [es[0]];
      RunOne(s.auth, es[0]);
      VisibleOne(A.Step(es[0], A.Next(s.auth, es[0]).1));
    } else if |es| == 2 {
      assert es == [es[0]] + [es[1]];
      var a := A.Next(s.auth, es[0]).0;
      var first, second := A.Step(es[0], A.Next(s.auth, es[0]).1), A.Step(es[1], A.Next(a, es[1]).1);
      RunConcat(s.auth, [es[0]], [es[1]]);
      RunOne(s.auth, es[0]);
      RunOne(a, es[1]);
      VisibleConcat([first], [second]);
      VisibleOne(first);
      VisibleOne(second);
    }
  }

  lemma NothingVisible()
    ensures Visible([]) == []
  {
  }

  /**
   * Every run of the device is, for the authentication module, the run of the events it causes there: the
   * states agree, and so do all CMD 0x03 payloads, lost links and replies.
   */
  lemma {:induction false} DeviceRefinesAuth(events: seq<Event>)
    ensures Run(events).auth == A.Run(Auth.Initial(), AuthTrace(events)).0
    ensures AuthHistory(Observed(events)) == Visible(A.Observed(AuthTrace(events)))
  {
    hide Next, AuthEvents, AuthStep, Auth.Initial;
    if events == [] {
      RunNone(Auth.Initial());
    } else {
      var pre, e := events[..|events| - 1], events[|events| - 1];
      DeviceRefinesAuth(pre);
      SimulationStep(Run(pre), e);
      RunConcat(Auth.Initial(), AuthTrace(pre), AuthEvents(Run(pre), e));
      VisibleConcat(A.Observed(AuthTrace(pre)), A.Run(Run(pre).auth, AuthEvents(Run(pre), e)).1);
      assert Observed(events)[..|events| - 1] == Observed(pre);
    }
  }

  /** A look-up of the permission is answered: a refusal is what the device replies, and only then it says so. */
  lemma PermissionIsReported(s: State, e: Event)
    requires e.Payload? && e.respMax >= 4 && AuthEvents(s, e) != [] && AuthEvents(s, e)[0].Check?
    ensures var st := A.Next(s.auth, AuthEvents(s, e)[0]).1[0]; var reply := Next(s, e).1;
            && |reply| >= 3 && reply[0] == e.req[0]
            && (if st == OK then reply[1] == OK || reply[1] == PARAM_VALUE else reply[1] == st)
  {
    hide Auth.CheckWrite, Check, Apply, Reset, Confirmed, Read, Auth.HandleCmd, Auth.ResetPassword, Auth.Disconnect;
  }

  lemma {:induction false} TraceIsMonotone(events: seq<Event>)
    requires Monotone(events)
    ensures A.Monotone(AuthTrace(events))
    ensures forall t <- AuthTrace(events) :: |events| > 0 && t.now <= events[|events| - 1].now
  {
    hide Run, IsFactoryReset, Check, IsOpen;
    if events != [] {
      var pre, e := events[..|events| - 1], events[|events| - 1];
      TraceIsMonotone(pre);
      AppendLater(AuthTrace(pre), AuthEvents(Run(pre), e), e.now);
    }
  }

  lemma AppendLater(es: seq<A.Event>, fs: seq<A.Event>, now: nat)
    requires A.Monotone(es) && (forall e <- es :: e.now <= now) && (forall f <- fs :: f.now == now)
    ensures A.Monotone(es + fs) && forall e <- es + fs :: e.now <= now
  {
  }

  lemma SessionOfMore(g: A.History, h: A.History, st: A.Step, ch: Channel)
    requires A.LastSession(g, ch) == A.LastSession(h, ch)
    ensures A.LastSession(g + [st], ch) == A.LastSession(h + [st], ch)
    ensures !st.event.Command? && !st.event.BleDisconnect? ==> A.LastSession(h + [st], ch) == A.LastSession(h, ch)
  {
    assert (g + [st])[..|g|] == g && (h + [st])[..|h|] == h;
  }

  /** Only what is visible makes up a session. */
  lemma {:induction false} SessionIsVisible(h: A.History, ch: Channel)
    ensures A.LastSession(Visible(h), ch) == A.LastSession(h, ch)
  {
    hide A.LastSession;
    if h != [] {
      var pre, st := h[..|h| - 1], h[|h| - 1];
      SessionIsVisible(pre, ch);
      SessionOfMore(Visible(pre), pre, st, ch);
      assert pre + [st] == h;
      assert Visible(h) == if st.event.Command? || st.event.BleDisconnect? then Visible(pre) + [st] else Visible(pre);
    }
  }

  /** The last session event of a channel, from the payloads the device has received and the replies it has sent. */
  function LastSession(events: seq<Event>, ch: Channel): A.Session
  {
    A.LastSession(AuthHistory(Observed(events)), ch)
  }

  lemma SessionOfTrace(events: seq<Event>, ch: Channel)
    ensures LastSession(events, ch) == A.LastSession(A.Observed(AuthTrace(events)), ch)
  {
    hide Observed, AuthHistory, A.LastSession, Visible, A.Observed, AuthTrace;
    DeviceRefinesAuth(events);
    SessionIsVisible(A.Observed(AuthTrace(events)), ch);
  }

  /** BLE is unlocked exactly as long as its last session event is a token success on this connection. */
  lemma BleSession(events: seq<Event>)
    ensures Run(events).auth.bleUnlocked <==> LastSession(events, BLE).OpenSince?
  {
    hide Run, LastSession, A.LastSession, A.Observed, AuthTrace, Auth.Initial;
    SessionOfTrace(events, BLE);
    DeviceRefinesAuth(events);
    A.UntimedExplained(AuthTrace(events));
  }

  lemma SessionPermits(events: seq<Event>, ch: Channel, now: nat)
    requires Monotone(events) && (|events| > 0 ==> events[|events| - 1].now <= now)
    ensures var session := LastSession(events, ch);
            Auth.CheckWrite(Run(events).auth, ch, now).1 == OK <==>
            session.OpenSince? && (ch.NFC? ==> now <= session.t + 300_000)
  {
    hide *;
    TraceIsMonotone(events);
    DeviceRefinesAuth(events);
    SessionOfTrace(events, ch);
    var t := AuthTrace(events);
    if |t| > 0 {
      assert t[|t| - 1] in t;
    }
    A.CheckWriteRefinesHistory(t, ch, now);
    PermissionIsSession(A.Observed(t), ch, now);
  }

  lemma PermissionIsSession(h: A.History, ch: Channel, now: nat)
    ensures var session := A.LastSession(h, ch);
            A.PermissionAt(h, ch, now) == OK <==> session.OpenSince? && (ch.NFC? ==> now <= session.t + 300_000)
  {
    hide A.LastSession, A.ExpiryNoticed;
  }

  /** End to end: power-off and factory reset take effect exactly when the session of the channel permits it. */
  lemma ActionPermission(events: seq<Event>, ch: Channel, req: seq<byte>, now: nat)
    requires Monotone(events) && (|events| > 0 ==> events[|events| - 1].now <= now)
    requires |req| >= 2 && req[0] == 0x04 && req[1] in {0x02, 0x03}
    ensures var s := Run(events); var session := LastSession(events, ch);
            var (s', reply) := Action(s, ch, req, 256, now);
            if session.OpenSince? && (ch.NFC? ==> now <= session.t + 300_000) then
              if req[1] == 0x02 then s'.reg == s.reg.(deviceState := 0x02) && reply == [0x04, 0x00, 0x02, 0x02]
              else if |req| >= 9 && req[2..9] == Ascii("FACTORY") then
                IsOpen(s'.reg) && s'.auth.hash == Auth.DefaultHash() && reply == [0x04, 0x00, 0x03, 0x00]
              else s'.reg == s.reg && reply == [0x04, 0x06, 0x03, s.reg.deviceState]
            else
              s'.reg == s.reg && (reply == [0x04, 0x0B, req[1], s.reg.deviceState]
                                  || reply == [0x04, 0x0C, req[1], s.reg.deviceState])
  {
    hide Run, Action, LastSession, Auth.CheckWrite, Auth.DefaultHash;
    SessionPermits(events, ch, now);
    RefusalStatus(Run(events).auth, ch, now);
    P.ActionIs(Run(events), ch, req, now);
  }

  lemma RefusalStatus(a: Auth.State, ch: Channel, now: nat)
    ensures Auth.CheckWrite(a, ch, now).1 in {0x00, 0x0B, 0x0C}
  {
  }

  /**
   * End to end: a well-formed write to an initialised device is accepted over NFC exactly when the last
   * NFC session event was a token success at most five minutes ago, and over BLE exactly when the last
   * BLE session event was a token success on this connection.
   */
  lemma WritePermission(events: seq<Event>, ch: Channel, req: seq<byte>, now: nat)
    requires Monotone(events) && (|events| > 0 ==> events[|events| - 1].now <= now)
    ensures var s := Run(events); var session := LastSession(events, ch);
            Check(req).Accepted? && !IsOpen(s.reg) ==>
              (Write(s, ch, req, 3, now).1 == [CMD_WRITE, OK, 0x00] <==>
               session.OpenSince? && (ch.NFC? ==> now <= session.t + 300_000))
  {
    hide Run, Check, Apply, IsOpen, LastSession, Auth.CheckWrite;
    SessionPermits(events, ch, now);
  }
}
