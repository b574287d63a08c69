/**
 * Whole runs of the two-channel authentication state machine. The right-hand sides here are plain
 * functions of what can be observed, the commands received and the replies sent, and never of the
 * state of src/app_auth.c.
 */
module AuthRuns {
  import opened Bytes
  import opened Wire
  import opened Hmac
  import opened Fips180
  import opened Auth

  datatype Event =
    | Command(ch: Channel, data: seq<byte>, now: nat, random: Nonce)
    | Check(ch: Channel, now: nat)  // a write, power-off, reset or OTA command asks for permission
    | BleDisconnect(now: nat)
    | PasswordReset(ch: Channel, now: nat)  // a factory reset ordered over `ch`
    | Init(now: nat)  // app_auth_init: NFC commands may come in before it

  datatype Step = Step(event: Event, reply: seq<byte>)
  type History = seq<Step>

  function Next(s: State, e: Event): (State, seq<byte>)
  {
    match e
    case Command(ch, data, now, random) => HandleCmd(s, ch, data, now, random)
    case Check(ch, now) => var (s', st) := CheckWrite(s, ch, now); (s', [st])
    case BleDisconnect(_) => (Disconnect(s), [])
    case PasswordReset(_, _) => (ResetPassword(s), [])
    case Init(_) => (ResetPassword(s), [])
  }

  /** The state after a run, and what was observed on the way. */
  function Run(s: State, events: seq<Event>): (r: (State, History))
    ensures |r.1| == |events| && forall i :: 0 <= i < |events| ==> r.1[i].event == events[i]
  {
    if events == [] then (s, [])
    else
      var (s1, h1) := Run(s, events[..|events| - 1]);
      var e := events[|events| - 1];
      var (s2, reply) := Next(s1, e);
      (s2, h1 + [Step(e, reply)])
  }

  /** What is observed when `events` happen from power-up on. */
  function Observed(events: seq<Event>): (h: History)
    ensures |h| == |events| && forall i :: 0 <= i < |events| ==> h[i].event == events[i]
  {
    Run(Initial(), events).1
  }

  /** The clock never goes back. */
  predicate Monotone(events: seq<Event>)
  {
    forall i, j :: 0 <= i < j < |events| ==> events[i].now <= events[j].now
  }

  // ---- What can be observed ----

  predicate IsSubcommand(e: Event, ch: Channel, subcmd: byte)
  {
    e.Command? && e.ch == ch && |e.data| >= 2 && e.data[0] == CMD_AUTH && e.data[1] == subcmd
  }

  predicate IsNonceRequest(e: Event, ch: Channel) { IsSubcommand(e, ch, SUBCMD_NONCE) }
  predicate IsLock(e: Event, ch: Channel) { IsSubcommand(e, ch, SUBCMD_LOCK) }
  predicate IsTokenSubmission(e: Event, ch: Channel) { IsSubcommand(e, ch, SUBCMD_TOKEN) && |e.data| >= 34 }
  predicate IsDrop(e: Event, ch: Channel) { ch.BLE? && e.BleDisconnect? }

  /** The events at which the write permission of `ch` is looked up. */
  predicate IsPermissionCheck(e: Event, ch: Channel)
  {
    (e.Check? && e.ch == ch) || IsSubcommand(e, ch, SUBCMD_CHANGE_PWD)
  }

  /** The permission found by such an event, as its reply shows it. */
  function Permission(st: Step): byte
    requires IsPermissionCheck(st.event, BLE) || IsPermissionCheck(st.event, NFC)
  {
    if st.event.Check? then (if |st.reply| == 1 then st.reply[0] else UNKNOWN)
    else if |st.reply| != 3 then UNKNOWN
    else if st.reply[1] == PARAM_LEN then OK
    else st.reply[1]
  }

  predicate TokenAccepted(st: Step, ch: Channel)
  {
    IsTokenSubmission(st.event, ch) && st.reply == [CMD_AUTH, OK, SUBCMD_TOKEN, UNLOCKED]
  }

  predicate TokenRefused(st: Step, ch: Channel)
  {
    IsTokenSubmission(st.event, ch) && st.reply == [CMD_AUTH, AUTH_FAILED, SUBCMD_TOKEN, LOCKED]
  }

  predicate PasswordChanged(st: Step, ch: Channel)
  {
    IsSubcommand(st.event, ch, SUBCMD_CHANGE_PWD) && |st.event.data| >= 34
    && st.reply == [CMD_AUTH, OK, SUBCMD_CHANGE_PWD]
  }

  // ---- The history definitions ----

  datatype Session = Closed | OpenSince(t: nat)

  /** The last session event of `ch`: a token success opens; a mismatch, a lock or a lost BLE link closes. */
  function LastSession(h: History, ch: Channel): Session
  {
    if h == [] then Closed
    else
      var st := h[|h| - 1];
      if TokenAccepted(st, ch) then OpenSince(st.event.now)
      else if TokenRefused(st, ch) || IsLock(st.event, ch) || IsDrop(st.event, ch) then Closed
      else LastSession(h[..|h| - 1], ch)
  }

  /** Since NFC was last opened, a permission check has already come too late. */
  function ExpiryNoticed(h: History): bool
  {
    if h == [] then false
    else
      var p, st := h[..|h| - 1], h[|h| - 1];
      if TokenAccepted(st, NFC) || TokenRefused(st, NFC) || IsLock(st.event, NFC) then false
      else if IsPermissionCheck(st.event, NFC) && LastSession(p, NFC).OpenSince?
              && st.event.now > LastSession(p, NFC).t + WINDOW_MS then true
      else ExpiryNoticed(p)
  }

  /** The nonce request of `ch` that a token could still answer. */
  function Pending(h: History, ch: Channel): (r: Option<nat>)
    ensures r.Some? ==> r.value < |h| && IsNonceRequest(h[r.value].event, ch)
  {
    if h == [] then None
    else
      var e := h[|h| - 1].event;
      if IsNonceRequest(e, ch) then Some(|h| - 1)
      else if IsTokenSubmission(e, ch) || IsLock(e, ch) || IsDrop(e, ch) then None
      else Pending(h[..|h| - 1], ch)
  }

  /** The password hash in force. */
  function CurrentHash(h: History): Digest
  {
    if h == [] then Zeros(32)
    else
      var st := h[|h| - 1];
      if st.event.PasswordReset? || st.event.Init? then DefaultHash()
      else if PasswordChanged(st, BLE) || PasswordChanged(st, NFC) then st.event.data[2..34]
      else CurrentHash(h[..|h| - 1])
  }

  /** The permission `ch` has at time `now`, from history alone. */
  function PermissionAt(h: History, ch: Channel, now: nat): byte
  {
    match LastSession(h, ch)
    case Closed => AUTH_REQUIRED
    case OpenSince(t) =>
      if ch.BLE? || now <= t + WINDOW_MS then OK
      else if ExpiryNoticed(h) then AUTH_REQUIRED
      else AUTH_EXPIRED
  }

  // ---- The state is a function of the history ----

  predicate ExplainsBle(h: History, s: State)
  {
    s.bleUnlocked <==> LastSession(h, BLE).OpenSince?
  }

  predicate ExplainsNfc(h: History, s: State)
  {
    s.nfcUntil == match LastSession(h, NFC)
                  case Closed => 0
                  case OpenSince(t) => if ExpiryNoticed(h) then 0 else t + WINDOW_MS
  }

  predicate ExplainsHash(h: History, s: State)
  {
    s.hash == CurrentHash(h)
  }

  predicate ExplainsNonce(h: History, s: State, ch: Channel)
  {
    && (s.NonceValid(ch) <==> Pending(h, ch).Some?)
    && (Pending(h, ch).Some? ==> s.NonceOf(ch) == h[Pending(h, ch).value].event.random)
  }

  /** Everything but the NFC deadline, and so what needs no clock. */
  predicate ExplainsUntimed(h: History, s: State)
  {
    ExplainsBle(h, s) && ExplainsHash(h, s) && ExplainsNonce(h, s, BLE) && ExplainsNonce(h, s, NFC)
  }

  predicate Explains(h: History, s: State)
  {
    ExplainsUntimed(h, s) && ExplainsNfc(h, s)
  }

  /** Time has not gone back behind an expiry already noticed. */
  predicate ClockAfter(h: History, now: nat)
  {
    ExpiryNoticed(h) ==> LastSession(h, NFC).OpenSince? && now > LastSession(h, NFC).t + WINDOW_MS
  }

  function Extend(h: History, s: State, e: Event): (h': History)
    ensures |h'| == |h| + 1 && h'[..|h|] == h && h'[|h|] == Step(e, Next(s, e).1)
  {
    h + [Step(e, Next(s, e).1)]
  }

  lemma BleStep(h: History, s: State, e: Event)
    requires ExplainsBle(h, s)
    ensures ExplainsBle(Extend(h, s, e), Next(s, e).0)
  {
    hide Token, DefaultHash;
    assert Extend(h, s, e)[..|h|] == h;
    if IsTokenSubmission(e, BLE) {
    } else if IsLock(e, BLE) || IsDrop(e, BLE) {
    } else {
      assert Next(s, e).0.bleUnlocked == s.bleUnlocked;
    }
  }

  lemma NfcStep(h: History, s: State, e: Event)
    requires ExplainsNfc(h, s) && ClockAfter(h, e.now)
    ensures ExplainsNfc(Extend(h, s, e), Next(s, e).0) && ClockAfter(Extend(h, s, e), e.now)
  {
    hide Token, DefaultHash;
    assert Extend(h, s, e)[..|h|] == h;
  }

  /** What an event does to the password hash. */
  lemma HashEffect(s: State, e: Event)
    ensures var (s', reply) := Next(s, e); var st := Step(e, reply);
            s'.hash == if e.PasswordReset? || e.Init? then DefaultHash()
                       else if PasswordChanged(st, BLE) || PasswordChanged(st, NFC) then e.data[2..34]
                       else s.hash
  {
    hide Token, DefaultHash;
  }

  lemma HashStep(h: History, s: State, e: Event)
    requires ExplainsHash(h, s)
    ensures ExplainsHash(Extend(h, s, e), Next(s, e).0)
  {
    hide Next, PasswordChanged, DefaultHash;
    HashEffect(s, e);
    assert Extend(h, s, e)[..|h|] == h;
  }

  /** What an event does to the nonce of `ch`. */
  lemma NonceEffect(s: State, e: Event, ch: Channel)
    ensures var s' := Next(s, e).0;
            if IsNonceRequest(e, ch) then s'.NonceValid(ch) && s'.NonceOf(ch) == e.random
            else if IsTokenSubmission(e, ch) || IsLock(e, ch) || IsDrop(e, ch) then !s'.NonceValid(ch)
            else s'.NonceValid(ch) == s.NonceValid(ch) && s'.NonceOf(ch) == s.NonceOf(ch)
  {
    hide Token, DefaultHash;
  }

  lemma NonceStep(h: History, s: State, e: Event, ch: Channel)
    requires ExplainsNonce(h, s, ch)
    ensures ExplainsNonce(Extend(h, s, e), Next(s, e).0, ch)
  {
    hide Next, Extend, IsNonceRequest, IsTokenSubmission, IsLock, IsDrop;
    NonceEffect(s, e, ch);
    assert Extend(h, s, e)[..|h|] == h;
  }

  /** No clock is needed for anything but the NFC deadline. */
  lemma {:induction false} UntimedExplained(events: seq<Event>)
    ensures ExplainsUntimed(Observed(events), Run(Initial(), events).0)
  {
    hide DefaultHash, Next, LastSession, Pending, CurrentHash;
    if events == [] {
      InitialExplained();
    } else {
      var pre, e := events[..|events| - 1], events[|events| - 1];
      UntimedExplained(pre);
      var (s, h) := Run(Initial(), pre);
      BleStep(h, s, e);
      HashStep(h, s, e);
      NonceStep(h, s, e, BLE);
      NonceStep(h, s, e, NFC);
    }
  }

  lemma {:induction false} RunExplained(events: seq<Event>)
    requires Monotone(events)
    ensures var (s, h) := Run(Initial(), events);
            Explains(h, s) && |h| == |events| && (|events| > 0 ==> ClockAfter(h, events[|events| - 1].now))
  {
    hide DefaultHash, Next, LastSession, ExpiryNoticed, Pending, CurrentHash, ExplainsUntimed;
    UntimedExplained(events);
    if events == [] {
      InitialExplained();
    } else {
      var pre, e := events[..|events| - 1], events[|events| - 1];
      RunExplained(pre);
      var (s, h) := Run(Initial(), pre);
      ClockMoves(pre, h, e.now);
      NfcStep(h, s, e);
    }
  }

  lemma InitialExplained()
    ensures Explains([], Initial())
  {
    hide DefaultHash;
  }

  lemma ClockMoves(pre: seq<Event>, h: History, now: nat)
    requires |h| == |pre| && (|pre| > 0 ==> ClockAfter(h, pre[|pre| - 1].now) && pre[|pre| - 1].now <= now)
    ensures ClockAfter(h, now)
  {
  }

  // ---- The theorems ----

  /** Step `i` of a run. */
  lemma {:induction false} StepOf(events: seq<Event>, i: nat)
    requires i < |events|
    ensures Observed(events)[..i] == Observed(events[..i])
    ensures Observed(events)[i] == Step(events[i], Next(Run(Initial(), events[..i]).0, events[i]).1)
  {
    hide Next, Initial;
    var n := |events| - 1;
    var h1 := Observed(events[..n]);
    assert Observed(events)[..n] == h1;
    if i < n {
      StepOf(events[..n], i);
      assert events[..n][..i] == events[..i];
      assert h1[..i] == Observed(events)[..i];
    }
  }

  /** State and history before it. */
  lemma ExplainedBefore(events: seq<Event>, i: nat)
    requires i < |events| && Monotone(events)
    ensures var (s, h) := Run(Initial(), events[..i]);
            Explains(h, s) && ClockAfter(h, events[i].now)
  {
    hide Run, Explains, ClockAfter, Initial;
    RunExplained(events[..i]);
    ClockMoves(events[..i], Run(Initial(), events[..i]).1, events[i].now);
  }

  /**
   * Every permission looked up in a run is the one the history defines: BLE is open since the last
   * token success on this connection, NFC for five minutes, and the first late look-up says expired.
   */
  lemma PermissionRefinesHistory(events: seq<Event>, i: nat, ch: Channel)
    requires i < |events| && Monotone(events) && IsPermissionCheck(events[i], ch)
    ensures Permission(Observed(events)[i]) == PermissionAt(Observed(events)[..i], ch, events[i].now)
  {
    hide Run, Initial, Next, Permission, PermissionAt, Explains, ClockAfter, CheckWrite;
    StepOf(events, i);
    ExplainedBefore(events, i);
    var (s, h) := Run(Initial(), events[..i]);
    PermissionReply(s, events[i], ch);
    PermissionExplained(h, s, ch, events[i].now);
  }

  lemma PermissionReply(s: State, e: Event, ch: Channel)
    requires IsPermissionCheck(e, ch)
    ensures Permission(Step(e, Next(s, e).1)) == CheckWrite(s, ch, e.now).1
  {
    hide Token, DefaultHash;
  }

  lemma PermissionExplained(h: History, s: State, ch: Channel, now: nat)
    requires Explains(h, s) && ClockAfter(h, now)
    ensures CheckWrite(s, ch, now).1 == PermissionAt(h, ch, now)
  {
    hide LastSession, ExpiryNoticed, Pending, CurrentHash;
  }

  /** The permission at any moment of a run is the history's; for NFC that is five minutes from a token success. */
  lemma CheckWriteRefinesHistory(events: seq<Event>, ch: Channel, now: nat)
    requires Monotone(events) && (|events| > 0 ==> events[|events| - 1].now <= now)
    ensures CheckWrite(Run(Initial(), events).0, ch, now).1 == PermissionAt(Observed(events), ch, now)
    ensures var session := LastSession(Observed(events), NFC);
            CheckWrite(Run(Initial(), events).0, NFC, now).1 == OK <==> session.OpenSince? && now <= session.t + 300_000
  {
    hide Run, Initial, LastSession, ExpiryNoticed, Explains;
    RunExplained(events);
    var (s, h) := Run(Initial(), events);
    ClockMoves(events, h, now);
    PermissionExplained(h, s, ch, now);
    PermissionExplained(h, s, NFC, now);
  }

  /** Between two answers "expired" there is a token success: expiry is reported at most once per unlock. */
  lemma ExpiredOncePerUnlock(events: seq<Event>, i: nat, j: nat)
    requires i < j < |events| && Monotone(events)
    requires IsPermissionCheck(events[i], NFC) && IsPermissionCheck(events[j], NFC)
    ensures var h := Observed(events);
            Permission(h[i]) == Permission(h[j]) == AUTH_EXPIRED ==> exists k :: i < k < j && TokenAccepted(h[k], NFC)
  {
    hide Run, Observed, Initial, LastSession, ExpiryNoticed;
    PermissionRefinesHistory(events, i, NFC);
    PermissionRefinesHistory(events, j, NFC);
    var h := Observed(events);
    if Permission(h[i]) == AUTH_EXPIRED && forall k :: i < k < j ==> !TokenAccepted(h[k], NFC) {
      NoticedPersists(h, i, j);
    }
  }

  lemma {:induction false} NoticedPersists(h: History, i: nat, j: nat)
    requires i < j <= |h| && IsPermissionCheck(h[i].event, NFC)
    requires LastSession(h[..i], NFC).OpenSince? && h[i].event.now > LastSession(h[..i], NFC).t + WINDOW_MS
    requires forall k :: i < k < j ==> !TokenAccepted(h[k], NFC)
    ensures LastSession(h[..j], NFC).OpenSince? ==> ExpiryNoticed(h[..j])
  {
    var p := h[..j];
    assert p[..j - 1] == h[..j - 1] && p[j - 1] == h[j - 1];
    if j - 1 > i {
      NoticedPersists(h, i, j - 1);
    }
  }

  /** A token is evaluated when a nonce is pending, against the password hash in force and that nonce. */
  lemma TokenAnswersPendingNonce(events: seq<Event>, i: nat, ch: Channel)
    requires i < |events| && IsTokenSubmission(events[i], ch)
    ensures var h := Observed(events);
            Pending(h[..i], ch).None? ==> h[i].reply == [CMD_AUTH, AUTH_STATE, SUBCMD_TOKEN, LOCKED]
    ensures var h := Observed(events);
            Pending(h[..i], ch).Some? ==>
              (TokenAccepted(h[i], ch) || TokenRefused(h[i], ch))
              && (TokenAccepted(h[i], ch) <==>
                  events[i].data[2..34] == HmacSha256(CurrentHash(h[..i]), events[Pending(h[..i], ch).value].random + SN))
  {
    hide Run, Initial, LastSession, ExpiryNoticed, Pending, CurrentHash, HmacSha256;
    StepOf(events, i);
    UntimedExplained(events[..i]);
    var (s, p) := Run(Initial(), events[..i]);
    TokenReply(s, events[i], ch);
  }

  lemma TokenReply(s: State, e: Event, ch: Channel)
    requires IsTokenSubmission(e, ch)
    ensures var st := Step(e, Next(s, e).1);
            if s.NonceValid(ch) then
              (TokenAccepted(st, ch) || TokenRefused(st, ch))
              && (TokenAccepted(st, ch) <==> e.data[2..34] == HmacSha256(s.hash, s.NonceOf(ch) + SN))
            else st.reply == [CMD_AUTH, AUTH_STATE, SUBCMD_TOKEN, LOCKED]
  {
    hide HmacSha256;
  }

  /** The nonce a token must answer is the one its channel was last sent. */
  lemma NonceWasSent(events: seq<Event>, j: nat, ch: Channel)
    requires j < |events| && IsNonceRequest(events[j], ch)
    ensures Observed(events)[j].reply == [CMD_AUTH, OK, SUBCMD_NONCE] + events[j].random
  {
    hide Run, Initial, LastSession, ExpiryNoticed, Pending, CurrentHash, Observed;
    StepOf(events, j);
  }

  /** Nothing since a pending request has spent its nonce or replaced it. */
  lemma {:induction false} PendingIsUntouched(h: History, ch: Channel, k: nat)
    requires Pending(h, ch).Some? && Pending(h, ch).value < k < |h|
    ensures !IsNonceRequest(h[k].event, ch) && !IsTokenSubmission(h[k].event, ch)
            && !IsLock(h[k].event, ch) && !IsDrop(h[k].event, ch)
  {
    if k < |h| - 1 {
      PendingIsUntouched(h[..|h| - 1], ch, k);
      assert h[..|h| - 1][k] == h[k];
    }
  }

  /** Nothing between the request at step `j` and step `i` has spent or replaced the nonce of `ch`. */
  predicate Answers(h: History, ch: Channel, i: nat, j: nat)
  {
    && j < i < |h| && IsNonceRequest(h[j].event, ch)
    && forall k :: j < k < i ==>
         !IsNonceRequest(h[k].event, ch) && !IsTokenSubmission(h[k].event, ch)
         && !IsLock(h[k].event, ch) && !IsDrop(h[k].event, ch)
  }

  lemma {:induction false} AnswersPending(h: History, ch: Channel, i: nat, j: nat)
    requires Answers(h, ch, i, j)
    ensures Pending(h[..i], ch) == Some(j)
  {
    var p := h[..i];
    assert p[..i - 1] == h[..i - 1] && p[i - 1] == h[i - 1];
    if j < i - 1 {
      AnswersPending(h, ch, i - 1, j);
    }
  }

  lemma PendingAnswered(h: History, ch: Channel, i: nat)
    requires i < |h| && Pending(h[..i], ch).Some?
    ensures Answers(h, ch, i, Pending(h[..i], ch).value)
  {
    hide Pending;
    var p, j := h[..i], Pending(h[..i], ch).value;
    assert p[j] == h[j];
    forall k | j < k < i
      ensures !IsNonceRequest(h[k].event, ch) && !IsTokenSubmission(h[k].event, ch)
              && !IsLock(h[k].event, ch) && !IsDrop(h[k].event, ch)
    {
      PendingIsUntouched(p, ch, k);
      assert p[k] == h[k];
    }
  }

  predicate Evaluated(st: Step, ch: Channel)
  {
    TokenAccepted(st, ch) || TokenRefused(st, ch)
  }

  /**
   * The token submitted at step `i` is evaluated exactly when an earlier nonce request of its channel is
   * still open, with no lock, lost link, other token or newer request of the channel in between; the reply
   * to that request carried the nonce the token must answer, and no other token is evaluated for it.
   */
  ghost predicate Justified(h: History, ch: Channel, i: nat)
    requires i < |h| && IsTokenSubmission(h[i].event, ch)
  {
    && (Evaluated(h[i], ch) <==> exists j: nat :: Answers(h, ch, i, j))
    && (forall j: nat :: Answers(h, ch, i, j) ==>
          && h[j].reply == [CMD_AUTH, OK, SUBCMD_NONCE] + h[j].event.random
          && (TokenAccepted(h[i], ch) <==>
              h[i].event.data[2..34] == HmacSha256(CurrentHash(h[..i]), h[j].event.random + SN)))
    && (forall j: nat, i2: nat, ch2 :: Answers(h, ch, i, j) && i2 != i && Answers(h, ch2, i2, j) ==>
          !Evaluated(h[i2], ch2))
  }

  /** In every run each evaluated token consumes a distinct earlier request, and is judged by its nonce. */
  lemma TokensConsumeNonces(events: seq<Event>, i: nat, ch: Channel)
    requires i < |events| && IsTokenSubmission(events[i], ch)
    ensures Justified(Observed(events), ch, i)
  {
    hide Observed, Pending, CurrentHash, HmacSha256, IsLock, IsDrop;
    var h := Observed(events);
    TokenAnswersPendingNonce(events, i, ch);
    if Pending(h[..i], ch).Some? {
      PendingAnswered(h, ch, i);
    }
    forall j: nat | Answers(h, ch, i, j)
      ensures Pending(h[..i], ch) == Some(j) && h[j].reply == [CMD_AUTH, OK, SUBCMD_NONCE] + h[j].event.random
    {
      AnswersPending(h, ch, i, j);
      NonceWasSent(events, j, ch);
    }
  }

  // ---- What the history definitions mean, without recursion ----

  /** The token success at step `j` is the last session event of `ch`. */
  ghost predicate OpenedAt(h: History, ch: Channel, j: nat)
  {
    && j < |h| && TokenAccepted(h[j], ch)
    && forall k :: j < k < |h| ==>
         !TokenAccepted(h[k], ch) && !TokenRefused(h[k], ch) && !IsLock(h[k].event, ch) && !IsDrop(h[k].event, ch)
  }

  lemma {:induction false} SessionOpenedAt(h: History, ch: Channel, j: nat)
    requires OpenedAt(h, ch, j)
    ensures LastSession(h, ch) == OpenSince(h[j].event.now)
  {
    hide TokenAccepted, TokenRefused, IsLock, IsDrop;
    var pre := h[..|h| - 1];
    assert forall k :: 0 <= k < |pre| ==> pre[k] == h[k];
    if j < |h| - 1 {
      SessionOpenedAt(pre, ch, j);
    }
  }

  lemma {:induction false} OpenSessionHasStart(h: History, ch: Channel) returns (j: nat)
    requires LastSession(h, ch).OpenSince?
    ensures OpenedAt(h, ch, j)
  {
    hide TokenAccepted, TokenRefused, IsLock, IsDrop;
    var n := |h| - 1;
    if TokenAccepted(h[n], ch) {
      j := n;
    } else {
      var pre := h[..n];
      j := OpenSessionHasStart(pre, ch);
      assert forall k :: 0 <= k < |pre| ==> pre[k] == h[k];
    }
  }

  /** A session is open exactly when some token success is its channel's last session event, and since then. */
  lemma SessionIff(h: History, ch: Channel)
    ensures LastSession(h, ch).OpenSince? <==> exists j: nat :: OpenedAt(h, ch, j)
    ensures forall j: nat :: OpenedAt(h, ch, j) ==> LastSession(h, ch) == OpenSince(h[j].event.now)
  {
    hide LastSession;
    if LastSession(h, ch).OpenSince? {
      var j := OpenSessionHasStart(h, ch);
    }
    forall j: nat | OpenedAt(h, ch, j)
      ensures LastSession(h, ch) == OpenSince(h[j].event.now)
    {
      SessionOpenedAt(h, ch, j);
    }
  }

  /** A look-up of the NFC permission more than five minutes after step `j`. */
  predicate IsLate(h: History, j: nat, k: nat)
    requires j < |h| && k < |h|
  {
    IsPermissionCheck(h[k].event, NFC) && h[k].event.now > h[j].event.now + 300_000
  }

  lemma OpeningIsNoLock(st: Step)
    ensures TokenAccepted(st, NFC) ==> !IsLock(st.event, NFC)
  {
  }

  lemma {:induction false} NoticedIff(h: History, j: nat)
    requires OpenedAt(h, NFC, j)
    ensures ExpiryNoticed(h) <==> exists k :: j < k < |h| && IsLate(h, j, k)
  {
    hide TokenAccepted, TokenRefused, IsLock, IsDrop, IsPermissionCheck, LastSession;
    var n := |h| - 1;
    var pre := h[..n];
    assert forall k :: 0 <= k < |pre| ==> pre[k] == h[k];
    assert !IsLock(h[n].event, NFC) by { OpeningIsNoLock(h[j]); }
    if j < n {
      assert OpenedAt(pre, NFC, j);
      NoticedIff(pre, j);
      SessionOpenedAt(pre, NFC, j);
      forall k | 0 <= k < n
        ensures IsLate(pre, j, k) == IsLate(h, j, k)
      {
      }
      if ExpiryNoticed(pre) {
        var k :| j < k < n && IsLate(pre, j, k);
        assert IsLate(h, j, k);
      }
      if IsLate(h, j, n) {
        assert ExpiryNoticed(h);
      } else if k :| j < k < |h| && IsLate(h, j, k) {
        assert IsLate(pre, j, k);
      }
    }
  }

  /**
   * The answer to every permission look-up of a run: OK while the last session event is a token success,
   * for NFC at most five minutes ago; the first later NFC look-up says expired; all others say required.
   */
  lemma PermissionIs(events: seq<Event>, i: nat, ch: Channel)
    requires i < |events| && Monotone(events) && IsPermissionCheck(events[i], ch)
    ensures var h := Observed(events); var p := Permission(h[i]);
            && ((forall j: nat :: !OpenedAt(h[..i], ch, j)) ==> p == 0x0B)
            && (forall j: nat :: OpenedAt(h[..i], ch, j) ==>
                  p == if ch.BLE? || events[i].now <= events[j].now + 300_000 then 0x00
                       else if exists k :: j < k < i && IsLate(h[..i], j, k) then 0x0B
                       else 0x0C)
  {
    hide Observed, LastSession, OpenedAt, ExpiryNoticed, IsLate, IsPermissionCheck, Permission;
    var h := Observed(events);
    PermissionRefinesHistory(events, i, ch);
    SessionIff(h[..i], ch);
    forall j: nat | OpenedAt(h[..i], ch, j)
      ensures j < i && LastSession(h[..i], ch) == OpenSince(events[j].now)
      ensures ch.NFC? ==> (ExpiryNoticed(h[..i]) <==> exists k :: j < k < i && IsLate(h[..i], j, k))
    {
      OpenedBefore(h[..i], ch, j);
      if ch.NFC? {
        NoticedIff(h[..i], j);
      }
    }
  }

  lemma OpenedBefore(h: History, ch: Channel, j: nat)
    requires OpenedAt(h, ch, j)
    ensures j < |h|
  {
  }

  predicate SetsHash(st: Step)
  {
    st.event.PasswordReset? || st.event.Init? || PasswordChanged(st, BLE) || PasswordChanged(st, NFC)
  }

  /** The password hash in force is that of the last change, or the default one since the last reset, or zero. */
  lemma {:induction false} HashInForce(h: History, j: nat)
    ensures (forall k :: 0 <= k < |h| ==> !SetsHash(h[k])) ==> CurrentHash(h) == Zeros(32)
    ensures j < |h| && SetsHash(h[j]) && (forall k :: j < k < |h| ==> !SetsHash(h[k])) ==>
              CurrentHash(h) == if h[j].event.Command? then h[j].event.data[2..34]
                                else Sha256(Ascii("123456") + Ascii("123456") + Ascii("RL_RANGE_AUTH_V1"))
  {
    hide Sha256, DefaultHash;
    if h != [] {
      var pre := h[..|h| - 1];
      assert forall k :: 0 <= k < |pre| ==> pre[k] == h[k];
      HashInForce(pre, j);
      DefaultHashIs();
    }
  }

  lemma DefaultHashIs()
    ensures DefaultHash() == Sha256(Ascii("123456") + Ascii("123456") + Ascii("RL_RANGE_AUTH_V1"))
  {
    hide Sha256, Ascii;
    TextsAre();
  }

  lemma TextsAre()
    ensures DEFAULT_PASSWORD == SN == Ascii("123456") && SALT == Ascii("RL_RANGE_AUTH_V1")
  {
  }

  // ---- Every reply ----

  /** The reply to a command, from what was observed before. */
  function ExpectedReply(h: History, e: Event): seq<byte>
    requires e.Command?
  {
    if |e.data| < 2 || e.data[0] != 0x03 then []
    else if e.data[1] == 0x01 then [0x03, 0x00, 0x01] + e.random
    else if e.data[1] == 0x02 then
      if |e.data| < 34 then [0x03, 0x05, 0x02]
      else
        match Pending(h, e.ch)
        case None => [0x03, 0x0D, 0x02, 0x00]
        case Some(j) =>
          if e.data[2..34] == HmacSha256(CurrentHash(h), h[j].event.random + Ascii("123456")) then
            [0x03, 0x00, 0x02, 0x01]
          else [0x03, 0x0A, 0x02, 0x00]
    else if e.data[1] == 0x03 then
      var p := PermissionAt(h, e.ch, e.now);
      if p != 0x00 then [0x03, p, 0x03] else if |e.data| < 34 then [0x03, 0x05, 0x03] else [0x03, 0x00, 0x03]
    else if e.data[1] == 0x04 then [0x03, 0x00, 0x04]
    else [0x03, 0x01, e.data[1]]
  }

  /** In every run every command is answered as the history says, byte by byte. */
  lemma RepliesFromHistory(events: seq<Event>, i: nat)
    requires i < |events| && Monotone(events) && events[i].Command?
    ensures Observed(events)[i].reply == ExpectedReply(Observed(events)[..i], events[i])
  {
    hide Run, Initial, Next, ExpectedReply, Explains, ClockAfter;
    StepOf(events, i);
    ExplainedBefore(events, i);
    var (s, h) := Run(Initial(), events[..i]);
    ReplyExplained(h, s, events[i]);
  }

  lemma ReplyExplained(h: History, s: State, e: Event)
    requires Explains(h, s) && ClockAfter(h, e.now) && e.Command?
    ensures Next(s, e).1 == ExpectedReply(h, e)
  {
    hide HmacSha256, LastSession, ExpiryNoticed, Pending, CurrentHash, CheckWrite, PermissionAt, EvaluateToken,
      ChangePassword, Ascii, Explains;
    NonceExplained(h, s, e.ch);
    if |e.data| >= 34 {
      TokenExplained(s, e.ch, e.data[2..34], e.now);
    }
    ChangeExplained(h, s, e.ch, e.data, e.now);
    TextsAre();
  }

  lemma NonceExplained(h: History, s: State, ch: Channel)
    requires Explains(h, s)
    ensures s.hash == CurrentHash(h) && (s.NonceValid(ch) <==> Pending(h, ch).Some?)
    ensures Pending(h, ch).Some? ==> s.NonceOf(ch) == h[Pending(h, ch).value].event.random
  {
    hide Pending, CurrentHash, ExplainsBle, ExplainsNfc;
  }

  lemma TokenExplained(s: State, ch: Channel, token: Digest, now: nat)
    ensures EvaluateToken(s, ch, token, now).1 ==
            if token == HmacSha256(s.hash, s.NonceOf(ch) + SN) then [0x03, 0x00, 0x02, 0x01] else [0x03, 0x0A, 0x02, 0x00]
  {
    hide HmacSha256;
  }

  lemma ChangeExplained(h: History, s: State, ch: Channel, data: seq<byte>, now: nat)
    requires Explains(h, s) && ClockAfter(h, now)
    ensures ChangePassword(s, ch, data, now).1 ==
            var p := PermissionAt(h, ch, now);
            if p != 0x00 then [0x03, p, 0x03] else if |data| < 34 then [0x03, 0x05, 0x03] else [0x03, 0x00, 0x03]
  {
    hide CheckWrite, PermissionAt, Explains;
    PermissionExplained(h, s, ch, now);
  }

  /** A permitted change of the password succeeds and is in force; a permitted one that is too short is answered so. */
  lemma PermittedChangeSucceeds(events: seq<Event>, i: nat, ch: Channel)
    requires i < |events| && Monotone(events) && IsSubcommand(events[i], ch, SUBCMD_CHANGE_PWD)
    requires PermissionAt(Observed(events)[..i], ch, events[i].now) == OK
    ensures var h := Observed(events);
            if |events[i].data| >= 34 then
              PasswordChanged(h[i], ch) && CurrentHash(h[..i + 1]) == events[i].data[2..34]
            else h[i].reply == [CMD_AUTH, PARAM_LEN, SUBCMD_CHANGE_PWD] && CurrentHash(h[..i + 1]) == CurrentHash(h[..i])
  {
    hide Observed, PermissionAt, Pending, DefaultHash;
    var h := Observed(events);
    RepliesFromHistory(events, i);
    assert h[..i + 1][..i] == h[..i] && h[..i + 1][i] == h[i];
  }

  // ---- Non-interference between the channels ----

  /** The events of channel `ch`; initialisation concerns both. */
  predicate Concerns(e: Event, ch: Channel)
  {
    e.Init? || (e.BleDisconnect? && ch.BLE?) || (!e.Init? && !e.BleDisconnect? && e.ch == ch)
  }

  /** The steps of one channel. */
  function OfChannel(h: History, ch: Channel): History
  {
    if h == [] then []
    else
      var st := h[|h| - 1];
      if Concerns(st.event, ch) then OfChannel(h[..|h| - 1], ch) + [st] else OfChannel(h[..|h| - 1], ch)
  }

  function EventsOf(events: seq<Event>, ch: Channel): seq<Event>
  {
    if events == [] then []
    else
      var e := events[|events| - 1];
      if Concerns(e, ch) then EventsOf(events[..|events| - 1], ch) + [e] else EventsOf(events[..|events| - 1], ch)
  }

  /** In this run the other channel neither changes nor resets the password. */
  predicate Quiet(h: History, ch: Channel)
  {
    forall st <- h :: !Concerns(st.event, ch) ==>
      !st.event.PasswordReset? && !PasswordChanged(st, BLE) && !PasswordChanged(st, NFC)
  }

  /** Two states that one channel cannot tell apart. */
  predicate Same(s: State, t: State, ch: Channel)
  {
    && s.hash == t.hash && s.NonceValid(ch) == t.NonceValid(ch) && s.NonceOf(ch) == t.NonceOf(ch)
    && (ch.BLE? ==> s.bleUnlocked == t.bleUnlocked)
    && (ch.NFC? ==> s.nfcUntil == t.nfcUntil)
  }

  lemma OwnToken(s: State, t: State, ch: Channel, token: Digest, now: nat)
    requires Same(s, t, ch)
    ensures EvaluateToken(s, ch, token, now).1 == EvaluateToken(t, ch, token, now).1
    ensures Same(EvaluateToken(s, ch, token, now).0, EvaluateToken(t, ch, token, now).0, ch)
  {
    hide Token;
  }

  lemma OwnChange(s: State, t: State, ch: Channel, data: seq<byte>, now: nat)
    requires Same(s, t, ch)
    ensures ChangePassword(s, ch, data, now).1 == ChangePassword(t, ch, data, now).1
    ensures Same(ChangePassword(s, ch, data, now).0, ChangePassword(t, ch, data, now).0, ch)
  {
  }

  lemma OwnCommand(s: State, t: State, ch: Channel, data: seq<byte>, now: nat, random: Nonce)
    requires Same(s, t, ch)
    ensures HandleCmd(s, ch, data, now, random).1 == HandleCmd(t, ch, data, now, random).1
    ensures Same(HandleCmd(s, ch, data, now, random).0, HandleCmd(t, ch, data, now, random).0, ch)
  {
    hide DefaultHash, EvaluateToken, ChangePassword;
    if |data| >= 34 {
      OwnToken(s, t, ch, data[2..34], now);
    }
    OwnChange(s, t, ch, data, now);
  }

  lemma OwnStep(s: State, t: State, e: Event, ch: Channel)
    requires Same(s, t, ch) && Concerns(e, ch)
    ensures Next(s, e).1 == Next(t, e).1 && Same(Next(s, e).0, Next(t, e).0, ch)
  {
    hide DefaultHash, HandleCmd;
    if e.Command? {
      OwnCommand(s, t, ch, e.data, e.now, e.random);
    }
  }

  lemma OtherStep(s: State, e: Event, ch: Channel)
    requires !Concerns(e, ch) && !e.PasswordReset?
    requires var st := Step(e, Next(s, e).1); !PasswordChanged(st, BLE) && !PasswordChanged(st, NFC)
    ensures Same(Next(s, e).0, s, ch)
  {
    hide Token, DefaultHash;
  }

  /**
   * While the other channel leaves the password alone, the replies and permissions one channel sees are
   * those of the run with all the other channel's commands deleted.
   */
  lemma {:induction false} NonInterference(s: State, events: seq<Event>, ch: Channel)
    requires Quiet(Run(s, events).1, ch)
    ensures OfChannel(Run(s, events).1, ch) == Run(s, EventsOf(events, ch)).1
    ensures Same(Run(s, events).0, Run(s, EventsOf(events, ch)).0, ch)
  {
    hide Next, Same, PasswordChanged;
    if events == [] {
      SameReflexive(s, ch);
    } else {
      var pre, e := events[..|events| - 1], events[|events| - 1];
      var (s1, h1) := Run(s, pre);
      var h := Run(s, events).1;
      var st := Step(e, Next(s1, e).1);
      assert h == h1 + [st] && h[..|h| - 1] == h1;
      assert st in h;
      assert forall x <- h1 :: x in h;
      NonInterference(s, pre, ch);
      var own := EventsOf(pre, ch);
      var t1 := Run(s, own).0;
      if Concerns(e, ch) {
        OwnStep(s1, t1, e, ch);
        assert (own + [e])[..|own|] == own;
      } else {
        OtherStep(s1, e, ch);
        SameTransitive(Next(s1, e).0, s1, t1, ch);
      }
    }
  }

  lemma SameReflexive(s: State, ch: Channel)
    ensures Same(s, s, ch)
  {
  }

  lemma SameTransitive(s: State, t: State, u: State, ch: Channel)
    requires Same(s, t, ch) && Same(t, u, ch)
    ensures Same(s, u, ch)
  {
  }
}
