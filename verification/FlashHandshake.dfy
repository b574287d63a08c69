/**
 * The hand-over of NDEF updates from the NFC callback to the flash writer (src/main.c), as two
 * parties whose atomic steps interleave freely. Every byte of the copy into the shared buffer and of
 * the write to flash is a step of its own.
 */
module FlashHandshake {
  import opened Bytes

  datatype Flag = WriteFinished | PrepStarted | PrepFinished | WriteStarted

  // Program counters: inside flash_buffer_prepare, and inside the endless loop of main.
  datatype Callback = Idle | SetLength | Copying(k: nat) | SetFlag | Give
  datatype Writer = Take | Cas | Flashing(out: seq<byte>) | Finish

  /** An accepted update: the NDEF file and its data length when flash_buffer_prepare took it. */
  datatype Snapshot = Snapshot(file: seq<byte>, dataLength: nat)

  datatype State = State(
    flag: Flag, sem: nat,
    file: seq<byte>,               // ndef_msg_buf
    buf: seq<byte>, len: byte,     // flash_buf, flash_buf_len
    cb: Callback, dataLength: nat,
    wr: Writer,
    accepted: seq<Snapshot>,       // updates taken, for the specification
    flashed: seq<seq<byte>>        // calls of ndef_file_update, in order
  )

  datatype Action =
    | Tag(file: seq<byte>)         // the reader writes the tag; the library calls back only afterwards
    | Update(dataLength: nat)      // NDEF_UPDATED, and the message is no command
    | CallbackStep
    | WriterStep

  predicate Initial(s: State)
  {
    && s.flag == WriteFinished && s.sem == 0 && |s.buf| == |s.file| && s.cb == Idle && s.wr == Take
    && s.accepted == [] && s.flashed == []
  }

  predicate Enabled(s: State, a: Action)
  {
    match a
    case Tag(file) => s.cb == Idle && |file| == |s.file|
    case Update(n) => s.cb == Idle && n > 0 && n + 2 <= |s.file|
    case CallbackStep => s.cb != Idle && |s.buf| == |s.file|
    case WriterStep =>
      match s.wr
      case Take => s.sem > 0  // k_sem_take blocks
      case Flashing(out) => |out| <= |s.buf| && s.len as int <= |s.buf|
      case _ => true
  }

  /** flash_buf_len is a uint8_t. */
  function StoredLength(dataLength: nat): byte
  {
    ((dataLength + 2) % 0x100) as byte
  }

  function CallbackNext(s: State): State
    requires Enabled(s, CallbackStep)
  {
    match s.cb
    case SetLength => s.(len := StoredLength(s.dataLength), cb := Copying(0))
    case Copying(k) =>
      if k < |s.file| then s.(buf := s.buf[k := s.file[k]], cb := Copying(k + 1)) else s.(cb := SetFlag)
    case SetFlag => s.(flag := PrepFinished, cb := Give)
    case Give => s.(sem := 1, cb := Idle)  // a binary semaphore
  }

  function WriterNext(s: State): State
    requires Enabled(s, WriterStep)
  {
    match s.wr
    case Take => s.(sem := s.sem - 1, wr := Cas)
    case Cas => if s.flag == PrepFinished then s.(flag := WriteStarted, wr := Flashing([])) else s.(wr := Take)
    case Flashing(out) =>
      if |out| < s.len as int then s.(wr := Flashing(out + [s.buf[|out|]]))
      else s.(flashed := s.flashed + [out], wr := Finish)
    case Finish => s.(flag := WriteFinished, wr := Take)
  }

  function Next(s: State, a: Action): State
    requires Enabled(s, a)
  {
    match a
    case Tag(file) => s.(file := file)
    case Update(n) =>
      if s.flag == WriteFinished then
        s.(flag := PrepStarted, cb := SetLength, dataLength := n, accepted := s.accepted + [Snapshot(s.file, n)])
      else s  // "Flash update pending. Discarding new data..."
    case CallbackStep => CallbackNext(s)
    case WriterStep => WriterNext(s)
  }

  /** `t` is reached from `s` by the enabled steps `run`. */
  ghost predicate Reaches(s: State, run: seq<Action>, t: State)
    decreases |run|
  {
    if run == [] then s == t
    else Enabled(s, run[0]) && Reaches(Next(s, run[0]), run[1..], t)
  }

  // ---- The invariant ----

  function One(b: bool): nat { if b then 1 else 0 }

  /** The right to write is in exactly one place while an update is ready, and nowhere otherwise. */
  predicate OneToken(s: State)
  {
    s.sem + One(s.wr == Cas) + One(s.cb == Give) == One(s.flag == PrepFinished)
  }

  /** The shared buffer belongs to the callback, or to the writer, or to nobody. */
  predicate Owners(s: State)
  {
    && (s.flag == PrepStarted <==> s.cb in {SetLength, SetFlag} || s.cb.Copying?)
    && (s.flag == WriteStarted <==> s.wr.Flashing? || s.wr == Finish)
  }

  /** The bytes handed to ndef_file_update for an accepted update. */
  function Handed(u: Snapshot): seq<byte>
    requires StoredLength(u.dataLength) as int <= |u.file|
  {
    u.file[..StoredLength(u.dataLength) as int]
  }

  predicate Outstanding(s: State)
  {
    s.flag == PrepStarted || s.flag == PrepFinished || s.wr.Flashing?
  }

  /** What has been flashed are the accepted updates, in order; one more may be on its way. */
  predicate Logs(s: State)
  {
    && (forall u <- s.accepted :: |u.file| == |s.file| && u.dataLength > 0 && u.dataLength + 2 <= |u.file|)
    && |s.accepted| == |s.flashed| + One(Outstanding(s))
    && forall i :: 0 <= i < |s.flashed| ==> s.flashed[i] == Handed(s.accepted[i])
  }

  /** How far the outstanding update has come. */
  predicate InTransit(s: State)
  {
    Outstanding(s) && s.accepted != [] ==>
      var u := s.accepted[|s.accepted| - 1];
      && (s.cb == SetLength || s.cb.Copying? ==> s.file == u.file && s.dataLength == u.dataLength)
      && (s.cb != SetLength ==> s.len == StoredLength(u.dataLength))
      && (s.cb.Copying? ==> s.cb.k <= |s.file| == |s.buf| == |u.file| && s.buf[..s.cb.k] == u.file[..s.cb.k])
      && (s.cb != SetLength && !s.cb.Copying? ==> s.buf == u.file)
      && (s.wr.Flashing? ==> |s.wr.out| <= s.len as int <= |u.file| && s.wr.out == u.file[..|s.wr.out|])
  }

  predicate Inv(s: State)
  {
    |s.buf| == |s.file| && OneToken(s) && Owners(s) && Logs(s) && InTransit(s)
  }

  lemma InvInitially(s: State)
    requires Initial(s)
    ensures Inv(s)
  {
  }

  lemma InvCallback(s: State)
    requires Inv(s) && Enabled(s, CallbackStep)
    ensures Inv(Next(s, CallbackStep))
  {
    var u := s.accepted[|s.accepted| - 1];
    if s.cb.Copying? && s.cb.k < |s.file| {
      var s' := Next(s, CallbackStep);
      assert s'.buf[..s.cb.k] == s.buf[..s.cb.k];
      assert s'.buf[..s.cb.k + 1] == s.buf[..s.cb.k] + [s.file[s.cb.k]];
    } else if s.cb.Copying? {
      assert s.buf[..s.cb.k] == s.buf && u.file[..s.cb.k] == u.file;
    }
  }

  lemma InvWriter(s: State)
    requires Inv(s) && Enabled(s, WriterStep)
    ensures Inv(Next(s, WriterStep))
  {
    var s' := Next(s, WriterStep);
    if s.wr.Flashing? {
      var u := s.accepted[|s.accepted| - 1];
      var n := |s.wr.out|;
      if n < s.len as int {
        assert u.file[..n + 1] == u.file[..n] + [u.file[n]];
      } else {
        assert s'.flashed[|s.flashed|] == Handed(u);
      }
    }
  }

  lemma InvTag(s: State, a: Action)
    requires Inv(s) && Enabled(s, a) && (a.Tag? || a.Update?)
    ensures Inv(Next(s, a))
  {
  }

  lemma OneStep(s: State, a: Action)
    requires Inv(s) && Enabled(s, a)
    ensures Inv(Next(s, a))
  {
    hide Inv, Next, Enabled;
    if a.CallbackStep? {
      InvCallback(s);
    } else if a.WriterStep? {
      InvWriter(s);
    } else {
      InvTag(s, a);
    }
  }

  lemma {:induction false} InvReachable(s: State, run: seq<Action>, t: State)
    requires Inv(s) && Reaches(s, run, t)
    ensures Inv(t)
    decreases |run|
  {
    hide Inv, Next, Enabled;
    if run != [] {
      OneStep(s, run[0]);
      InvReachable(Next(s, run[0]), run[1..], t);
    }
  }

  // ---- The theorems ----

  /** In every interleaving: one token exactly, no failing CAS in the writer, and no copy during a flash write. */
  lemma Safety(s: State, run: seq<Action>, t: State)
    requires Initial(s) && Reaches(s, run, t)
    ensures t.sem + One(t.wr == Cas) + One(t.cb == Give) == One(t.flag == PrepFinished)
    ensures t.wr == Cas ==> t.flag == PrepFinished && WriterNext(t).wr == Flashing([])
    ensures t.wr.Flashing? || t.wr == Finish ==> t.cb == Idle
  {
    InvInitially(s);
    InvReachable(s, run, t);
  }

  /**
   * What reaches flash are the accepted updates in order, without gaps or repeats, each with its stored
   * length, which is the whole file length as long as that fits a uint8_t.
   */
  lemma FlashedIsPrefixOfAccepted(s: State, run: seq<Action>, t: State)
    requires Initial(s) && Reaches(s, run, t)
    ensures |t.flashed| <= |t.accepted| <= |t.flashed| + 1
    ensures forall i :: 0 <= i < |t.flashed| ==>
              var u := t.accepted[i];
              u.dataLength + 2 <= |u.file| && t.flashed[i] == u.file[..(u.dataLength + 2) % 0x100]
              && (t.flashed[i] == u.file[..u.dataLength + 2] <==> u.dataLength + 2 <= 255)
  {
    InvInitially(s);
    InvReachable(s, run, t);
    forall i | 0 <= i < |t.flashed|
      ensures t.accepted[i].dataLength + 2 <= |t.accepted[i].file| && t.flashed[i] == Handed(t.accepted[i])
    {
      assert t.accepted[i] in t.accepted;
    }
  }

  /** Steps of the two parties still needed before the outstanding update is in flash. */
  function Rank(s: State): int
  {
    if !Outstanding(s) then 0
    else if s.cb == SetLength then |s.file| + 1000
    else if s.cb.Copying? then |s.file| - s.cb.k + 900
    else if s.cb == SetFlag then 800
    else if s.cb == Give then 700
    else if s.wr == Take then 600
    else if s.wr == Cas then 500
    else if s.wr.Flashing? then 400 - |s.wr.out|
    else 0
  }

  /** The party whose turn it is while an update is outstanding. */
  function Owed(s: State): Action
  {
    if s.cb != Idle then CallbackStep else WriterStep
  }

  /**
   * No accepted update is stranded: the party that owes the next step can always take it, doing so brings
   * the update closer to flash, no other step pushes it back, and the debt stands until it is paid.
   */
  lemma NotStranded(s: State, a: Action)
    requires Inv(s) && Outstanding(s) && Enabled(s, a)
    ensures Enabled(s, Owed(s)) && Rank(s) > 0
    ensures Rank(Next(s, Owed(s))) < Rank(s)
    ensures a != Owed(s) ==> Rank(Next(s, a)) == Rank(s) && Owed(Next(s, a)) == Owed(s)
    ensures Outstanding(Next(s, a)) <==> Next(s, a).flashed == s.flashed
  {
  }

  /** So from every reachable state the parties can finish the outstanding update on their own. */
  lemma {:induction false} Drains(s: State) returns (run: seq<Action>, t: State)
    requires Inv(s)
    ensures Reaches(s, run, t) && Inv(t) && !Outstanding(t)
    ensures t.accepted == s.accepted && t.file == s.file && |run| <= Rank(s)
    ensures forall a <- run :: a == CallbackStep || a == WriterStep
    decreases Rank(s)
  {
    hide Inv, Next, Enabled, Rank, Outstanding;
    RankIsNatural(s);
    if !Outstanding(s) {
      run, t := [], s;
    } else {
      var a := Owed(s);
      OwedEnabled(s);
      NotStranded(s, a);
      if a == CallbackStep {
        InvCallback(s);
      } else {
        InvWriter(s);
      }
      OwedKeepsAccepted(s);
      RankIsNatural(Next(s, a));
      var rest, end := Drains(Next(s, a));
      run, t := [a] + rest, end;
      assert run[1..] == rest;
    }
  }

  lemma OwedEnabled(s: State)
    requires Inv(s) && Outstanding(s)
    ensures Enabled(s, Owed(s))
  {
  }

  lemma OwedKeepsAccepted(s: State)
    requires Enabled(s, Owed(s))
    ensures Next(s, Owed(s)).accepted == s.accepted && Next(s, Owed(s)).file == s.file
  {
  }

  lemma RankIsNatural(s: State)
    requires Inv(s)
    ensures Rank(s) >= 0
  {
  }

  /** How often, in `run`, the party that owes the next step takes it. */
  function PaidSteps(s: State, run: seq<Action>): nat
    decreases |run|
  {
    if run == [] || !Enabled(s, run[0]) then 0
    else (if run[0] == Owed(s) then 1 else 0) + PaidSteps(Next(s, run[0]), run[1..])
  }

  /** In every run in which the owed steps keep being taken, whatever comes between them, the update gets to flash. */
  lemma {:induction false} Progress(s: State, run: seq<Action>, t: State)
    requires Inv(s) && Outstanding(s) && Reaches(s, run, t) && PaidSteps(s, run) >= Rank(s)
    ensures |t.flashed| >= |s.accepted| == |s.flashed| + 1
    decreases |run|
  {
    hide Next, Enabled, Rank, Owed, OneToken, Owners, InTransit;
    OwedEnabled(s);
    NotStranded(s, Owed(s));
    var a := run[0];
    var s1 := Next(s, a);
    NotStranded(s, a);
    OneStep(s, a);
    FlashedGrows(s, a);
    if Outstanding(s1) {
      Progress(s1, run[1..], t);
    } else {
      FlashedOnlyGrows(s1, run[1..], t);
    }
  }

  lemma FlashedGrows(s: State, a: Action)
    requires Enabled(s, a)
    ensures Next(s, a).flashed == s.flashed || |Next(s, a).flashed| == |s.flashed| + 1
  {
  }

  lemma {:induction false} FlashedOnlyGrows(s: State, run: seq<Action>, t: State)
    requires Reaches(s, run, t)
    ensures |t.flashed| >= |s.flashed|
    decreases |run|
  {
    hide Next, Enabled;
    if run != [] {
      FlashedGrows(s, run[0]);
      FlashedOnlyGrows(Next(s, run[0]), run[1..], t);
    }
  }

  /** An update in a free state is accepted and can get to flash, with as many bytes as the stored length says. */
  lemma UpdateFlashed(s: State, n: nat) returns (run: seq<Action>, t: State)
    requires Inv(s) && s.flag == WriteFinished && s.cb == Idle && 0 < n && n + 2 <= |s.file|
    ensures Reaches(s, run, t) && t.accepted == s.accepted + [Snapshot(s.file, n)]
    ensures t.flashed == s.flashed + [s.file[..(n + 2) % 0x100]]
  {
    hide Reaches;
    var s1 := Next(s, Update(n));
    InvTag(s, Update(n));
    var rest, end := Drains(s1);
    ReachesFirst(s, Update(n), rest, end);
    run, t := [Update(n)] + rest, end;
    assert t.flashed[|s.flashed|] == Handed(t.accepted[|s.flashed|]);
    assert t.flashed[..|s.flashed|] == s.flashed by {
      assert forall i :: 0 <= i < |s.flashed| ==> t.flashed[i] == Handed(t.accepted[i]) == s.flashed[i];
    }
  }

  /** Every first update can get to flash. */
  lemma FirstUpdateFlashed(s: State, n: nat)
    requires Initial(s) && 0 < n && n + 2 <= |s.file|
    ensures exists run, t :: Reaches(s, run, t) && t.accepted == [Snapshot(s.file, n)]
              && t.flashed == [s.file[..(n + 2) % 0x100]]
  {
    hide Reaches;
    InvInitially(s);
    var run, t := UpdateFlashed(s, n);
  }

  /** And so can a further one from every reachable state: the parties can finish what is outstanding first. */
  lemma FurtherUpdateFlashed(s: State, n: nat)
    requires Inv(s) && 0 < n && n + 2 <= |s.file|
    ensures exists run, t :: Reaches(s, run, t) && t.accepted == s.accepted + [Snapshot(s.file, n)]
              && |t.flashed| == |t.accepted| && t.flashed[|s.accepted|] == s.file[..(n + 2) % 0x100]
  {
    hide Reaches;
    var run, free := Frees(s);
    var more, t := UpdateFlashed(free, n);
    ReachesBoth(s, run, free, more, t);
  }

  lemma Frees(s: State) returns (run: seq<Action>, t: State)
    requires Inv(s)
    ensures Reaches(s, run, t) && Inv(t) && t.flag == WriteFinished && t.cb == Idle
    ensures t.accepted == s.accepted && t.file == s.file && |t.flashed| == |t.accepted|
  {
    hide Reaches;
    run, t := Drains(s);
    if t.wr == Finish {
      var next := Next(t, WriterStep);
      InvWriter(t);
      ReachesNone(next);
      ReachesFirst(t, WriterStep, [], next);
      ReachesBoth(s, run, t, [WriterStep] + [], next);
      run, t := run + ([WriterStep] + []), next;
    }
  }

  lemma ReachesNone(s: State)
    ensures Reaches(s, [], s)
  {
  }

  lemma {:induction false} ReachesBoth(s: State, run: seq<Action>, t: State, more: seq<Action>, u: State)
    requires Reaches(s, run, t) && Reaches(t, more, u)
    ensures Reaches(s, run + more, u)
    decreases |run|
  {
    hide Next, Enabled;
    if run == [] {
      assert run + more == more;
    } else {
      ReachesBoth(Next(s, run[0]), run[1..], t, more, u);
      assert (run + more)[1..] == run[1..] + more;
    }
  }

  lemma ReachesFirst(s: State, a: Action, run: seq<Action>, t: State)
    requires Enabled(s, a) && Reaches(Next(s, a), run, t)
    ensures Reaches(s, [a] + run, t)
  {
    hide Next, Enabled;
    assert ([a] + run)[1..] == run;
  }

  /** The limit matters: of an update of 254 bytes, 256 with its length field, nothing at all is flashed. */
  lemma LongUpdateIsLost(s: State)
    requires Initial(s) && |s.file| >= 256
    ensures exists run, t :: Reaches(s, run, t) && t.accepted == [Snapshot(s.file, 254)] && t.flashed == [[]]
  {
    hide Reaches, Initial;
    FirstUpdateFlashed(s, 254);
    assert s.file[..0] == [];
  }
}
