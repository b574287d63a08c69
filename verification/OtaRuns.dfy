/** Whole runs of the device with its OTA buffer: packets among other commands, and who may change the buffer. */
module OtaRuns {
  import opened Bytes
  import opened Wire
  import opened Ota
  import Auth
  import Protocol
  import A = AuthRuns
  import D = DeviceRuns

  datatype Event =
    | Ble(data: seq<byte>, now: nat, random: Auth.Nonce)
    | Elsewhere(event: D.Event)  // start-up, NFC commands, lost links, sensor readings

  function Next(s: State, e: Event): (r: (State, seq<byte>))
    requires Sized(s)
    ensures Sized(r.0)
  {
    match e
    case Ble(data, now, random) => HandleBle(s, data, now, random)
    case Elsewhere(event) => var (d, reply) := D.Next(s.device, event); (s.(device := d), reply)
  }

  /** The state after a run. */
  function Run(s: State, events: seq<Event>): (r: State)
    requires Sized(s)
    ensures Sized(r)
  {
    if events == [] then s else Next(Run(s, events[..|events| - 1]), events[|events| - 1]).0
  }

  function Initial(): (s: State)
    ensures Sized(s)
  {
    State(Protocol.Initial(), Transfer(false, false, 0, 0, 0, Zeros(BUF_SIZE)))
  }

  predicate IsOta(e: Event)
  {
    e.Ble? && IsOtaCommand(e.data)
  }

  // ---- Who may change the transfer ----

  /** What an event is for the device behind the OTA commands. */
  function DeviceEvent(e: Event): seq<D.Event>
  {
    match e
    case Elsewhere(event) => [event]
    case Ble(data, now, random) => if IsOta(e) || data == [] then [] else [D.Payload(BLE, data, 256, now, random)]
  }

  /** The device events of a run with the replies sent. */
  function DeviceSteps(events: seq<Event>): seq<D.Step>
  {
    if events == [] then []
    else
      var pre, e := events[..|events| - 1], events[|events| - 1];
      var es := DeviceEvent(e);
      DeviceSteps(pre) + (if es == [] then [] else [D.Step(es[0], Next(Run(Initial(), pre), e).1)])
  }

  function DeviceEvents(events: seq<Event>): seq<D.Event>
  {
    if events == [] then [] else DeviceEvents(events[..|events| - 1]) + DeviceEvent(events[|events| - 1])
  }

  lemma DeviceStep(s: State, e: Event)
    requires Sized(s)
    ensures var (s', reply) := Next(s, e); var es := DeviceEvent(e);
            if es == [] then s'.device == s.device
            else |es| == 1 && (s'.device, reply) == D.Next(s.device, es[0])
  {
    hide Receive, Start, Auth.HandleCmd;
  }

  lemma {:induction false} DeviceRun(events: seq<Event>)
    ensures Run(Initial(), events).device == D.Run(DeviceEvents(events))
    ensures DeviceSteps(events) == D.Observed(DeviceEvents(events))
  {
    hide Next, D.Next, D.Run, D.Observed, DeviceEvent, Initial, Protocol.Initial;
    if events == [] {
      SameStart();
    } else {
      var pre, e := events[..|events| - 1], events[|events| - 1];
      DeviceRun(pre);
      DeviceStep(Run(Initial(), pre), e);
      var d, es := DeviceEvents(pre), DeviceEvent(e);
      if es == [] {
        assert d + es == d;
      } else {
        assert es == [es[0]];
        DeviceOneMore(d, es[0]);
      }
    }
  }

  lemma SameStart()
    ensures Initial().device == D.Run([]) && D.Observed([]) == []
  {
  }

  lemma DeviceOneMore(events: seq<D.Event>, e: D.Event)
    ensures D.Run(events + [e]) == D.Next(D.Run(events), e).0
    ensures D.Observed(events + [e]) == D.Observed(events) + [D.Step(e, D.Next(D.Run(events), e).1)]
  {
    hide D.Next;
    assert (events + [e])[..|events|] == events;
  }

  /** The last session event on the BLE link, from the commands received and the replies sent. */
  function LinkSession(events: seq<Event>): A.Session
  {
    A.LastSession(D.AuthHistory(DeviceSteps(events)), BLE)
  }

  /**
   * In every run the OTA buffer and its book-keeping only change in a BLE command, and only while the
   * last session event of the link is a token success on this connection.
   */
  lemma TransferNeedsSession(events: seq<Event>, e: Event)
    ensures var s := Run(Initial(), events);
            Next(s, e).0.ota != s.ota ==> IsOta(e) && LinkSession(events).OpenSince?
  {
    hide Run, Receive, Start, D.LastSession, A.LastSession, Initial;
    DeviceRun(events);
    var s := Run(Initial(), events);
    SessionOf(events);
    D.BleSession(DeviceEvents(events));
    OnlyUnlocked(s, e);
  }

  lemma SessionOf(events: seq<Event>)
    ensures LinkSession(events) == D.LastSession(DeviceEvents(events), BLE)
  {
    hide A.LastSession, D.Observed, Run, DeviceSteps;
    DeviceRun(events);
  }

  lemma OnlyUnlocked(s: State, e: Event)
    requires Sized(s)
    ensures Next(s, e).0.ota != s.ota ==> IsOta(e) && s.device.auth.bleUnlocked
  {
    hide Receive, Start;
  }

  // ---- When a transfer is open, and what every OTA command gets ----

  datatype Step = Step(event: Event, reply: seq<byte>)

  /** The events of a run from power-up on with the replies sent. */
  function Observed(events: seq<Event>): (h: seq<Step>)
    ensures |h| == |events|
  {
    if events == [] then []
    else
      var pre, e := events[..|events| - 1], events[|events| - 1];
      Observed(pre) + [Step(e, Next(Run(Initial(), pre), e).1)]
  }

  predicate Starts(st: Step)
  {
    st.event.Ble? && |st.event.data| > 0 && st.event.data[0] == 0x10 && st.reply == [0x10, 0x00]
  }

  predicate Ends(st: Step)
  {
    st.event.Ble? && |st.event.data| > 0 && st.event.data[0] == 0x12 && st.reply == [0x12, 0x00]
  }

  /** The last START or END answered OK is the START at step `j`. */
  ghost predicate OpenSince(h: seq<Step>, j: nat)
  {
    j < |h| && Starts(h[j]) && forall k :: j < k < |h| ==> !Starts(h[k]) && !Ends(h[k])
  }

  lemma ActiveStep(s: State, e: Event)
    requires Sized(s)
    ensures var (t, reply) := Next(s, e); var st := Step(e, reply);
            && !(Starts(st) && Ends(st))
            && (t.ota.active <==> Starts(st) || (s.ota.active && !Ends(st)))
  {
    hide Receive, Start;
    if e.Ble? && IsOtaCommand(e.data) {
      ActiveAfter(s.ota, e.data, Auth.CheckWrite(s.device.auth, BLE, e.now).1);
    }
  }

  lemma ActiveAfter(t: Transfer, data: seq<byte>, st: byte)
    requires |t.buf| == BUF_SIZE && IsOtaCommand(data)
    ensures var (t', reply) := OtaCommand(t, data, st);
            t'.active == if st != OK then t.active else if data[0] == 0x10 then true
                         else if data[0] == 0x12 then false else t.active
  {
    hide Get32Be;
  }

  ghost predicate TransferOpen(h: seq<Step>)
  {
    exists j: nat :: OpenSince(h, j)
  }

  lemma OpenStep(g: seq<Step>, st: Step)
    requires !(Starts(st) && Ends(st))
    ensures TransferOpen(g + [st]) <==> Starts(st) || (TransferOpen(g) && !Ends(st))
  {
    hide Starts, Ends;
    var h, n := g + [st], |g|;
    assert h[n] == st && forall k :: 0 <= k < n ==> h[k] == g[k];
    if Starts(st) {
      assert OpenSince(h, n);
    } else if !Ends(st) && TransferOpen(g) {
      var j: nat :| OpenSince(g, j);
      assert OpenSince(h, j);
    }
    if TransferOpen(h) && !Starts(st) {
      var j: nat :| OpenSince(h, j);
      assert OpenSince(g, j) && !Ends(h[n]);
    }
  }

  /** A transfer is open exactly when the last START or END that was answered OK is a START. */
  lemma {:induction false} OpenIff(events: seq<Event>)
    ensures Run(Initial(), events).ota.active <==> TransferOpen(Observed(events))
  {
    hide Next, Initial, Starts, Ends, OpenSince;
    if events == [] {
      InitiallyClosed();
    } else {
      var pre, e := events[..|events| - 1], events[|events| - 1];
      OpenIff(pre);
      ActiveStep(Run(Initial(), pre), e);
      OpenStep(Observed(pre), Step(e, Next(Run(Initial(), pre), e).1));
    }
  }

  lemma InitiallyClosed()
    ensures !Initial().ota.active && !TransferOpen([])
  {
  }

  /** A packet: byte `p` of the buffer is the packet's if it lies where the index says and the whole packet fits. */
  ghost predicate PacketTaken(t: Transfer, data: seq<byte>, t': Transfer)
  {
    if |data| < 4 then t' == t
    else
      var idx, len := FromBigEndian(data[1..3]), |data| - 3;
      var fits := 492 * idx + len <= 32_768;
      && |t.buf| == |t'.buf| == 32_768
      && (forall p :: 0 <= p < 32_768 ==>
            t'.buf[p] == if fits && 492 * idx <= p < 492 * idx + len then data[3 + p - 492 * idx] else t.buf[p])
      && t'.bytesReceived as nat == (t.bytesReceived as nat + if fits then len else 0) % 0x1_0000_0000
      && t'.nextIdx == (idx + 1) % 0x1_0000
      && t'.active == t.active && t'.done == t.done && t'.totalSize == t.totalSize
  }

  lemma ReceiveTakes(t: Transfer, data: seq<byte>)
    requires |t.buf| == BUF_SIZE
    ensures PacketTaken(t, data, Receive(t, data))
  {
    hide Get16Be, FromBigEndian;
    if |data| >= 4 {
      Get16IsBigEndian(data[1..3]);
    }
  }

  /** Reply and new transfer for every OTA command of a run, by the session of the link and whether a transfer is open. */
  lemma OtaCommandsAnswered(events: seq<Event>, e: Event)
    requires IsOta(e)
    ensures var s := Run(Initial(), events); var (s', reply) := Next(s, e);
            && s'.device == s.device
            && if !LinkSession(events).OpenSince? then s' == s && reply == [e.data[0], 0x0B]
               else if e.data[0] == 0x10 then
                 && reply == [0x10, 0x00] && s'.ota == Transfer(true, false, s'.ota.totalSize, 0, 0, s.ota.buf)
                 && s'.ota.totalSize as nat == if |e.data| >= 5 then FromBigEndian(e.data[1..5]) else 0
               else if e.data[0] == 0x12 then
                 reply == [0x12, 0x00] && s'.ota == s.ota.(active := false, done := true)
               else if !TransferOpen(Observed(events)) then s' == s && reply == [0x11, 0x09]
               else reply == [] && PacketTaken(s.ota, e.data, s'.ota)
  {
    hide Run, Initial, Receive, A.LastSession, D.LastSession, LinkSession, TransferOpen, PacketTaken, Observed,
      FromBigEndian, Get32Be;
    var s := Run(Initial(), events);
    OpenIff(events);
    DeviceRun(events);
    SessionOf(events);
    D.BleSession(DeviceEvents(events));
    ReceiveTakes(s.ota, e.data);
    if |e.data| >= 5 {
      Get32IsBigEndian(e.data[1..5]);
    }
  }

  // ---- Packets among other commands ----

  /** The only OTA commands in `events` are packets of `image`. */
  predicate Transfers(image: seq<byte>, events: seq<Event>)
  {
    && 1 <= |image| <= BUF_SIZE
    && forall e <- events :: IsOta(e) ==> IsPacket(image, e)
  }

  predicate IsPacket(image: seq<byte>, e: Event)
    requires 1 <= |image| <= BUF_SIZE
  {
    && e.Ble? && |e.data| >= 4 && e.data[0] == CMD_OTA_DATA
    && var k := Get16Be(e.data[1..3]);
       k < PacketCount(image) && e.data == DataCommand(image, k)
  }

  /** The packets that arrive while the link is unlocked. */
  function Arrived(s: State, events: seq<Event>): seq<nat>
    requires Sized(s)
  {
    if events == [] then []
    else
      var pre, e := events[..|events| - 1], events[|events| - 1];
      Arrived(s, pre)
      + (if IsOta(e) && |e.data| >= 4 && Run(s, pre).device.auth.bleUnlocked then [Get16Be(e.data[1..3])] else [])
  }

  lemma StepOfOther(s: State, e: Event)
    requires Sized(s) && (!IsOta(e) || !s.device.auth.bleUnlocked)
    ensures Next(s, e).0.ota == s.ota
  {
    hide Receive, Start;
  }

  /**
   * Whatever happens in between: each buffer byte is the image's if its packet has arrived and the old one
   * otherwise, and the byte count is the sum of the lengths.
   */
  lemma {:induction false} ArrivedArePlaced(s: State, image: seq<byte>, events: seq<Event>)
    requires Sized(s) && Transfers(image, events) && s.ota.active
    ensures var t := Run(s, events); var order := Arrived(s, events);
            && t.ota.active && Cuts(image, order) && Placed(image, order, s.ota.buf, t.ota.buf)
            && t.ota.bytesReceived as int == (s.ota.bytesReceived as int + TotalLength(image, order)) % 0x1_0000_0000
  {
    hide Next, IsOta, IsPacket, PacketOf, Placed, PacketCount, TotalLength;
    if events == [] {
      NoLength(image);
      NothingPlaced(image, s.ota.buf);
    } else {
      var pre, e := events[..|events| - 1], events[|events| - 1];
      assert e in events && forall x <- pre :: x in events;
      ArrivedArePlaced(s, image, pre);
      var mid := Run(s, pre);
      if IsOta(e) && mid.device.auth.bleUnlocked {
        var k := PacketStep(mid, image, e);
        var order := Arrived(s, pre);
        assert Arrived(s, events) == order + [k];
        PlaceOne(image, order, k, s.ota.buf, mid.ota.buf, Run(s, events).ota.buf);
        OneMore(image, order, k);
        SumWraps(s.ota.bytesReceived as nat + TotalLength(image, order), |PacketOf(image, k)|);
      } else {
        StepOfOther(mid, e);
        assert Arrived(s, events) == Arrived(s, pre);
      }
    }
  }

  lemma NoLength(image: seq<byte>)
    requires Cuts(image, [])
    ensures TotalLength(image, []) == 0
  {
  }

  lemma OneMore(image: seq<byte>, order: seq<nat>, k: nat)
    requires Cuts(image, order) && k < PacketCount(image)
    ensures Cuts(image, order + [k])
    ensures TotalLength(image, order + [k]) == TotalLength(image, order) + |PacketOf(image, k)|
  {
    hide PacketCount, PacketOf;
    assert (order + [k])[..|order|] == order;
  }

  lemma SumWraps(a: nat, b: nat)
    ensures (a % 0x1_0000_0000 + b) % 0x1_0000_0000 == (a + b) % 0x1_0000_0000
  {
  }

  lemma PacketStep(s: State, image: seq<byte>, e: Event) returns (k: nat)
    requires Sized(s) && 1 <= |image| <= BUF_SIZE && IsPacket(image, e)
    requires s.device.auth.bleUnlocked && s.ota.active
    ensures k < PacketCount(image) && |e.data| >= 4 && k == Get16Be(e.data[1..3])
    ensures var s' := Next(s, e).0; var p := PacketOf(image, k);
            s'.device == s.device && s'.ota.active
            && s'.ota.bytesReceived as int == (s.ota.bytesReceived as int + |p|) % 0x1_0000_0000
            && s'.ota.buf == s.ota.buf[..k * PACKET] + p + s.ota.buf[k * PACKET + |p|..]
  {
    hide HandleBle, PacketOf, PacketCount;
    k := Get16Be(e.data[1..3]);
    ReceiveOne(s, image, k, e.now, e.random);
  }

  /**
   * After START on an unlocked link: when every packet of an image arrives at least once while the link is
   * unlocked, in any order and among any other commands and events, the image stands in front of what the
   * buffer held before; when each arrives exactly once, the byte count is the image's length.
   */
  lemma ImageReassembled(
    s: State, start: seq<byte>, now: nat, random: Auth.Nonce, image: seq<byte>, events: seq<Event>)
    requires Sized(s) && s.device.auth.bleUnlocked && |start| > 0 && start[0] == CMD_OTA_START
    requires Transfers(image, events)
    ensures var s1 := HandleBle(s, start, now, random).0;
            var t := Run(s1, events); var order := Arrived(s1, events);
            && ((forall k :: 0 <= k < PacketCount(image) ==> k in order) ==> t.ota.buf == image + s.ota.buf[|image|..])
            && (Exactly(order, PacketCount(image)) ==> t.ota.bytesReceived as int == |image|)
  {
    hide HandleBle, Run, Arrived, TotalLength, Exactly, Placed, PacketCount, PacketOf, PrefixLength;
    var s1 := HandleBle(s, start, now, random).0;
    Started(s, start, now, random);
    ArrivedArePlaced(s1, image, events);
    var t, order := Run(s1, events), Arrived(s1, events);
    if forall k :: 0 <= k < PacketCount(image) ==> k in order {
      CoversAll(image, order, s.ota.buf, t.ota.buf);
    }
    if Exactly(order, PacketCount(image)) {
      DistinctTotal(image, order, PacketCount(image));
      LastPacketReachesEnd(image);
    }
  }

  /** The packets `order` of `image` one after the other, the n-th at time `clock(n)`. */
  function Packets(image: seq<byte>, order: seq<nat>, clock: nat -> nat): seq<Event>
    requires Cuts(image, order)
  {
    seq(|order|, i requires 0 <= i < |order| => Ble(DataCommand(image, order[i]), clock(i), Zeros(8)))
  }

  /** With nothing in between every packet arrives, so the theorem covers any order with any repetitions. */
  lemma {:induction false} UninterruptedArrive(s: State, image: seq<byte>, order: seq<nat>, clock: nat -> nat)
    requires Sized(s) && Cuts(image, order) && s.device.auth.bleUnlocked && s.ota.active
    ensures var events := Packets(image, order, clock);
            Transfers(image, events) && Arrived(s, events) == order && Run(s, events).device == s.device
  {
    hide Next, PacketOf, PacketCount, IsPacket, Arrived, Run, IsOta;
    PacketsTransfer(image, order, clock);
    var events := Packets(image, order, clock);
    if order == [] {
      NothingArrives(s);
    } else {
      var n := |order| - 1;
      assert events[..n] == Packets(image, order[..n], clock);
      UninterruptedArrive(s, image, order[..n], clock);
      assert events[n] in events;
      OneMoreArrives(s, image, events);
      IndexOf(image, order[n]);
      assert order[..n] + [order[n]] == order;
    }
  }

  lemma NothingArrives(s: State)
    requires Sized(s)
    ensures Arrived(s, []) == [] && Run(s, []) == s
  {
  }

  lemma OneMoreArrives(s: State, image: seq<byte>, events: seq<Event>)
    requires Sized(s) && s.ota.active && events != [] && Transfers(image, events)
    requires var e := events[|events| - 1]; IsPacket(image, e) && IsOta(e)
    requires Run(s, events[..|events| - 1]).device.auth.bleUnlocked
    ensures var pre, e := events[..|events| - 1], events[|events| - 1];
            |e.data| >= 4 && Arrived(s, events) == Arrived(s, pre) + [Get16Be(e.data[1..3])]
            && Run(s, events).device == Run(s, pre).device
  {
    hide Next, PacketOf, PacketCount, IsPacket, IsOta;
    var pre, e := events[..|events| - 1], events[|events| - 1];
    assert Transfers(image, pre);
    ArrivedArePlaced(s, image, pre);
    var k := PacketStep(Run(s, pre), image, e);
  }

  lemma IndexOf(image: seq<byte>, k: nat)
    requires 1 <= |image| <= BUF_SIZE && k < PacketCount(image)
    ensures var d := DataCommand(image, k); |d| >= 4 && d[0] == CMD_OTA_DATA && Get16Be(d[1..3]) == k
  {
    assert DataCommand(image, k)[1..3] == Put16Be(k);
  }

  lemma PacketsTransfer(image: seq<byte>, order: seq<nat>, clock: nat -> nat)
    requires Cuts(image, order)
    ensures forall e <- Packets(image, order, clock) :: IsPacket(image, e) && IsOta(e)
    ensures Transfers(image, Packets(image, order, clock))
  {
    hide DataCommand, PacketCount;
    forall i | 0 <= i < |order|
      ensures IsPacket(image, Packets(image, order, clock)[i])
    {
      IndexOf(image, order[i]);
    }
  }
}
