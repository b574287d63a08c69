/** OTA reassembly and the BLE entry point of src/app_config.c. */
module Ota {
  import opened Bytes
  import opened Wire
  import Auth
  import Protocol
  import opened Handlers

  const BUF_SIZE: nat := 0x8000
  const PACKET: nat := 492

  // ---- The transition functions ----

  datatype Transfer = Transfer(
    active: bool, done: bool, totalSize: word, nextIdx: u16, bytesReceived: word, buf: seq<byte>
  )

  /** CMD 0x10 clears everything but the buffer. */
  function Start(t: Transfer, data: seq<byte>): Transfer
  {
    Transfer(true, false, if |data| >= 5 then Get32Be(data[1..5]) else 0, 0, 0, t.buf)
  }

  /** CMD 0x11 puts the packet at its index times 492, or drops it when it would not fit. */
  function Receive(t: Transfer, data: seq<byte>): Transfer
    requires |t.buf| == BUF_SIZE
  {
    if |data| < 4 then t
    else
      var idx, bytes := Get16Be(data[1..3]), data[3..];
      var at := idx * PACKET;
      var t1 := if at + |bytes| <= BUF_SIZE then
                  t.(buf := t.buf[..at] + bytes + t.buf[at + |bytes|..],
                     bytesReceived := ((t.bytesReceived as int + |bytes|) % 0x1_0000_0000) as word)
                else t;
      t1.(nextIdx := (idx + 1) % 0x1_0000)
  }

  datatype State = State(device: Protocol.State, ota: Transfer)

  predicate Sized(s: State) { |s.ota.buf| == BUF_SIZE }

  predicate IsOtaCommand(data: seq<byte>)
  {
    |data| > 0 && data[0] in {CMD_OTA_START, CMD_OTA_DATA, CMD_OTA_END}
  }

  /** CMD 0x10 to 0x12 on a link whose permission is `st`: what happens to the transfer, and the reply. */
  function OtaCommand(t: Transfer, data: seq<byte>, st: byte): (Transfer, seq<byte>)
    requires |t.buf| == BUF_SIZE && IsOtaCommand(data)
  {
    if st != OK then (t, [data[0], st])
    else if data[0] == CMD_OTA_START then (Start(t, data), [CMD_OTA_START, OK])
    else if data[0] == CMD_OTA_END then (t.(active := false, done := true), [CMD_OTA_END, OK])
    else if !t.active then (t, [CMD_OTA_DATA, OTA_STATE])
    else (Receive(t, data), [])
  }

  /** app_config_handle_ble: OTA commands need an unlocked link and do not reach the protocol. */
  function HandleBle(s: State, data: seq<byte>, now: nat, random: Auth.Nonce): (State, seq<byte>)
    requires Sized(s)
  {
    if |data| < 1 then (s, [])
    else if IsOtaCommand(data) then
      var (a, st) := Auth.CheckWrite(s.device.auth, BLE, now);
      var (t, reply) := OtaCommand(s.ota, data, st);
      (State(s.device.(auth := a), t), reply)
    else
      var (d, reply) := Protocol.Process(s.device, BLE, data, 256, now, random);
      (s.(device := d), reply)
  }

  // ---- The code ----

  class Module {
    var active: bool
    var done: bool
    var totalSize: word
    var nextIdx: u16
    var bytesReceived: word
    const buf: array<byte>

    function View(): Transfer
      reads this, buf
    {
      Transfer(active, done, totalSize, nextIdx, bytesReceived, buf[..])
    }

    constructor ()
      ensures fresh(buf) && buf.Length == BUF_SIZE
      ensures View() == Transfer(false, false, 0, 0, 0, Zeros(BUF_SIZE))
    {
      active, done, totalSize, nextIdx, bytesReceived := false, false, 0, 0, 0;
      buf := new byte[BUF_SIZE](i => 0);
    }

    method ReceivePacket(data: seq<byte>)
      requires buf.Length == BUF_SIZE && |data| < 0x1_0000
      modifies this, buf
      ensures View() == Receive(old(View()), data)
    {
      if |data| >= 4 {
        var idx := Get16Be(data[1..3]);
        var dataLen: u16 := |data| - 3;
        var offset := idx * PACKET;
        if offset + dataLen <= BUF_SIZE {
          Copy(buf, offset, data[3..]);
          bytesReceived := ((bytesReceived as int + dataLen) % 0x1_0000_0000) as word;
        }
        nextIdx := (idx + 1) % 0x1_0000;
      }
    }

    method AppConfigHandleBle(device: Device, data: seq<byte>, resp: array<byte>, now: nat, random: Auth.Nonce)
      returns (n: u16)
      requires buf.Length == BUF_SIZE && resp.Length >= 256 && |data| < 0x1_0000 && resp != buf
      modifies this, buf, device.fields, device.auth, resp
      ensures n <= resp.Length
      ensures (State(device.View(), View()), resp[..n]) ==
              HandleBle(old(State(device.View(), View())), data, now, random)
    {
      hide Protocol.Process, Receive, Auth.Module.View, Device.View, Get32Be, Auth.HandleCmd;
      if |data| < 1 {
        return 0;
      }
      var cmd := data[0];
      if cmd in {CMD_OTA_START, CMD_OTA_DATA, CMD_OTA_END} {
        n := HandleOta(device, data, resp, now);
        return;
      }
      var internal := new byte[256];
      Auth.ReplyLength(device.auth.View(), BLE, data, now, random);
      n := device.ProcessAppPayload(BLE, data, internal, 256, now, random);
      if n > 0 {
        Copy(resp, 0, internal[..n]);
      }
    }

    method HandleOta(device: Device, data: seq<byte>, resp: array<byte>, now: nat) returns (n: u16)
      requires buf.Length == BUF_SIZE && resp.Length >= 256 && IsOtaCommand(data) && |data| < 0x1_0000 && resp != buf
      modifies this, buf, device.auth, resp
      ensures n <= 2
      ensures var (a, st) := Auth.CheckWrite(old(device.View()).auth, BLE, now);
              (View(), resp[..n]) == OtaCommand(old(View()), data, st)
              && device.View() == old(device.View()).(auth := a)
    {
      hide Receive, Get32Be, Auth.CheckWrite, Auth.Module.View;
      var authSt := device.auth.AppAuthCheckWrite(BLE, now);
      if authSt != OK {
        n := Auth.Reply(resp, [data[0], authSt]);
      } else if data[0] == CMD_OTA_START {
        active, done, totalSize, nextIdx, bytesReceived := true, false, 0, 0, 0;
        if |data| >= 5 {
          totalSize := Get32Be(data[1..5]);
        }
        n := Auth.Reply(resp, [CMD_OTA_START, OK]);
      } else if data[0] == CMD_OTA_END {
        active, done := false, true;
        n := Auth.Reply(resp, [CMD_OTA_END, OK]);
      } else if !active {
        n := Auth.Reply(resp, [CMD_OTA_DATA, OTA_STATE]);
      } else {
        ReceivePacket(data);
        n := 0;
      }
    }
  }

  // ---- Any order, any repetition ----

  /** The packets an image is cut into. */
  function PacketCount(image: seq<byte>): nat
  {
    (|image| + PACKET - 1) / PACKET
  }

  function PacketOf(image: seq<byte>, k: nat): (p: seq<byte>)
    requires k < PacketCount(image)
    ensures 1 <= |p| <= PACKET && k * PACKET + |p| <= |image|
  {
    if (k + 1) * PACKET <= |image| then image[k * PACKET..(k + 1) * PACKET] else image[k * PACKET..]
  }

  predicate Cuts(image: seq<byte>, order: seq<nat>)
  {
    1 <= |image| <= BUF_SIZE && forall i :: 0 <= i < |order| ==> order[i] < PacketCount(image)
  }

  /** CMD 0x11 carrying packet `k`. */
  function DataCommand(image: seq<byte>, k: nat): seq<byte>
    requires 1 <= |image| <= BUF_SIZE && k < PacketCount(image)
  {
    [CMD_OTA_DATA] + Put16Be(k) + PacketOf(image, k)
  }

  /** The position `p` of the buffer belongs to packet `p / 492`. */
  predicate Placed(image: seq<byte>, order: seq<nat>, before: seq<byte>, after: seq<byte>)
  {
    && |before| == |after| == BUF_SIZE && |image| <= BUF_SIZE
    && forall p :: 0 <= p < BUF_SIZE ==>
         after[p] == if p < |image| && p / PACKET in order then image[p] else before[p]
  }

  lemma ReceiveOne(s: State, image: seq<byte>, k: nat, now: nat, random: Auth.Nonce)
    requires Sized(s) && 1 <= |image| <= BUF_SIZE && k < PacketCount(image)
    requires s.device.auth.bleUnlocked && s.ota.active
    ensures var s' := HandleBle(s, DataCommand(image, k), now, random).0; var p := PacketOf(image, k);
            s'.device == s.device && s'.ota.active
            && s'.ota.bytesReceived as int == (s.ota.bytesReceived as int + |p|) % 0x1_0000_0000
            && s'.ota.buf == s.ota.buf[..k * PACKET] + p + s.ota.buf[k * PACKET + |p|..]
  {
    var data := DataCommand(image, k);
    assert data[1..3] == Put16Be(k) && data[3..] == PacketOf(image, k);
    assert Get16Be(Put16Be(k)) == k;
  }

  lemma PlaceOne(image: seq<byte>, order: seq<nat>, k: nat, before: seq<byte>, mid: seq<byte>, after: seq<byte>)
    requires 1 <= |image| <= BUF_SIZE && k < PacketCount(image) && Placed(image, order, before, mid)
    requires var p := PacketOf(image, k); after == mid[..k * PACKET] + p + mid[k * PACKET + |p|..]
    ensures Placed(image, order + [k], before, after)
  {
    var p := PacketOf(image, k);
    forall q | 0 <= q < BUF_SIZE
      ensures after[q] == if q < |image| && q / PACKET in order + [k] then image[q] else before[q]
    {
      if k * PACKET <= q < k * PACKET + |p| {
        assert q / PACKET == k;
        assert after[q] == p[q - k * PACKET] == image[q];
      } else {
        assert after[q] == mid[q];
        assert q < |image| ==> q / PACKET != k;
      }
    }
  }

  function TotalLength(image: seq<byte>, order: seq<nat>): nat
    requires Cuts(image, order)
  {
    if order == [] then 0 else TotalLength(image, order[..|order| - 1]) + |PacketOf(image, order[|order| - 1])|
  }

  lemma NothingPlaced(image: seq<byte>, before: seq<byte>)
    requires |before| == BUF_SIZE && |image| <= BUF_SIZE
    ensures Placed(image, [], before, before)
  {
  }

  /** `order` lists 0 to m - 1, each once. */
  predicate Exactly(order: seq<nat>, m: nat)
  {
    && (forall i, j :: 0 <= i < j < |order| ==> order[i] != order[j])
    && (forall i :: 0 <= i < |order| ==> order[i] < m)
    && (forall k :: 0 <= k < m ==> k in order)
  }

  lemma WithoutLast(a: seq<nat>, m: nat, b: seq<nat>)
    requires Exactly(a + [m] + b, m + 1)
    ensures Exactly(a + b, m)
  {
    var all, rest := a + [m] + b, a + b;
    assert all[|a|] == m;
    assert forall i :: 0 <= i < |a| ==> rest[i] == all[i];
    assert forall i :: |a| <= i < |rest| ==> rest[i] == all[i + 1];
    forall k | 0 <= k < m
      ensures k in rest
    {
      assert k in all;
      var i :| 0 <= i < |all| && all[i] == k;
      assert i < |a| ==> rest[i] == k;
      assert i > |a| ==> rest[i - 1] == k;
    }
  }

  lemma TakeOut(order: seq<nat>, m: nat) returns (a: seq<nat>, b: seq<nat>)
    requires Exactly(order, m + 1)
    ensures order == a + [m] + b && Exactly(a + b, m)
  {
    assert m in order;
    var j :| 0 <= j < |order| && order[j] == m;
    a, b := order[..j], order[j + 1..];
    assert order == a + [m] + b;
    WithoutLast(a, m, b);
  }

  lemma NonemptyOrder(order: seq<nat>, m: nat)
    requires Exactly(order, m) && order != []
    ensures m > 0
  {
    assert order[0] < m;
  }

  /** The bytes in the first `m` packets. */
  function PrefixLength(image: seq<byte>, m: nat): nat
  {
    if m * PACKET <= |image| then m * PACKET else |image|
  }

  lemma PrefixGrows(image: seq<byte>, k: nat)
    requires k < PacketCount(image)
    ensures PrefixLength(image, k + 1) == PrefixLength(image, k) + |PacketOf(image, k)|
  {
  }

  /** Every packet once, in any order, adds up to the image. */
  lemma {:induction false} DistinctTotal(image: seq<byte>, order: seq<nat>, m: nat)
    requires Cuts(image, order) && m <= PacketCount(image) && Exactly(order, m)
    ensures TotalLength(image, order) == PrefixLength(image, m)
    decreases m
  {
    hide Exactly, PrefixLength, PacketOf, PacketCount, Cuts;
    if m == 0 {
      if order != [] {
        NonemptyOrder(order, m);
      }
      NoPackets(image);
    } else {
      var a, b := TakeOut(order, m - 1);
      TotalOfThree(image, a, m - 1, b);
      DistinctTotal(image, a + b, m - 1);
      PrefixGrows(image, m - 1);
    }
  }

  lemma NoPackets(image: seq<byte>)
    ensures PrefixLength(image, 0) == 0
  {
  }

  lemma CutsWithout(image: seq<byte>, a: seq<nat>, k: nat, b: seq<nat>)
    requires Cuts(image, a + [k] + b)
    ensures Cuts(image, a + b) && k < PacketCount(image)
  {
    hide PacketCount;
    var all := a + [k] + b;
    assert all[|a|] == k;
    assert forall i :: 0 <= i < |a| ==> (a + b)[i] == all[i];
    assert forall i :: |a| <= i < |a + b| ==> (a + b)[i] == all[i + 1];
  }

  lemma {:induction false} TotalOfThree(image: seq<byte>, a: seq<nat>, k: nat, b: seq<nat>)
    requires Cuts(image, a + [k] + b)
    ensures Cuts(image, a + b) && k < PacketCount(image)
    ensures TotalLength(image, a + [k] + b) == TotalLength(image, a + b) + |PacketOf(image, k)|
  {
    hide PacketOf, PacketCount;
    CutsWithout(image, a, k, b);
    if b == [] {
      assert (a + [k] + b)[..|a|] == a && a + b == a;
    } else {
      var n := |b| - 1;
      assert (a + [k] + b)[..|a| + 1 + n] == a + [k] + b[..n];
      assert (a + b)[..|a| + n] == a + b[..n];
      TotalOfThree(image, a, k, b[..n]);
    }
  }

  lemma Started(s: State, start: seq<byte>, now: nat, random: Auth.Nonce)
    requires Sized(s) && s.device.auth.bleUnlocked && |start| > 0 && start[0] == CMD_OTA_START
    ensures var s1 := HandleBle(s, start, now, random).0;
            s1.device == s.device && s1.ota.active && s1.ota.buf == s.ota.buf && s1.ota.bytesReceived == 0
  {
    hide Get32Be;
  }

  lemma LastPacketReachesEnd(image: seq<byte>)
    ensures PrefixLength(image, PacketCount(image)) == |image|
  {
  }

  lemma CoversAll(image: seq<byte>, order: seq<nat>, before: seq<byte>, after: seq<byte>)
    requires Placed(image, order, before, after)
    requires forall k :: 0 <= k < PacketCount(image) ==> k in order
    ensures after == image + before[|image|..]
  {
    forall p | 0 <= p < BUF_SIZE
      ensures after[p] == (image + before[|image|..])[p]
    {
      if p < |image| {
        assert 0 <= p / PACKET < PacketCount(image);
      }
    }
  }
}
