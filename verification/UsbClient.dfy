/** Composing DMX frames with overlays and flushing them to the widget: libs/enttec/usb_client.cc, as driven by
    app_dmx_usb_node/app_dmx_usb_node.cc. */
module UsbClient {
  import opened Base
  import opened Overlay
  import opened EnttecFrame

  const FRAME_SIZE := 513
  const SET_DMX_TX_MODE := 6
  const START_CODE: byte := 0

  /** The ranges the message uses lie inside the frame; nothing checks this on arrival. */
  predicate InBounds(m: Message) {
    && m.numOverlays <= |m.overlays| == MAX_OVERLAYS && |m.data| == DMX_SIZE
    && forall i :: 0 <= i < m.numOverlays ==> m.overlays[i].start + m.overlays[i].length <= DMX_SIZE
  }

  /** The first `n` ranges of the message copied over the frame, one after the other. */
  function Patched(frame: seq<byte>, m: Message, n: nat): (r: seq<byte>)
    requires |frame| == FRAME_SIZE && InBounds(m) && n <= m.numOverlays
    ensures |r| == FRAME_SIZE
  {
    if n == 0 then frame
    else
      var range := m.overlays[n - 1];
      Splice(Patched(frame, m, n - 1), 1 + range.start, m.data[range.start..range.start + range.length])
  }

  lemma PatchedStep(frame: seq<byte>, m: Message, i: nat)
    requires |frame| == FRAME_SIZE && InBounds(m)
    ensures Patched(frame, m, 0) == frame
    ensures i < m.numOverlays ==> var range := m.overlays[i];
      Patched(frame, m, i + 1) ==
        Splice(Patched(frame, m, i), 1 + range.start, m.data[range.start..range.start + range.length])
  {
  }

  predicate Covered(m: Message, n: nat, c: nat)
    requires n <= |m.overlays|
  {
    exists i :: 0 <= i < n && Covers(m.overlays[i], c)
  }

  /** Order and overlap of the ranges do not matter: a channel shows the image if any range covers it. */
  lemma {:induction false} PatchedAt(frame: seq<byte>, m: Message, n: nat, c: nat)
    requires |frame| == FRAME_SIZE && InBounds(m) && n <= m.numOverlays && c < DMX_SIZE
    ensures Patched(frame, m, n)[0] == frame[0]
    ensures Patched(frame, m, n)[1 + c] == if Covered(m, n, c) then m.data[c] else frame[1 + c]
  {
    if n > 0 {
      PatchedAt(frame, m, n - 1, c);
      assert Covered(m, n, c) <==> Covered(m, n - 1, c) || Covers(m.overlays[n - 1], c);
    }
  }

  /** `UpdateFrame`: the start code, the base frame, and the buffered overlay on top. */
  function Composed(base: seq<byte>, overlay: Option<Message>): (r: seq<byte>)
    requires |base| == DMX_SIZE && (overlay.Some? ==> InBounds(overlay.value))
    ensures |r| == FRAME_SIZE
  {
    match overlay
    case Some(m) => Patched([START_CODE] + base, m, m.numOverlays)
    case None => [START_CODE] + base
  }

  class EnttecClient {
    const serialized: array<byte>
    var lastOverlay: Option<Message>
    var isNewFrame: bool
    var sendCounter: int
    const device: Device
    const connected: bool

    ghost predicate Valid()
      reads this
    {
      serialized.Length == FRAME_SIZE && (lastOverlay.Some? ==> InBounds(lastOverlay.value))
    }

    constructor (device: Device, connected: bool)
      ensures Valid() && fresh(serialized) && this.device == device && this.connected == connected
      ensures serialized[..] == seq(FRAME_SIZE, _ => 0) && lastOverlay == None && !isNewFrame && sendCounter == 0
    {
      this.device, this.connected := device, connected;
      serialized := new byte[FRAME_SIZE](_ => 0);
      lastOverlay, isNewFrame, sendCounter := None, false, 0;
    }

    method PatchAll(m: Message)
      requires Valid() && InBounds(m)
      modifies serialized
      ensures serialized[..] == Patched(old(serialized[..]), m, m.numOverlays)
    {
      hide Patched, Splice;
      ghost var frame := serialized[..];
      PatchedStep(frame, m, 0);
      for i := 0 to m.numOverlays
        invariant serialized[..] == Patched(frame, m, i)
      {
        var start, length := m.overlays[i].start, m.overlays[i].length;
        var image := m.data[start..start + length];
        PatchedStep(frame, m, i);
        Memcpy(serialized, 1 + start, image);
      }
    }

    method ApplyOverlay(m: Message, bufferOverlay: bool)
      requires Valid() && InBounds(m)
      modifies this`lastOverlay, this`isNewFrame, serialized
      ensures Valid() && isNewFrame
      ensures serialized[..] == Patched(old(serialized[..]), m, m.numOverlays)
      ensures lastOverlay == if bufferOverlay then Some(m) else old(lastOverlay)
    {
      PatchAll(m);
      if bufferOverlay {
        lastOverlay := Some(m);
      }
      isNewFrame := true;
    }

    method UpdateFrame(base: seq<byte>)
      requires Valid() && |base| == DMX_SIZE
      modifies this`lastOverlay, this`isNewFrame, serialized
      ensures Valid() && isNewFrame && lastOverlay == old(lastOverlay)
      ensures serialized[..] == Composed(base, lastOverlay)
    {
      Memcpy(serialized, 0, seq(FRAME_SIZE, _ => 0));
      Memcpy(serialized, 1, base);
      serialized[0] := START_CODE;
      assert serialized[..] == [START_CODE] + base;
      if lastOverlay.Some? {
        ApplyOverlay(lastOverlay.value, false);
      }
      isNewFrame := true;
    }

    /** `FlushFrame`, which throws if no device is connected. The send never reports a negative result, so a frame the
        widget did not take counts as sent. */
    method FlushFrame(writes: Writes) returns (thrown: bool)
      requires Valid()
      modifies this`isNewFrame, this`sendCounter, device`written
      ensures thrown <==> !connected
      ensures thrown ==>
        isNewFrame == old(isNewFrame) && sendCounter == old(sendCounter) && device.written == old(device.written)
      ensures !thrown ==> !isNewFrame && sendCounter == old(sendCounter) + if old(isNewFrame) then 1 else 0
      ensures !old(isNewFrame) ==> device.written == old(device.written)
      ensures !thrown && old(isNewFrame) ==>
        device.written == old(device.written) + Frame(6, serialized[..])[..Taken(writes, 513)]
    {
      if !connected {
        return true;
      }
      if !isNewFrame {
        return false;
      }
      var res := SendData(device, SET_DMX_TX_MODE, serialized[..], writes);
      if res < 0 {
        return false;
      }
      sendCounter := sendCounter + 1;
      isNewFrame := false;
      return false;
    }

    /** `AppDmxUsbNode::OnDmxMessage`, for a node set up for `universe`. */
    method OnDmxMessage(frame: seq<byte>, from: int, universe: int)
      requires Valid() && |frame| == DMX_SIZE
      modifies this`lastOverlay, this`isNewFrame, serialized
      ensures Valid() && lastOverlay == old(lastOverlay)
      ensures from == universe ==> isNewFrame && serialized[..] == Composed(frame, lastOverlay)
      ensures from != universe ==> isNewFrame == old(isNewFrame) && serialized[..] == old(serialized[..])
    {
      if from != universe {
        return;
      }
      UpdateFrame(frame);
    }

    /** `AppDmxUsbNode::OnOverlayMessage`. */
    method OnOverlayMessage(m: Message, universe: int)
      requires Valid() && InBounds(m)
      modifies this`lastOverlay, this`isNewFrame, serialized
      ensures Valid()
      ensures m.universe as int == universe ==>
        lastOverlay == Some(m) && isNewFrame && serialized[..] == Patched(old(serialized[..]), m, m.numOverlays)
      ensures m.universe as int != universe ==>
        lastOverlay == old(lastOverlay) && isNewFrame == old(isNewFrame) && serialized[..] == old(serialized[..])
    {
      if m.universe as int != universe {
        return;
      }
      ApplyOverlay(m, true);
    }
  }

  lemma ComposedAt(base: seq<byte>, m: Message, c: nat)
    requires |base| == DMX_SIZE && InBounds(m) && c < DMX_SIZE
    ensures Composed(base, Some(m))[0] == START_CODE
    ensures Composed(base, Some(m))[1 + c] == if Covered(m, m.numOverlays, c) then m.data[c] else base[c]
  {
    PatchedAt([START_CODE] + base, m, m.numOverlays, c);
  }

  /** From the client's calls to the widget: after the message has been received and buffered, every frame composed
      on a base has start code 0 and, channel by channel, what the client last wrote there, else the base. */
  lemma OverlayEndToEnd(calls: seq<Call>, universe: int, trailing: seq<byte>, base: seq<byte>, c: nat)
    requires |calls| <= MAX_OVERLAYS && (forall call <- calls :: Proper(call)) && 0 <= universe < 0x80
    requires |base| == DMX_SIZE && c < DMX_SIZE
    ensures var bytes := CreateMessage(universe, RunCalls(calls));
      && bytes.Some? && OnData(bytes.value + trailing).Some?
      && var m := OnData(bytes.value + trailing).value;
      && m.universe as int == universe && InBounds(m)
      && Composed(base, Some(m))[0] == 0
      && Composed(base, Some(m))[1 + c] == match LastWritten(calls, c) case Some(v) => v case None => base[c]
  {
    hide CreateMessage, OnData, RunCalls, LastWritten, Composed;
    var client := RunCalls(calls);
    MessageRoundTrip(universe, client, trailing);
    ClientAfterCalls(calls, c);
    ComposedAt(base, OnData(CreateMessage(universe, client).value + trailing).value, c);
  }

  /** The message printed after a 101st call is accepted by the server, and is not in bounds: buffering it would read a
      101st range, past the array. */
  lemma OneCallTooManyIsDelivered(calls: seq<Call>, extra: Call, universe: int)
    requires |calls| == MAX_OVERLAYS && (forall call <- calls :: Proper(call)) && Proper(extra) && 0 <= universe < 0x80
    ensures var bytes := CreateMessage(universe, Add(RunCalls(calls), extra.start, extra.length, extra.given));
      && bytes.Some? && OnData(bytes.value).Some?
      && OnData(bytes.value).value.numOverlays == MAX_OVERLAYS + 1
      && !InBounds(OnData(bytes.value).value)
  {
    var client := Add(RunCalls(calls), extra.start, extra.length, extra.given);
    OneCallTooMany(calls, extra);
    MessageRoundTrip(universe, client, []);
    var bytes := CreateMessage(universe, client).value;
    assert bytes + [] == bytes;
  }

  /** Range `i` starts inside the image, and every byte copied for it lies inside both the image and the frame. */
  ghost predicate CopiesInside(m: Message, i: nat)
    requires i < |m.overlays|
  {
    && m.overlays[i].start <= |m.data|
    && forall c: nat :: Covers(m.overlays[i], c) ==> c < |m.data| && 1 + c < FRAME_SIZE
  }

  lemma CopiesInsideIff(m: Message, i: nat)
    requires i < |m.overlays| && |m.data| == DMX_SIZE
    ensures CopiesInside(m, i) <==> m.overlays[i].start + m.overlays[i].length <= DMX_SIZE
  {
    var r := m.overlays[i];
    if r.start <= DMX_SIZE < r.start + r.length {
      assert Covers(r, DMX_SIZE);
    }
  }

  /** A message is in bounds exactly if every range it uses is one of the array's and copies inside both arrays. */
  lemma InBoundsIff(m: Message)
    requires |m.overlays| == MAX_OVERLAYS && |m.data| == DMX_SIZE
    ensures InBounds(m) <==> m.numOverlays <= MAX_OVERLAYS && forall i :: 0 <= i < m.numOverlays ==> CopiesInside(m, i)
  {
    hide CopiesInside;
    forall i | 0 <= i < MAX_OVERLAYS
      ensures CopiesInside(m, i) <==> m.overlays[i].start + m.overlays[i].length <= DMX_SIZE
    {
      CopiesInsideIff(m, i);
    }
  }

  /** A message with one range of one channel behind the last: the server hands it on, and buffering it would copy a byte
      from behind the image to behind the frame. */
  lemma RangeBehindTheEndIsDelivered(universe: byte)
    ensures var m := Message(PROTOCOL_ID, universe, 1, [Range(DMX_SIZE, 1)] + seq(MAX_OVERLAYS - 1, _ => Range(0, 0)),
                             seq(DMX_SIZE, _ => 0));
      && Fits(m) && OnData(Printed(m)) == Some(m) && !InBounds(m)
      && Covers(m.overlays[0], |m.data|) && 1 + |m.data| == FRAME_SIZE
  {
    hide OnData, Printed;
    var rs := [Range(DMX_SIZE, 1)] + seq(MAX_OVERLAYS - 1, _ => Range(0, 0));
    var m := Message(PROTOCOL_ID, universe, 1, rs, seq(DMX_SIZE, _ => 0));
    AnyMessageIsDelivered(m, []);
    assert Printed(m) + [] == Printed(m);
    assert m.overlays[0] == Range(DMX_SIZE, 1);
  }
}
