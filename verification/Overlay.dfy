/** The overlay protocol: the Python client that prints messages (mocks/mock_overlay_client.py) and the C++ server
    that parses them (libs/overlay_server/overlay_server.cc, libs/proto/overlay_proto.h). */
module Overlay {
  import opened Base

  const PROTOCOL_ID := 0x7799
  const MAX_OVERLAYS := 100
  const DMX_SIZE := 512
  const HEADER_SIZE := 7
  const MESSAGE_SIZE := 919

  datatype Range = Range(start: nat, length: nat)

  predicate Covers(r: Range, c: nat) {
    r.start <= c < r.start + r.length
  }

  /** The struct OverlayMessage. */
  datatype Message = Message(protocolId: nat, universe: byte, numOverlays: nat, overlays: seq<Range>, data: seq<byte>)

  function Pack16(x: nat): (r: seq<byte>)
    requires x < 0x1_0000
    ensures |r| == 2
  {
    [x % 0x100, x / 0x100]
  }

  function Unpack16(s: seq<byte>, at: nat): nat
    requires at + 2 <= |s|
  {
    s[at] as int + s[at + 1] as int * 0x100
  }

  predicate Packable(r: Range) {
    r.start < 0x1_0000 && r.length < 0x1_0000
  }

  /** `DmxOverlay.pack`. */
  function PackRange(r: Range): (s: seq<byte>)
    requires Packable(r)
    ensures |s| == 4
  {
    Pack16(r.start) + Pack16(r.length)
  }

  function PackRanges(rs: seq<Range>): (s: seq<byte>)
    requires forall r <- rs :: Packable(r)
    ensures |s| == 4 * |rs|
  {
    if rs == [] then [] else PackRanges(rs[..|rs| - 1]) + PackRange(rs[|rs| - 1])
  }

  // The client.

  /** The client's state: `index` is the last overlay used, -1 at first. */
  datatype Client = Client(overlays: seq<Range>, index: int, data: seq<byte>)

  datatype Outcome = Added | Full | TooLong | WrongLength | IndexError

  predicate Valid(c: Client) {
    && |c.overlays| == MAX_OVERLAYS && |c.data| == DMX_SIZE && -1 <= c.index <= MAX_OVERLAYS
    && forall r <- c.overlays :: r.start + r.length <= DMX_SIZE
  }

  function NewClient(): (c: Client)
    ensures Valid(c)
  {
    Client(seq(MAX_OVERLAYS, _ => Range(0, 0)), -1, seq(DMX_SIZE, _ => 0))
  }

  function AddOutcome(c: Client, start: nat, length: nat, given: seq<byte>): Outcome {
    if c.index >= MAX_OVERLAYS then Full
    else if start + length > DMX_SIZE then TooLong
    else if |given| != length then WrongLength
    else if c.index + 1 == MAX_OVERLAYS then IndexError
    else Added
  }

  /** `add_overlay`. The guard lets a 101st call through; it fails only after the index has moved. */
  function Add(c: Client, start: nat, length: nat, given: seq<byte>): (r: Client)
    requires Valid(c)
    ensures Valid(r)
  {
    match AddOutcome(c, start, length, given)
    case Added =>
      var r := Client(c.overlays[c.index + 1 := Range(start, length)], c.index + 1, Splice(c.data, start, given));
      assert forall i :: 0 <= i < MAX_OVERLAYS ==> r.overlays[i] == if i == r.index then Range(start, length) else c.overlays[i];
      r
    case IndexError => c.(index := c.index + 1)
    case _ => c
  }

  function NumOverlays(c: Client): nat
    requires Valid(c)
  {
    c.index + 1
  }

  /** `create_message`: `struct.pack` refuses a universe that is not a signed byte. */
  function CreateMessage(universe: int, c: Client): (r: Option<seq<byte>>)
    requires Valid(c)
    ensures r.Some? ==> |r.value| == MESSAGE_SIZE
  {
    if !(-0x80 <= universe < 0x80) then None
    else Some([0x99, 0x77, 0, 0] + [universe % 0x100] + Pack16(NumOverlays(c)) + PackRanges(c.overlays) + c.data)
  }

  class DmxOverlays {
    const overlays: array<Range>
    var currentIndex: int
    const data: array<byte>

    ghost function View(): Client
      reads this, overlays, data
    {
      Client(overlays[..], currentIndex, data[..])
    }

    ghost predicate Ok()
      reads this, overlays, data
    {
      Valid(View())
    }

    constructor ()
      ensures Ok() && fresh(overlays) && fresh(data) && View() == NewClient()
    {
      overlays := new Range[MAX_OVERLAYS](_ => Range(0, 0));
      data := new byte[DMX_SIZE](_ => 0);
      currentIndex := -1;
      new;
      assert overlays[..] == NewClient().overlays && data[..] == NewClient().data;
    }

    method AddOverlay(start: nat, length: nat, given: seq<byte>) returns (outcome: Outcome)
      requires Ok()
      modifies this, overlays, data
      ensures Ok() && View() == Add(old(View()), start, length, given)
      ensures outcome == AddOutcome(old(View()), start, length, given)
      ensures outcome ==
        if old(currentIndex) == 100 then Full
        else if start + length > 512 then TooLong
        else if |given| != length then WrongLength
        else if old(currentIndex) == 99 then IndexError
        else Added
      ensures outcome in {Full, TooLong, WrongLength} ==> View() == old(View())
      ensures outcome in {Added, IndexError} ==> currentIndex == old(currentIndex) + 1
    {
      ghost var c := View();
      if !(currentIndex < MAX_OVERLAYS) {
        return Full;
      }
      if !(start + length <= DMX_SIZE) {
        return TooLong;
      }
      if !(|given| == length) {
        return WrongLength;
      }
      currentIndex := currentIndex + 1;
      if currentIndex == MAX_OVERLAYS {
        return IndexError;
      }
      overlays[currentIndex] := Range(start, length);
      for i := start to start + length
        invariant currentIndex == c.index + 1
        invariant overlays[..] == c.overlays[c.index + 1 := Range(start, length)]
        invariant forall j :: 0 <= j < DMX_SIZE ==> data[j] == if start <= j < i then given[j - start] else c.data[j]
      {
        data[i] := given[i - start];
      }
      assert data[..] == Splice(c.data, start, given);
      return Added;
    }

    /** `DmxFrame.pack`. */
    method PackFrame() returns (msg: seq<byte>)
      requires Ok()
      ensures msg == View().data
    {
      msg := [data[0]];
      for i := 1 to DMX_SIZE
        invariant msg == data[..i]
      {
        msg := msg + [data[i]];
      }
    }

    /** `DmxOverlays.pack`. */
    method Pack() returns (msg: seq<byte>)
      requires Ok()
      ensures msg == PackRanges(View().overlays) + View().data
    {
      assert forall i :: 0 <= i < MAX_OVERLAYS ==> overlays[..][i] == overlays[i];
      msg := PackRange(overlays[0]);
      assert overlays[..1] == [overlays[0]];
      for i := 1 to MAX_OVERLAYS
        invariant forall r <- overlays[..i] :: Packable(r)
        invariant msg == PackRanges(overlays[..i])
      {
        assert overlays[..i + 1][..i] == overlays[..i];
        msg := msg + PackRange(overlays[i]);
      }
      assert overlays[..MAX_OVERLAYS] == overlays[..];
      var frame := PackFrame();
      msg := msg + frame;
    }

    method CreateMessageFor(universe: int) returns (msg: Option<seq<byte>>)
      requires Ok()
      ensures msg == CreateMessage(universe, View())
    {
      if !(-0x80 <= universe < 0x80) {
        return None;
      }
      var body := Pack();
      var head: seq<byte> := [0x99, 0x77, 0, 0] + [universe % 0x100] + Pack16(currentIndex + 1);
      msg := Some(head + body);
      assert head + (PackRanges(View().overlays) + View().data) == head + PackRanges(View().overlays) + View().data;
    }
  }

  // The server.

  /** The bytes of a message laid over the packed struct. */
  function Overlaid(bytes: seq<byte>): Message
    requires |bytes| >= MESSAGE_SIZE
  {
    Message(
      Unpack16(bytes, 0) + Unpack16(bytes, 2) * 0x1_0000, bytes[4], Unpack16(bytes, 5),
      seq(MAX_OVERLAYS, i requires 0 <= i < MAX_OVERLAYS =>
        Range(Unpack16(bytes, HEADER_SIZE + 4 * i), Unpack16(bytes, HEADER_SIZE + 4 * i + 2))),
      bytes[HEADER_SIZE + 4 * MAX_OVERLAYS..MESSAGE_SIZE])
  }

  /** `OnData`: the message passed on to the handler, if any. What follows the struct is ignored. */
  function OnData(bytes: seq<byte>): Option<Message> {
    if |bytes| < MESSAGE_SIZE then None
    else if Unpack16(bytes, 0) + Unpack16(bytes, 2) * 0x1_0000 != PROTOCOL_ID then None
    else Some(Overlaid(bytes))
  }

  class Server {
    ghost var delivered: seq<Message> // what the handler was called with

    constructor ()
      ensures delivered == []
    {
      delivered := [];
    }

    method HandleData(bytes: seq<byte>)
      modifies this
      ensures |delivered| == |old(delivered)| +
        if |bytes| >= 919 && bytes[..4] == [0x99, 0x77, 0, 0] then 1 else 0
      ensures delivered == match OnData(bytes) case Some(m) => old(delivered) + [m] case None => old(delivered)
    {
      if |bytes| < MESSAGE_SIZE {
        return;
      }
      assert bytes[..4] == [bytes[0], bytes[1], bytes[2], bytes[3]];
      var protocolId := Unpack16(bytes, 0) + Unpack16(bytes, 2) * 0x1_0000;
      if protocolId != PROTOCOL_ID {
        return;
      }
      var message := Overlaid(bytes);
      delivered := delivered + [message];
    }
  }

  // Printer and parser together.

  lemma {:induction false} PackRangesAt(rs: seq<Range>, i: nat)
    requires i < |rs| && forall r <- rs :: Packable(r)
    ensures PackRanges(rs)[4 * i..4 * i + 4] == PackRange(rs[i])
  {
    var n := |rs| - 1;
    if i < n {
      PackRangesAt(rs[..n], i);
      assert PackRanges(rs)[4 * i..4 * i + 4] == PackRanges(rs[..n])[4 * i..4 * i + 4];
    }
  }

  lemma Unpacks(s: seq<byte>, at: nat, x: nat)
    requires x < 0x1_0000 && at + 2 <= |s| && s[at..at + 2] == Pack16(x)
    ensures Unpack16(s, at) == x
  {
    assert s[at] == s[at..at + 2][0] && s[at + 1] == s[at..at + 2][1];
  }

  lemma PackRangeParts(r: Range)
    requires Packable(r)
    ensures PackRange(r)[0..2] == Pack16(r.start) && PackRange(r)[2..4] == Pack16(r.length)
  {
  }

  lemma RangeRoundTrip(bytes: seq<byte>, rs: seq<Range>, i: nat)
    requires i < |rs| == MAX_OVERLAYS && |bytes| >= MESSAGE_SIZE && forall r <- rs :: Packable(r)
    requires bytes[HEADER_SIZE..HEADER_SIZE + 4 * MAX_OVERLAYS] == PackRanges(rs)
    ensures Unpack16(bytes, HEADER_SIZE + 4 * i) == rs[i].start
    ensures Unpack16(bytes, HEADER_SIZE + 4 * i + 2) == rs[i].length
  {
    hide Unpack16, Pack16, PackRange, PackRanges;
    var at := HEADER_SIZE + 4 * i;
    PackRangesAt(rs, i);
    SliceOfSlice(bytes, HEADER_SIZE, HEADER_SIZE + 4 * MAX_OVERLAYS, 4 * i, 4 * i + 4);
    PackRangeParts(rs[i]);
    SliceOfSlice(bytes, at, at + 4, 0, 2);
    SliceOfSlice(bytes, at, at + 4, 2, 4);
    Unpacks(bytes, at, rs[i].start);
    Unpacks(bytes, at + 2, rs[i].length);
  }

  /** A message that fits the struct, whatever it says. */
  predicate Fits(m: Message) {
    && m.protocolId == PROTOCOL_ID && m.numOverlays < 0x1_0000
    && |m.overlays| == MAX_OVERLAYS && (forall r <- m.overlays :: Packable(r)) && |m.data| == DMX_SIZE
  }

  /** The bytes of the struct. */
  function Printed(m: Message): (bytes: seq<byte>)
    requires Fits(m)
    ensures |bytes| == MESSAGE_SIZE
  {
    [0x99, 0x77, 0, 0] + [m.universe] + Pack16(m.numOverlays) + PackRanges(m.overlays) + m.data
  }

  /** The server hands on every such message, whatever its count and ranges are. */
  lemma AnyMessageIsDelivered(m: Message, trailing: seq<byte>)
    requires Fits(m)
    ensures OnData(Printed(m) + trailing) == Some(m)
  {
    var head: seq<byte> := [0x99, 0x77, 0, 0] + [m.universe] + Pack16(m.numOverlays);
    var bytes := Printed(m) + trailing;
    assert bytes == head + PackRanges(m.overlays) + m.data + trailing;
    assert bytes[5..7] == Pack16(m.numOverlays);
    Unpacks(bytes, 5, m.numOverlays);
    assert bytes[HEADER_SIZE..HEADER_SIZE + 4 * MAX_OVERLAYS] == PackRanges(m.overlays);
    var q := Overlaid(bytes);
    forall i | 0 <= i < MAX_OVERLAYS
      ensures q.overlays[i] == m.overlays[i]
    {
      RangeRoundTrip(bytes, m.overlays, i);
    }
    assert q.overlays == m.overlays && q.data == m.data;
  }

  /** What the server makes of the client's message: the same universe, count, ranges and image. */
  lemma MessageRoundTrip(universe: int, c: Client, trailing: seq<byte>)
    requires Valid(c) && 0 <= universe < 0x80
    ensures CreateMessage(universe, c).Some?
    ensures OnData(CreateMessage(universe, c).value + trailing) ==
      Some(Message(PROTOCOL_ID, universe, NumOverlays(c), c.overlays, c.data))
  {
    hide OnData, PackRanges, Pack16;
    AnyMessageIsDelivered(Message(PROTOCOL_ID, universe, NumOverlays(c), c.overlays, c.data), trailing);
  }

  // Runs of the client.

  datatype Call = Call(start: nat, length: nat, given: seq<byte>)

  predicate Proper(call: Call) {
    call.start + call.length <= DMX_SIZE && |call.given| == call.length
  }

  function RunCalls(calls: seq<Call>): (c: Client)
    ensures Valid(c)
  {
    if calls == [] then NewClient()
    else
      var last := calls[|calls| - 1];
      Add(RunCalls(calls[..|calls| - 1]), last.start, last.length, last.given)
  }

  /** The value the calls last wrote to channel `c`, if any did. */
  function LastWritten(calls: seq<Call>, c: nat): Option<byte>
    requires forall call <- calls :: Proper(call)
  {
    if calls == [] then None
    else
      var last := calls[|calls| - 1];
      assert last in calls && Proper(last);
      if Covers(Range(last.start, last.length), c) then Some(last.given[c - last.start])
      else LastWritten(calls[..|calls| - 1], c)
  }

  /** After up to 100 proper calls: one range per call, and an image of what was last written. */
  lemma {:induction false} ClientAfterCalls(calls: seq<Call>, c: nat)
    requires |calls| <= MAX_OVERLAYS && c < DMX_SIZE && forall call <- calls :: Proper(call)
    ensures var client := RunCalls(calls);
      && NumOverlays(client) == |calls|
      && (forall i :: 0 <= i < |calls| ==> client.overlays[i] == Range(calls[i].start, calls[i].length))
      && client.data[c] == (match LastWritten(calls, c) case Some(v) => v case None => 0)
      && (LastWritten(calls, c).Some? <==> exists i :: 0 <= i < |calls| && Covers(client.overlays[i], c))
  {
    if calls != [] {
      var before, last := calls[..|calls| - 1], calls[|calls| - 1];
      assert last in calls;
      ClientAfterCalls(before, c);
      var client := RunCalls(calls);
      assert client == Add(RunCalls(before), last.start, last.length, last.given);
      assert client.overlays == RunCalls(before).overlays[|before| := Range(last.start, last.length)];
    }
  }

  /** A call too many raises an error but is counted: the client then announces 101 overlays and accepts no more. */
  lemma OneCallTooMany(calls: seq<Call>, extra: Call)
    requires |calls| == MAX_OVERLAYS && (forall call <- calls :: Proper(call)) && Proper(extra)
    ensures var client := RunCalls(calls);
      var after := Add(client, extra.start, extra.length, extra.given);
      && AddOutcome(client, extra.start, extra.length, extra.given) == IndexError
      && NumOverlays(after) == 101 && after.overlays == client.overlays && after.data == client.data
      && AddOutcome(after, extra.start, extra.length, extra.given) == Full
  {
    ClientAfterCalls(calls, 0);
  }

  /** The bytes of the client's message: the protocol id, the universe, the number of overlays, 100 pairs of start and
      length, the image; every number with its low byte first. */
  lemma MessageBytes(universe: int, c: Client, i: nat)
    requires Valid(c) && 0 <= universe < 128 && i < 100
    ensures CreateMessage(universe, c).Some?
    ensures var b, r := CreateMessage(universe, c).value, c.overlays[i];
      && |b| == 919 && b[..4] == [0x99, 0x77, 0, 0] && b[4] as int == universe
      && b[5] as int == (c.index + 1) % 256 && b[6] as int == (c.index + 1) / 256
      && b[7 + 4 * i] as int == r.start % 256 && b[8 + 4 * i] as int == r.start / 256
      && b[9 + 4 * i] as int == r.length % 256 && b[10 + 4 * i] as int == r.length / 256
      && b[407..919] == c.data
  {
    hide PackRanges, PackRange;
    var b := CreateMessage(universe, c).value;
    PackRangesAt(c.overlays, i);
    var packed := PackRanges(c.overlays);
    assert b == [0x99, 0x77, 0, 0] + [universe % 0x100] + Pack16(NumOverlays(c)) + packed + c.data;
    assert b[7..407] == packed;
    SliceOfSlice(b, 7, 407, 4 * i, 4 * i + 4);
    RangeBytes(c.overlays[i]);
    assert b[7 + 4 * i..11 + 4 * i] == PackRange(c.overlays[i]);
    assert b[7 + 4 * i] == PackRange(c.overlays[i])[0] && b[8 + 4 * i] == PackRange(c.overlays[i])[1];
    assert b[9 + 4 * i] == PackRange(c.overlays[i])[2] && b[10 + 4 * i] == PackRange(c.overlays[i])[3];
  }

  /** `struct.pack` takes a universe from -128 to 127 and stores it modulo 256; it refuses any other. */
  lemma UniverseByte(universe: int, c: Client)
    requires Valid(c)
    ensures CreateMessage(universe, c).Some? <==> -128 <= universe <= 127
    ensures -128 <= universe <= 127 ==>
      CreateMessage(universe, c).value[4] as int == if universe < 0 then universe + 256 else universe
  {
    hide PackRanges;
  }

  lemma RangeBytes(r: Range)
    requires Packable(r)
    ensures PackRange(r) == [r.start % 256, r.start / 256, r.length % 256, r.length / 256]
  {
  }
}
