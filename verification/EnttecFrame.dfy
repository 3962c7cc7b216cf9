/** Frames on the wire to and from the Enttec USB widget: libs/enttec/libenttec/usb_pro.cc. */
module EnttecFrame {
  import opened Base

  const START: byte := 0x7E
  const END: byte := 0xE7
  const PACKET_SIZE := 512
  const BUFFER_SIZE := 600
  const NO_RESPONSE := 0
  const TRUE := 1

  /** The device as two byte streams: what it will still send us and what we have written to it. A read that times out
      returns fewer bytes than asked for, and the rest may come later; a patient device keeps a read waiting until the
      bytes are there or the stream ends. */
  class Device {
    const patient: bool
    var incoming: seq<byte>
    var written: seq<byte>

    constructor (incoming: seq<byte>, patient: bool)
      ensures this.incoming == incoming && written == [] && this.patient == patient
    {
      this.incoming, written, this.patient := incoming, [], patient;
    }

    method Read(n: nat) returns (bytes: seq<byte>)
      modifies this`incoming
      ensures |bytes| <= Min(n, |old(incoming)|)
      ensures patient ==> |bytes| == Min(n, |old(incoming)|)
      ensures old(incoming) == bytes + incoming
    {
      var most := Min(n, |incoming|);
      var k: nat := most;
      if !patient {
        k :| 0 <= k <= most;
      }
      bytes := incoming[..k];
      incoming := incoming[k..];
    }

    /** A write whose outcome, how many bytes are taken, is up to the device. */
    method Write(bytes: seq<byte>, taken: nat) returns (count: nat)
      modifies this`written
      ensures count == Min(taken, |bytes|) && written == old(written) + bytes[..count]
    {
      count := Min(taken, |bytes|);
      written := written + bytes[..count];
    }
  }

  function Header(lbl: int, length: nat): seq<byte> {
    [START, lbl % 0x100, length % 0x100, length / 0x100 % 0x100]
  }

  function Frame(lbl: int, data: seq<byte>): (r: seq<byte>)
    ensures |r| == |data| + 5
  {
    Header(lbl, |data|) + data + [END]
  }

  /** How the three writes of a frame turn out, and the status of the last. */
  datatype Writes = Writes(header: nat, data: nat, end: nat, ok: bool)

  /** How many bytes of a frame with `n` bytes of data the writes leave on the wire: each is made only if the one before
      was taken whole. */
  function Taken(writes: Writes, n: nat): (k: nat)
    ensures k <= n + 5
    ensures k == n + 5 <==> Whole(writes, n)
  {
    if writes.header < 4 then writes.header
    else if writes.data < n then 4 + writes.data
    else 4 + n + Min(writes.end, 1)
  }

  predicate Whole(writes: Writes, n: nat) {
    writes.header >= 4 && writes.data >= n && writes.end >= 1
  }

  /** `FTDI_SendData`: TRUE exactly if the whole frame is on the wire and the last status is good. */
  method SendData(device: Device, lbl: int, data: seq<byte>, writes: Writes) returns (res: int)
    modifies device`written
    ensures res == if Whole(writes, |data|) && writes.ok then TRUE else NO_RESPONSE
    ensures device.written == old(device.written) + Frame(lbl, data)[..Taken(writes, |data|)]
    ensures device.written == old(device.written) + Frame(lbl, data) <==> Whole(writes, |data|)
  {
    var header := Header(lbl, |data|);
    var frame := Frame(lbl, data);
    var before := device.written;
    assert frame[..|frame|] == frame;
    var count := device.Write(header, writes.header);
    assert header[..count] == frame[..count];
    if count != 4 {
      return NO_RESPONSE;
    }
    count := device.Write(data, writes.data);
    assert before + header + data[..count] == before + frame[..4 + count];
    if count != |data| {
      return NO_RESPONSE;
    }
    count := device.Write([END], writes.end);
    assert before + header + data + [END][..count] == before + frame[..4 + |data| + count];
    if count != 1 {
      return NO_RESPONSE;
    }
    return if writes.ok then TRUE else NO_RESPONSE;
  }

  // What the parsers promise.

  predicate PairAt(s: seq<byte>, lbl: byte, i: nat) {
    i + 1 < |s| && s[i] == START && s[i + 1] == lbl
  }

  /** The position of the first adjacent pair (0x7E, label), or |s| if there is none. */
  function FirstPair(s: seq<byte>, lbl: byte): (i: nat)
    ensures i <= |s|
    ensures i < |s| ==> PairAt(s, lbl, i)
    ensures forall j :: 0 <= j < i ==> !PairAt(s, lbl, j)
  {
    if s == [] then 0
    else if PairAt(s, lbl, 0) then 0
    else
      var rest := FirstPair(s[1..], lbl);
      assert forall j :: 1 <= j <= rest ==> (PairAt(s, lbl, j) <==> PairAt(s[1..], lbl, j - 1));
      1 + rest
  }

  datatype Parsed = Parsed(frame: Option<seq<byte>>, rest: seq<byte>)

  /** What follows the label of a frame: length, data, end code; and what is left of the stream afterwards. If the read
      of the second length byte comes back empty, because the stream ends there or because it is `late`, the first one
      stands for it too. */
  function ParseBody(s: seq<byte>, late: bool := false): Parsed {
    if s == [] then Parsed(None, []) else ParseRest(AfterLength(s, late), BodyLength(s, late))
  }

  function BodyLength(s: seq<byte>, late: bool): nat
    requires s != []
  {
    s[0] as int + (if late || |s| == 1 then s[0] else s[1]) as int * 0x100
  }

  function AfterLength(s: seq<byte>, late: bool): seq<byte>
    requires s != []
  {
    if late || |s| == 1 then s[1..] else s[2..]
  }

  function ParseRest(tail: seq<byte>, length: nat): Parsed {
    if length > PACKET_SIZE then Parsed(None, tail)
    else if |tail| <= length then Parsed(None, [])
    else if tail[length] != END then Parsed(None, tail[length + 1..])
    else Parsed(Some(tail[..length]), tail[length + 1..])
  }

  /** What `FTDI_ReceiveData` makes of a stream: with label 0 it looks for no start of frame at all, and a label
      that is not a byte is never found. */
  function ParseReceive(s: seq<byte>, lbl: int, late: bool := false): Parsed {
    if lbl == 0 then ParseBody(s, late)
    else if !(0 < lbl < 0x100) || FirstPair(s, lbl) == |s| then Parsed(None, [])
    else ParseBody(s[FirstPair(s, lbl) + 2..], late)
  }

  /** PairAt for any label, a byte or not. */
  predicate IsPair(s: seq<byte>, lbl: int, i: nat) {
    i + 1 < |s| && s[i] == START && s[i + 1] as int == lbl
  }

  lemma NoPairs(s: seq<byte>, lbl: int, i: nat, all: bool)
    requires forall j :: 0 <= j < i - 1 ==> !IsPair(s, lbl, j)
    requires all ==> i == |s|
    ensures all && 0 < lbl < 0x100 ==> FirstPair(s, lbl) == |s|
  {
    if all && 0 < lbl < 0x100 {
      assert forall j: nat :: PairAt(s, lbl, j) ==> IsPair(s, lbl, j);
    }
  }

  /** The nested loops: stop after the first pair, or when a read comes back empty. */
  method Resynchronise(device: Device, lbl: int) returns (found: bool)
    requires lbl != 0
    modifies device`incoming
    ensures found ==>
      && 0 < lbl < 0x100 && FirstPair(old(device.incoming), lbl) < |old(device.incoming)|
      && device.incoming == old(device.incoming)[FirstPair(old(device.incoming), lbl) + 2..]
    ensures device.patient && !found ==>
      (0 < lbl < 0x100 ==> FirstPair(old(device.incoming), lbl) == |old(device.incoming)|) && device.incoming == []
  {
    hide FirstPair;
    ghost var s := device.incoming;
    ghost var i := 0; // bytes read so far
    var current: byte := 0;
    while current as int != lbl
      invariant i <= |s| && device.incoming == s[i..]
      invariant i > 0 ==> current == s[i - 1]
      invariant i == 0 ==> current == 0
      invariant current as int == lbl ==> i >= 2 && s[i - 2] == START
      invariant forall j :: 0 <= j < i - 1 ==> (IsPair(s, lbl, j) ==> current as int == lbl && j == i - 2)
      decreases |s| - i
    {
      while current != START
        invariant i <= |s| && device.incoming == s[i..]
        invariant i > 0 ==> current == s[i - 1]
        invariant i == 0 ==> current == 0
        invariant forall j :: 0 <= j < i - 1 ==> !IsPair(s, lbl, j)
        decreases |s| - i
      {
        var bytes := device.Read(1);
        if bytes == [] {
          NoPairs(s, lbl, i, device.patient);
          return false;
        }
        current := bytes[0];
        i := i + 1;
      }
      var bytes := device.Read(1);
      if bytes == [] {
        NoPairs(s, lbl, i, device.patient);
        return false;
      }
      current := bytes[0];
      i := i + 1;
    }
    assert PairAt(s, lbl, i - 2);
    assert forall j :: 0 <= j < i - 2 ==> (PairAt(s, lbl, j) <==> IsPair(s, lbl, j));
    FirstPairIs(s, lbl, i - 2);
    return true;
  }

  /** A read straight into a buffer. */
  method ReadInto(device: Device, buffer: array<byte>, n: nat) returns (count: nat)
    requires n <= buffer.Length
    modifies device`incoming, buffer
    ensures count <= Min(n, |old(device.incoming)|) && device.incoming == old(device.incoming)[count..]
    ensures device.patient ==> count == Min(n, |old(device.incoming)|)
    ensures forall i :: 0 <= i < buffer.Length ==>
      buffer[i] == if i < count then old(device.incoming)[i] else old(buffer[i])
  {
    var bytes := device.Read(n);
    Memcpy(buffer, 0, bytes);
    assert forall i :: 0 <= i < buffer.Length ==> buffer[..][i] == buffer[i];
    count := |bytes|;
  }

  /** The first bytes of `data` agree with `frame`, as far as both the frame and the `expected` bytes reach; the
      caller's bytes past those expected are as they were. */
  twostate predicate Copied(data: array<byte>, expected: nat, frame: seq<byte>)
    reads data
  {
    && (forall i :: 0 <= i < expected && i < |frame| && i < data.Length ==> data[i] == frame[i])
    && (forall i :: expected <= i < data.Length ==> data[i] == old(data[i]))
  }

  method CopyOut(buffer: array<byte>, data: array<byte>, expected: nat, ghost frame: seq<byte>)
    requires expected <= data.Length && expected <= buffer.Length && |frame| <= buffer.Length && buffer != data
    requires forall i :: 0 <= i < |frame| ==> buffer[i] == frame[i]
    modifies data
    ensures Copied(data, expected, frame)
  {
    Memcpy(data, 0, buffer[..expected]);
    assert forall i :: 0 <= i < data.Length ==> data[..][i] == data[i];
  }

  /** The end of `FTDI_ReceiveData`, after the length. */
  method ReceiveRest(device: Device, data: array<byte>, expected: nat, length: nat) returns (res: int)
    requires expected <= data.Length && expected <= BUFFER_SIZE
    modifies device`incoming, data
    ensures device.patient ==> device.incoming == ParseRest(old(device.incoming), length).rest
    ensures device.patient ==> res == if ParseRest(old(device.incoming), length).frame.Some? then TRUE else NO_RESPONSE
    ensures res == TRUE ==>
      && ParseRest(old(device.incoming), length).frame.Some?
      && device.incoming == ParseRest(old(device.incoming), length).rest
      && Copied(data, expected, ParseRest(old(device.incoming), length).frame.value)
    ensures res != TRUE ==> res == NO_RESPONSE && data[..] == old(data[..])
  {
    var buffer := new byte[BUFFER_SIZE];
    ghost var tail := device.incoming;
    if length > PACKET_SIZE {
      return NO_RESPONSE;
    }
    var count := ReadInto(device, buffer, length);
    if count != length {
      return NO_RESPONSE;
    }
    var bytes := device.Read(1);
    if bytes == [] {
      return NO_RESPONSE;
    }
    assert bytes[0] == tail[length] && device.incoming == tail[length + 1..];
    if bytes[0] != END {
      return NO_RESPONSE;
    }
    CopyOut(buffer, data, expected, tail[..length]);
    return TRUE;
  }

  /** The two length bytes; `late` says whether the second was still to come when it was read. */
  method ReadLength(device: Device) returns (ok: bool, length: nat, ghost late: bool)
    modifies device`incoming
    ensures ok ==>
      && old(device.incoming) != []
      && length == BodyLength(old(device.incoming), late)
      && device.incoming == AfterLength(old(device.incoming), late)
    ensures device.patient ==> !late && (!ok ==> old(device.incoming) == [] == device.incoming)
  {
    length, late := 0, false;
    var bytes := device.Read(1);
    if bytes == [] {
      return false, length, late;
    }
    var current := bytes[0];
    length := current;
    bytes := device.Read(1);
    late := bytes == [] && |old(device.incoming)| > 1;
    if bytes != [] {
      current := bytes[0];
    }
    length := length + current as int * 0x100;
    return true, length, late;
  }

  /** The rest of `FTDI_ReceiveData`, after the label; `late` says whether the second length byte was still to come. */
  method ReceiveBody(device: Device, data: array<byte>, expected: nat) returns (res: int, ghost late: bool)
    requires expected <= data.Length && expected <= BUFFER_SIZE
    modifies device`incoming, data
    ensures device.patient ==> !late && device.incoming == ParseBody(old(device.incoming)).rest
    ensures device.patient ==> res == if ParseBody(old(device.incoming)).frame.Some? then TRUE else NO_RESPONSE
    ensures res == TRUE ==>
      && ParseBody(old(device.incoming), late).frame.Some?
      && device.incoming == ParseBody(old(device.incoming), late).rest
      && Copied(data, expected, ParseBody(old(device.incoming), late).frame.value)
    ensures res != TRUE ==> res == NO_RESPONSE && data[..] == old(data[..])
  {
    hide ParseRest, BodyLength, AfterLength;
    var ok, length;
    ok, length, late := ReadLength(device);
    if !ok {
      return NO_RESPONSE, late;
    }
    res := ReceiveRest(device, data, expected, length);
  }

  /** `FTDI_ReceiveData`: copies `expected` bytes to the caller, of which those beyond the frame are unspecified. Whatever
      reads time out, TRUE means a frame that lies in the stream in one piece, except that its second length byte may
      have been `late`. */
  method ReceiveData(device: Device, lbl: int, data: array<byte>, expected: nat) returns (res: int, ghost late: bool)
    requires expected <= data.Length && expected <= BUFFER_SIZE
    modifies device`incoming, data
    ensures device.patient ==> !late && device.incoming == ParseReceive(old(device.incoming), lbl).rest
    ensures device.patient ==> res == if ParseReceive(old(device.incoming), lbl).frame.Some? then TRUE else NO_RESPONSE
    ensures res == TRUE ==>
      && ParseReceive(old(device.incoming), lbl, late).frame.Some?
      && device.incoming == ParseReceive(old(device.incoming), lbl, late).rest
      && Copied(data, expected, ParseReceive(old(device.incoming), lbl, late).frame.value)
    ensures res != TRUE ==> res == NO_RESPONSE && data[..] == old(data[..])
  {
    if lbl != 0 {
      var found := Resynchronise(device, lbl);
      if !found {
        return NO_RESPONSE, false;
      }
    }
    res, late := ReceiveBody(device, data, expected);
  }

  function FirstStart(s: seq<byte>): (i: nat)
    ensures i <= |s|
    ensures i < |s| ==> s[i] == START
    ensures forall j :: 0 <= j < i ==> s[j] != START
  {
    if s == [] || s[0] == START then 0 else 1 + FirstStart(s[1..])
  }

  /** What C++ makes of a byte in a plain `char` that is compared with an `int`. Whether `char` is signed is up to the
      compiler; it is on Windows, where the program is built. */
  datatype CharType = SIGNED | UNSIGNED

  function CharValue(b: byte, chars: CharType): int {
    if chars == SIGNED && b >= 0x80 then b - 0x100 else b
  }

  /** What `FTDI_RxDMX` makes of what follows a start code; it does not look for another one. The end code is compared
      with a plain `char`. */
  function ParseAfterStart(s: seq<byte>, lbl: byte, chars: CharType): Parsed {
    if |s| < 3 then Parsed(None, []) else ParseAfterHeader(s[..3], s[3..], lbl, chars)
  }

  /** ... and of what follows the header, given the three bytes it takes for the header. */
  function ParseAfterHeader(header: seq<byte>, tail: seq<byte>, lbl: byte, chars: CharType): Parsed
    requires |header| == 3
  {
    var length := header[1] as int + header[2] as int * 0x100 + 1;
    if header[0] != lbl || length > PACKET_SIZE + 2 then Parsed(None, tail)
    else if |tail| < length then Parsed(None, [])
    else if CharValue(tail[length - 1], chars) != END then Parsed(None, tail[length..])
    else Parsed(Some(tail[..length - 1]), tail[length..])
  }

  /** The header after a read of it has got the first `got` bytes of `s`; the others are what the memory held. */
  predicate IsHeader(header: seq<byte>, got: nat, s: seq<byte>) {
    |header| == 3 && 1 <= got <= 3 && got <= |s| && header[..got] == s[..got]
  }

  function ParseRx(s: seq<byte>, lbl: byte, chars: CharType): Parsed {
    if FirstStart(s) == |s| then Parsed(None, []) else ParseAfterStart(s[FirstStart(s) + 1..], lbl, chars)
  }

  method SkipToStart(device: Device) returns (found: bool)
    modifies device`incoming
    ensures found ==>
      && FirstStart(old(device.incoming)) < |old(device.incoming)|
      && device.incoming == old(device.incoming)[FirstStart(old(device.incoming)) + 1..]
    ensures device.patient && !found ==>
      FirstStart(old(device.incoming)) == |old(device.incoming)| && device.incoming == []
  {
    ghost var s := device.incoming;
    ghost var i := 0;
    var current: byte := 0;
    while current != START
      invariant i <= |s| && device.incoming == s[i..]
      invariant current == START ==> i > 0 && s[i - 1] == START
      invariant forall j :: 0 <= j < i ==> (s[j] == START ==> current == START && j == i - 1)
      decreases |s| - i
    {
      var bytes := device.Read(1);
      if bytes == [] {
        return false;
      }
      current := bytes[0];
      i := i + 1;
    }
    return true;
  }

  /** `FTDI_RxDMX`. Whatever reads time out, TRUE means that a matching label and a frame lie in the stream in one piece,
      except that only `got` bytes of the header `head` may have been read, the others being uninitialised. */
  method RxDmx(device: Device, lbl: byte, data: array<byte>, expected: nat, chars: CharType)
    returns (res: int, ghost head: seq<byte>, ghost got: nat)
    requires expected <= data.Length && expected <= BUFFER_SIZE
    modifies device`incoming, data
    ensures device.patient ==> device.incoming == ParseRx(old(device.incoming), lbl, chars).rest
    ensures device.patient ==> res == if ParseRx(old(device.incoming), lbl, chars).frame.Some? then TRUE else NO_RESPONSE
    ensures res == TRUE ==>
      && FirstStart(old(device.incoming)) < |old(device.incoming)|
      && var s := old(device.incoming)[FirstStart(old(device.incoming)) + 1..];
      && IsHeader(head, got, s) && (device.patient ==> got == 3)
      && ParseAfterHeader(head, s[got..], lbl, chars).frame.Some?
      && device.incoming == ParseAfterHeader(head, s[got..], lbl, chars).rest
      && Copied(data, expected, ParseAfterHeader(head, s[got..], lbl, chars).frame.value)
    ensures res != TRUE ==> res == NO_RESPONSE && data[..] == old(data[..])
  {
    var header := new byte[3];
    var buffer := new byte[BUFFER_SIZE];
    var found := SkipToStart(device);
    if !found {
      return NO_RESPONSE, [], 0;
    }
    res, got := RxAfterStart(device, lbl, header, buffer, data, expected, chars);
    head := header[..];
  }

  /** The rest of `FTDI_RxDMX`, after the start code; `header` and `buffer` are its uninitialised locals. */
  method RxAfterStart(device: Device, lbl: byte, header: array<byte>, buffer: array<byte>, data: array<byte>,
                      expected: nat, chars: CharType)
    returns (res: int, ghost got: nat)
    requires header.Length == 3 && buffer.Length == BUFFER_SIZE && |{header, buffer, data}| == 3
    requires expected <= data.Length && expected <= BUFFER_SIZE
    modifies device`incoming, header, buffer, data
    ensures device.patient ==> device.incoming == ParseAfterStart(old(device.incoming), lbl, chars).rest
    ensures device.patient ==>
      res == if ParseAfterStart(old(device.incoming), lbl, chars).frame.Some? then TRUE else NO_RESPONSE
    ensures res == TRUE ==>
      && IsHeader(header[..], got, old(device.incoming)) && header[got..] == old(header[..])[got..]
      && (device.patient ==> got == 3)
      && ParseAfterHeader(header[..], old(device.incoming)[got..], lbl, chars).frame.Some?
      && device.incoming == ParseAfterHeader(header[..], old(device.incoming)[got..], lbl, chars).rest
      && Copied(data, expected, ParseAfterHeader(header[..], old(device.incoming)[got..], lbl, chars).frame.value)
    ensures res != TRUE ==> res == NO_RESPONSE && data[..] == old(data[..])
  {
    var count := ReadInto(device, header, 3);
    got := count;
    if count == 0 {
      return NO_RESPONSE, got;
    }
    ghost var tail := device.incoming;
    assert IsHeader(header[..], got, old(device.incoming));
    assert got == 3 ==> header[..] == old(device.incoming)[..3];
    if header[0] != lbl {
      return NO_RESPONSE, got;
    }
    var length := header[1] as int + header[2] as int * 0x100 + 1;
    if length > PACKET_SIZE + 2 {
      return NO_RESPONSE, got;
    }
    count := ReadInto(device, buffer, length);
    if count != length {
      return NO_RESPONSE, got;
    }
    if CharValue(buffer[length - 1], chars) != END {
      return NO_RESPONSE, got;
    }
    CopyOut(buffer, data, expected, tail[..length - 1]);
    return TRUE, got;
  }

  // Printer and parsers together.

  lemma FirstPairIs(s: seq<byte>, lbl: byte, i: nat)
    requires PairAt(s, lbl, i) && forall j :: 0 <= j < i ==> !PairAt(s, lbl, j)
    ensures FirstPair(s, lbl) == i
  {
  }

  lemma FirstStartIs(s: seq<byte>, i: nat)
    requires i < |s| && s[i] == START && forall j :: 0 <= j < i ==> s[j] != START
    ensures FirstStart(s) == i
  {
  }

  /** No pair (0x7E, label) begins in the junk before a frame. */
  predicate NoEarlierPair(junk: seq<byte>, lbl: byte) {
    forall j :: 0 <= j < |junk| ==> !PairAt(junk + [START], lbl, j)
  }

  lemma PairAfterJunk(junk: seq<byte>, lbl: byte, after: seq<byte>)
    requires NoEarlierPair(junk, lbl) && |after| >= 2 && after[0] == START && after[1] == lbl
    ensures FirstPair(junk + after, lbl) == |junk|
    ensures (junk + after)[|junk| + 2..] == after[2..]
  {
    var s := junk + after;
    forall j | 0 <= j < |junk|
      ensures !PairAt(s, lbl, j)
    {
      assert !PairAt(junk + [START], lbl, j);
    }
    assert PairAt(s, lbl, |junk|);
    FirstPairIs(s, lbl, |junk|);
  }

  /** A frame behind junk is read back exactly if it has at most 512 data bytes, and the stream is left at its end. */
  lemma ReceiveRoundTrip(junk: seq<byte>, lbl: byte, data: seq<byte>, rest: seq<byte>)
    requires lbl != 0 && NoEarlierPair(junk, lbl) && |data| < 0x1_0000
    ensures var parsed := ParseReceive(junk + (Frame(lbl, data) + rest), lbl);
      if |data| <= PACKET_SIZE then parsed == Parsed(Some(data), rest) else parsed.frame.None?
  {
    var after := Frame(lbl, data) + rest;
    PairAfterJunk(junk, lbl, after);
    var body := after[2..];
    assert body[0] == |data| % 0x100 && body[1] == |data| / 0x100;
    assert body[2..] == data + [END] + rest;
    assert (data + [END] + rest)[..|data|] == data;
    assert (data + [END] + rest)[|data| + 1..] == rest;
  }

  /** Cut anywhere, it is rejected, and nothing is left to read. */
  lemma TruncatedRejected(junk: seq<byte>, lbl: byte, data: seq<byte>, k: nat)
    requires lbl != 0 && NoEarlierPair(junk, lbl) && |data| <= PACKET_SIZE && k < |Frame(lbl, data)|
    ensures ParseReceive(junk + Frame(lbl, data)[..k], lbl) == Parsed(None, [])
  {
    var frame := Frame(lbl, data);
    var s := junk + frame[..k];
    if k < 2 {
      forall j | 0 <= j < |s|
        ensures !PairAt(s, lbl, j)
      {
        assert j < |junk| ==> !PairAt(junk + [START], lbl, j);
      }
    } else {
      PairAfterJunk(junk, lbl, frame[..k]);
      var body := frame[..k][2..];
      assert k > 2 ==> body[0] == |data| % 0x100;
      assert k > 3 ==> body[1] == |data| / 0x100;
      assert k == 3 ==> ParseBody(body) == Parsed(None, []);
    }
  }

  lemma AfterStartRoundTrip(lbl: byte, data: seq<byte>, rest: seq<byte>, chars: CharType)
    requires |data| < 0x1_0000
    ensures var parsed := ParseAfterStart(Frame(lbl, data)[1..] + rest, lbl, chars);
      if |data| <= PACKET_SIZE + 1 then parsed == Parsed(if chars == UNSIGNED then Some(data) else None, rest)
      else parsed.frame.None? && |parsed.rest| == |data| + 1 + |rest|
  {
    var body := Frame(lbl, data)[1..] + rest;
    var tail := data + [END] + rest;
    assert body == [lbl, |data| % 0x100, |data| / 0x100] + tail;
    assert body[3..] == tail;
    assert tail[..|data|] == data && tail[|data| + 1..] == rest;
  }

  /** Where `char` is signed the DMX reader never returns TRUE: no `char` compares equal to the end code. */
  lemma SignedNeverReads(s: seq<byte>, lbl: byte)
    ensures ParseRx(s, lbl, SIGNED).frame.None?
  {
  }

  /** ... not even for a frame of one byte that arrives alone; with an unsigned `char` that one is read. */
  lemma SignedRejectsPrintedFrame(lbl: byte, b: byte)
    ensures ParseRx(Frame(lbl, [b]), lbl, SIGNED) == Parsed(None, [])
    ensures ParseRx(Frame(lbl, [b]), lbl, UNSIGNED) == Parsed(Some([b]), [])
  {
    assert [] + (Frame(lbl, [b]) + []) == Frame(lbl, [b]);
    RxBehindCleanJunk([], lbl, [b], [], SIGNED);
    RxBehindCleanJunk([], lbl, [b], [], UNSIGNED);
  }

  lemma RxBehindCleanJunk(junk: seq<byte>, lbl: byte, data: seq<byte>, rest: seq<byte>, chars: CharType)
    requires START !in junk && |data| < 0x1_0000
    ensures var parsed := ParseRx(junk + (Frame(lbl, data) + rest), lbl, chars);
      if |data| <= PACKET_SIZE + 1 then parsed == Parsed(if chars == UNSIGNED then Some(data) else None, rest)
      else parsed.frame.None? && |parsed.rest| == |data| + 1 + |rest|
  {
    hide ParseAfterStart;
    var s := junk + (Frame(lbl, data) + rest);
    assert s[|junk|] == START;
    FirstStartIs(s, |junk|);
    assert s[|junk| + 1..] == Frame(lbl, data)[1..] + rest;
    AfterStartRoundTrip(lbl, data, rest, chars);
  }

  lemma FirstStartInJunk(junk: seq<byte>, after: seq<byte>)
    requires START in junk
    ensures FirstStart(junk) < |junk| && FirstStart(junk + after) == FirstStart(junk)
    ensures (junk + after)[FirstStart(junk) + 1..] == junk[FirstStart(junk) + 1..] + after
  {
    var i := FirstStart(junk);
    assert (junk + after)[i] == junk[i];
    FirstStartIs(junk + after, i);
  }

  /** A frame that is read takes its header, its data and its end code off the stream. */
  lemma RxConsumes(s: seq<byte>, lbl: byte, chars: CharType)
    ensures var parsed := ParseRx(s, lbl, chars);
      |parsed.rest| <= |s| && (parsed.frame.Some? ==> |s| >= |parsed.rest| + |parsed.frame.value| + 5)
  {
  }

  lemma AfterStartTakes(s: seq<byte>, lbl: byte, chars: CharType)
    ensures var parsed := ParseAfterStart(s, lbl, chars);
      parsed.frame.Some? ==> |s| == 3 + |parsed.frame.value| + 1 + |parsed.rest|
  {
  }

  /** One call reads a frame behind junk, leaving the stream at its end, exactly if there is no start code in the junk,
      the frame has at most 513 data bytes and `char` is unsigned. */
  lemma RxRoundTrip(junk: seq<byte>, lbl: byte, data: seq<byte>, rest: seq<byte>, chars: CharType)
    requires |data| < 0x1_0000
    ensures ParseRx(junk + (Frame(lbl, data) + rest), lbl, chars) == Parsed(Some(data), rest) <==>
      START !in junk && |data| <= PACKET_SIZE + 1 && chars == UNSIGNED
  {
    hide ParseAfterStart, FirstStart, Header;
    if START !in junk {
      RxBehindCleanJunk(junk, lbl, data, rest, chars);
    } else {
      var after := Frame(lbl, data) + rest;
      FirstStartInJunk(junk, after);
      AfterStartTakes((junk + after)[FirstStart(junk) + 1..], lbl, chars);
    }
  }

  // Junk that contains a start code: whether the frame survives it for a later call.

  /** How many of the bytes `g` behind the first start code the call takes, if it stays within them: three for a header
      it rejects, else the whole bogus frame. */
  function Swallowed(g: seq<byte>, lbl: byte): Option<nat> {
    if |g| < 3 then None
    else
      var length := g[1] as int + g[2] as int * 0x100 + 1;
      if g[0] != lbl || length > PACKET_SIZE + 2 then Some(3)
      else if 3 + length <= |g| then Some(3 + length)
      else None
  }

  lemma AfterStartWithinJunk(g: seq<byte>, lbl: byte, after: seq<byte>, chars: CharType)
    requires after != []
    ensures var rest := ParseAfterStart(g + after, lbl, chars).rest;
      match Swallowed(g, lbl)
      case Some(n) => n <= |g| && rest == g[n..] + after
      case None => |rest| < |after|
  {
    var s := g + after;
    if |g| >= 3 {
      var length := s[1] as int + s[2] as int * 0x100 + 1;
      assert s[3..] == g[3..] + after;
      if 3 + length <= |g| {
        assert s[3..][length..] == g[3 + length..] + after;
      }
    }
  }

  /** A call on junk with a start code leaves the frame whole exactly if what follows that start code makes it stop
      within the junk; otherwise it has taken bytes of the frame. */
  lemma RxWithinJunk(junk: seq<byte>, lbl: byte, after: seq<byte>, chars: CharType)
    requires START in junk && after != []
    ensures var g := junk[FirstStart(junk) + 1..];
      var rest := ParseRx(junk + after, lbl, chars).rest;
      match Swallowed(g, lbl)
      case Some(n) => n <= |g| && rest == g[n..] + after
      case None => |rest| < |after|
  {
    FirstStartInJunk(junk, after);
    hide Swallowed, ParseAfterStart;
    AfterStartWithinJunk(junk[FirstStart(junk) + 1..], lbl, after, chars);
  }

  /** The junk lets the frame through: call after call stops within it, until no start code is left. */
  predicate LetsThrough(junk: seq<byte>, lbl: byte)
    decreases |junk|
  {
    if START !in junk then true
    else
      var g := junk[FirstStart(junk) + 1..];
      match Swallowed(g, lbl)
      case Some(n) => n <= |g| && LetsThrough(g[n..], lbl)
      case None => false
  }

  /** The stream after `n` calls. */
  function AfterCalls(s: seq<byte>, lbl: byte, chars: CharType, n: nat): seq<byte>
    decreases n
  {
    if n == 0 then s else AfterCalls(ParseRx(s, lbl, chars).rest, lbl, chars, n - 1)
  }

  lemma {:induction false} CallsConsume(s: seq<byte>, lbl: byte, chars: CharType, n: nat)
    ensures |AfterCalls(s, lbl, chars, n)| <= |s|
    decreases n
  {
    if n > 0 {
      RxConsumes(s, lbl, chars);
      CallsConsume(ParseRx(s, lbl, chars).rest, lbl, chars, n - 1);
    }
  }

  /** After `n` calls the next one reads the frame and leaves the stream at its end. */
  predicate ReadByCall(junk: seq<byte>, lbl: byte, data: seq<byte>, rest: seq<byte>, chars: CharType, n: nat) {
    ParseRx(AfterCalls(junk + (Frame(lbl, data) + rest), lbl, chars, n), lbl, chars) == Parsed(Some(data), rest)
  }

  lemma {:induction false} ReadImpliesThrough(
    junk: seq<byte>, lbl: byte, data: seq<byte>, rest: seq<byte>, chars: CharType, n: nat)
    requires |data| < 0x1_0000 && ReadByCall(junk, lbl, data, rest, chars, n)
    ensures chars == UNSIGNED && |data| <= PACKET_SIZE + 1 && LetsThrough(junk, lbl)
    decreases n
  {
    hide ParseRx;
    var after := Frame(lbl, data) + rest;
    var s := junk + after;
    RxConsumes(AfterCalls(s, lbl, chars, n), lbl, chars);
    SignedNeverReads(AfterCalls(s, lbl, chars, n), lbl);
    if n == 0 {
      RxRoundTrip(junk, lbl, data, rest, chars);
    } else if START in junk {
      RxWithinJunk(junk, lbl, after, chars);
      CallsConsume(ParseRx(s, lbl, chars).rest, lbl, chars, n - 1);
      var g := junk[FirstStart(junk) + 1..];
      ReadImpliesThrough(g[Swallowed(g, lbl).value..], lbl, data, rest, chars, n - 1);
    } else {
      RxBehindCleanJunk(junk, lbl, data, rest, chars);
      CallsConsume(ParseRx(s, lbl, chars).rest, lbl, chars, n - 1);
    }
  }

  lemma {:induction false} ThroughIsRead(junk: seq<byte>, lbl: byte, data: seq<byte>, rest: seq<byte>) returns (n: nat)
    requires |data| <= PACKET_SIZE + 1 && LetsThrough(junk, lbl)
    ensures ReadByCall(junk, lbl, data, rest, UNSIGNED, n)
    decreases |junk|
  {
    hide ParseRx;
    if START !in junk {
      n := 0;
      RxBehindCleanJunk(junk, lbl, data, rest, UNSIGNED);
    } else {
      RxWithinJunk(junk, lbl, Frame(lbl, data) + rest, UNSIGNED);
      var g := junk[FirstStart(junk) + 1..];
      n := ThroughIsRead(g[Swallowed(g, lbl).value..], lbl, data, rest);
      n := n + 1;
    }
  }

  /** Some call reads the frame exactly if the junk lets it through, decided by what follows each start code in it. */
  lemma ReadAfterJunkIff(junk: seq<byte>, lbl: byte, data: seq<byte>, rest: seq<byte>, chars: CharType)
    requires |data| < 0x1_0000
    ensures (exists n :: ReadByCall(junk, lbl, data, rest, chars, n)) <==>
      LetsThrough(junk, lbl) && |data| <= PACKET_SIZE + 1 && chars == UNSIGNED
  {
    hide ReadByCall, LetsThrough;
    if n: nat :| ReadByCall(junk, lbl, data, rest, chars, n) {
      ReadImpliesThrough(junk, lbl, data, rest, chars, n);
    }
    if LetsThrough(junk, lbl) && |data| <= PACKET_SIZE + 1 && chars == UNSIGNED {
      var n := ThroughIsRead(junk, lbl, data, rest);
    }
  }

  /** A start code with any one byte behind it is enough to lose the frame, to this call and to all later ones. */
  lemma StrayStartLosesFrame(other: byte, lbl: byte, data: seq<byte>, rest: seq<byte>, chars: CharType)
    requires |data| < 0x1_0000
    ensures forall n :: !ReadByCall([START, other], lbl, data, rest, chars, n)
    ensures other != lbl ==> ParseRx([START, other] + (Frame(lbl, data) + rest), lbl, chars).frame.None?
  {
    var junk := [START, other];
    assert FirstStart(junk) == 0 && START in junk;
    assert !LetsThrough(junk, lbl);
    ReadAfterJunkIff(junk, lbl, data, rest, chars);
    FirstStartInJunk(junk, Frame(lbl, data) + rest);
    assert (junk[1..] + (Frame(lbl, data) + rest))[0] == other;
  }

  lemma RxTruncatedRejected(junk: seq<byte>, lbl: byte, data: seq<byte>, k: nat, chars: CharType)
    requires START !in junk && |data| <= PACKET_SIZE + 1 && k < |Frame(lbl, data)|
    ensures ParseRx(junk + Frame(lbl, data)[..k], lbl, chars) == Parsed(None, [])
  {
    var frame := Frame(lbl, data);
    var s := junk + frame[..k];
    if k > 0 {
      assert s[|junk|] == START;
      FirstStartIs(s, |junk|);
      var body := s[|junk| + 1..];
      assert body == frame[..k][1..];
      if k > 3 {
        assert frame[1] == lbl && frame[2] == |data| % 0x100 && frame[3] == |data| / 0x100;
        assert body[0] == frame[1] && body[1] == frame[2] && body[2] == frame[3];
        assert body[0] == lbl && body[1] == |data| % 0x100 && body[2] == |data| / 0x100;
      }
    }
  }

  // Reads that time out.

  /** When the second length byte is late, only bodies of 0 or 257 bytes can be accepted. */
  lemma LateLengths(s: seq<byte>)
    requires |s| > 1 && ParseBody(s, true).frame.Some?
    ensures |ParseBody(s, true).frame.value| in {0, 257}
  {
  }

  lemma LateBody(lbl: byte, data: seq<byte>, rest: seq<byte>)
    requires |data| <= PACKET_SIZE
    ensures ParseBody(Frame(lbl, data)[2..] + rest, true) ==
      ParseRest([|data| / 0x100] + data + [END] + rest, |data| % 0x100 * 257)
  {
    hide ParseRest;
    var s := Frame(lbl, data)[2..] + rest;
    var tail := [|data| / 0x100] + data + [END] + rest;
    assert s == [|data| % 0x100] + tail && s[1..] == tail;
  }

  lemma NotAt0Or514(tail: seq<byte>, low: byte)
    requires low != 1 && tail != [] && tail[0] <= 2
    ensures ParseRest(tail, low * 257).frame.None?
  {
  }

  lemma AtMost257(data: seq<byte>, rest: seq<byte>, high: byte)
    requires |data| == 1 + high as int * 0x100 <= PACKET_SIZE
    ensures var parsed := ParseRest([high] + data + [END] + rest, 257);
      && (parsed.frame.Some? <==> if high == 1 then data[256] == END else |rest| >= 255 && rest[254] == END)
      && (high == 1 && data[256] == END ==> parsed == Parsed(Some([1] + data[..256]), [END] + rest))
  {
    var tail := [high] + data + [END] + rest;
    if high == 1 {
      assert tail[257] == data[256] && tail[..257] == [1] + data[..256];
      assert tail[258..] == [END] + rest;
    } else {
      assert |tail| == 3 + |rest|;
      assert |rest| >= 255 ==> tail[257] == rest[254];
    }
  }

  /** What a late second length byte makes of a printed frame: something else is accepted in its place exactly if it has
      257 bytes of data of which the last is the end code, or 1 and the end code follows 255 bytes behind the frame. */
  lemma LateLengthShifts(lbl: byte, data: seq<byte>, rest: seq<byte>)
    requires |data| <= PACKET_SIZE
    ensures var parsed := ParseBody(Frame(lbl, data)[2..] + rest, true);
      && (parsed.frame.Some? <==>
           || (|data| == 257 && data[256] == END)
           || (|data| == 1 && |rest| >= 255 && rest[254] == END))
      && (|data| == 257 && data[256] == END ==> parsed == Parsed(Some([1] + data[..256]), [END] + rest))
  {
    hide ParseRest, Header, Frame;
    var low, high := |data| % 0x100, |data| / 0x100;
    var tail := [high] + data + [END] + rest;
    LateBody(lbl, data, rest);
    if low == 1 {
      AtMost257(data, rest, high);
    } else {
      NotAt0Or514(tail, low);
    }
  }

  /** What a short header makes of a printed frame, when the memory behind its first byte happens to hold |data| + 2: the
      length bytes are delivered as data. */
  lemma ShortHeaderShifts(lbl: byte, data: seq<byte>, rest: seq<byte>, low: byte, high: byte)
    requires |data| + 2 <= PACKET_SIZE + 1 && low as int + high as int * 0x100 == |data| + 2
    ensures var s := Frame(lbl, data)[1..] + rest;
      && IsHeader([lbl, low, high], 1, s)
      && ParseAfterHeader([lbl, low, high], s[1..], lbl, UNSIGNED) ==
         Parsed(Some([|data| % 0x100, |data| / 0x100] + data), rest)
  {
    var s := Frame(lbl, data)[1..] + rest;
    var length: seq<byte> := [|data| % 0x100, |data| / 0x100];
    var tail := length + data + [END] + rest;
    assert s == [lbl] + tail && s[1..] == tail;
    assert tail[..|data| + 2] == length + data && tail[|data| + 3..] == rest;
    assert [lbl, low, high][..1] == [lbl] == s[..1];
  }

  // What is printed, byte by byte, and what is accepted.

  /** A frame: 0x7E, the label, the length with its low byte first, the data, 0xE7. */
  lemma FrameBytes(lbl: byte, data: seq<byte>)
    requires |data| < 0x1_0000
    ensures var f := Frame(lbl, data);
      && |f| == |data| + 5 && f[0] == 126 && f[1] == lbl && f[2] as int == |data| % 256 && f[3] as int == |data| / 256
      && f[4..4 + |data|] == data && f[4 + |data|] == 231
  {
  }

  lemma FrameParts(lbl: byte, data: seq<byte>)
    requires |data| < 0x1_0000
    ensures Frame(lbl, data) == [START] + Frame(lbl, data)[1..] == [START, lbl] + Frame(lbl, data)[2..]
    ensures Frame(lbl, data)[2..] == [|data| % 0x100, |data| / 0x100] + data + [END]
    ensures Frame(lbl, data)[1..] == [lbl, |data| % 0x100, |data| / 0x100] + data + [END]
  {
  }

  lemma CutAt(tail: seq<byte>, n: nat, head: seq<byte>)
    requires n < |tail|
    ensures head + tail == (head + tail[..n] + [tail[n]]) + tail[n + 1..]
  {
  }

  lemma BodyIsPrinted(s: seq<byte>, lbl: byte)
    requires ParseBody(s).frame.Some? && |s| > 1
    ensures var parsed := ParseBody(s);
      |parsed.frame.value| <= 512 && s == Frame(lbl, parsed.frame.value)[2..] + parsed.rest
  {
    hide Frame, FirstPair, FirstStart;
    var n, tail := BodyLength(s, false), s[2..];
    CutAt(tail, n, [s[0], s[1]]);
    assert s == [s[0], s[1]] + tail;
    LowHigh(s[0], s[1]);
    FrameParts(lbl, tail[..n]);
  }

  lemma LowHigh(low: byte, high: byte)
    ensures var n := low as int + high as int * 0x100; n % 0x100 == low as int && n / 0x100 == high as int
  {
  }

  /** Whatever `FTDI_ReceiveData` accepts for a label is a printed frame of at most 512 bytes, behind junk in which no pair
      (0x7E, label) begins; the stream is left at its end. */
  lemma AcceptedIsPrinted(s: seq<byte>, lbl: byte)
    requires lbl != 0 && ParseReceive(s, lbl).frame.Some?
    ensures var parsed := ParseReceive(s, lbl);
      var i := FirstPair(s, lbl);
      && i < |s| && |parsed.frame.value| <= 512
      && s == s[..i] + (Frame(lbl, parsed.frame.value) + parsed.rest)
      && forall j :: 0 <= j < i ==> !(s[j] == 126 && s[j + 1] == lbl)
  {
    hide ParseBody, Frame;
    var i := FirstPair(s, lbl);
    var body := s[i + 2..];
    LongEnough(body);
    BodyIsPrinted(body, lbl);
    FrameParts(lbl, ParseBody(body).frame.value);
    Regroup(s, i, [START, lbl], Frame(lbl, ParseBody(body).frame.value)[2..], ParseBody(body).rest);
    forall j | 0 <= j < i
      ensures !(s[j] == 126 && s[j + 1] == lbl)
    {
      assert !PairAt(s, lbl, j);
    }
  }

  lemma LongEnough(body: seq<byte>)
    requires ParseBody(body).frame.Some?
    ensures |body| > 1
  {
  }

  lemma Regroup(s: seq<byte>, i: nat, head: seq<byte>, middle: seq<byte>, rest: seq<byte>)
    requires i + |head| <= |s| && s[i..i + |head|] == head && s[i + |head|..] == middle + rest
    ensures s == s[..i] + ((head + middle) + rest)
  {
    assert s == s[..i] + s[i..i + |head|] + s[i + |head|..];
  }

  /** With label 0 it takes the stream to begin at a length; a label that is no byte is never found. */
  lemma OddLabels(lbl: int, data: seq<byte>, rest: seq<byte>)
    requires |data| <= 512
    ensures ParseReceive([|data| % 256, |data| / 256] + data + [231] + rest, 0) == Parsed(Some(data), rest)
    ensures lbl < 0 || lbl > 255 ==> forall s :: ParseReceive(s, lbl) == Parsed(None, [])
  {
    var tail := data + [231] + rest;
    var s: seq<byte> := [|data| % 256, |data| / 256] + tail;
    assert s == [|data| % 256, |data| / 256] + data + [231] + rest;
    assert s[2..] == tail && tail[..|data|] == data && tail[|data| + 1..] == rest;
  }

  /** Whatever `FTDI_RxDMX` accepts is a printed frame of at most 513 bytes, behind junk without a start code. */
  lemma RxAcceptedIsPrinted(s: seq<byte>, lbl: byte, chars: CharType)
    requires ParseRx(s, lbl, chars).frame.Some?
    ensures var parsed := ParseRx(s, lbl, chars);
      var i := FirstStart(s);
      && i < |s| && |parsed.frame.value| <= 513 && 126 !in s[..i]
      && s == s[..i] + (Frame(lbl, parsed.frame.value) + parsed.rest)
  {
    hide ParseAfterStart, Frame;
    var i := FirstStart(s);
    var body := s[i + 1..];
    HeaderIsPrinted(body, lbl, chars);
    FrameParts(lbl, ParseAfterStart(body, lbl, chars).frame.value);
    Regroup(s, i, [START], Frame(lbl, ParseAfterStart(body, lbl, chars).frame.value)[1..],
            ParseAfterStart(body, lbl, chars).rest);
  }

  lemma HeaderIsPrinted(s: seq<byte>, lbl: byte, chars: CharType)
    requires ParseAfterStart(s, lbl, chars).frame.Some?
    ensures var parsed := ParseAfterStart(s, lbl, chars);
      |parsed.frame.value| <= 513 && s == Frame(lbl, parsed.frame.value)[1..] + parsed.rest
  {
    hide Frame, FirstPair, FirstStart;
    var n, tail := s[1] as int + s[2] as int * 0x100, s[3..];
    assert s[..3] == [s[0], s[1], s[2]] && tail[n] == END;
    CutAt(tail, n, [lbl, s[1], s[2]]);
    assert s == [lbl, s[1], s[2]] + tail;
    LowHigh(s[1], s[2]);
    FrameParts(lbl, tail[..n]);
  }
}
