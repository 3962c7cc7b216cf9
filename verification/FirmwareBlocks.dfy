/** In-order delivery to the receiver: block numbers are rebuilt from their low 8 bits. */
module FirmwareBlocks {
  import opened Base
  import opened Artnet
  import opened Misc
  import opened FirmwarePacket
  import opened FirmwareReceiver

  /** `k` blocks of a longer image are in: the record, whatever the buffer holds. */
  predicate Busy(s: Rx, image: seq<word>, ubea: bool, from: nat, k: nat) {
    && Inv(s) && s.peer == from > 0 && s.ubea == ubea && s.expectedBlock == k >= 1
    && s.bytesTotal == 2 * |image| && s.bytesCurrent == BLOCK * k
    && WORDS * k <= |image| && WORDS < |image| < 0x4000_0000
  }

  /** ... and the first `k` blocks of the buffer are the image's. */
  predicate Prefix(s: Rx, image: seq<word>, k: nat) {
    && WORDS * k <= |image| == |s.data|
    && forall i :: 0 <= i < WORDS * k ==> s.data[i] == image[i]
  }

  lemma FirstStarts(s: Rx, image: seq<word>, ubea: bool, from: nat, now: int, m: Malloc<word>)
    requires Inv(s) && s.peer == 0 < from && m.ok && WORDS < |image| < 0x4000_0000
    ensures var r := OnPacket(s, NthPacket(image, ubea, from, 0, 0), now, m);
      && Busy(r, image, ubea, from, 1) && Prefix(r, image, 1)
      && (forall i :: WORDS <= i < |image| ==> r.data[i] == m.memory(i))
      && r.lastTime == now && r.uploads == s.uploads
      && r.replies == s.replies + [Reply(from, BLOCKGOOD)]
  {
    hide Memory;
  }

  /** An image of at most one packet completes at once; the callback is given its size in bytes. */
  lemma FirstCompletes(s: Rx, image: seq<word>, ubea: bool, from: nat, now: int, m: Malloc<word>)
    requires Inv(s) && s.peer == 0 < from && m.ok && |image| <= WORDS
    ensures var r := OnPacket(s, NthPacket(image, ubea, from, 0, 0), now, m);
      && r.uploads == s.uploads + [Upload(ubea, image, 2 * |image|)]
      && r.peer == from && r.lastTime == now
      && r.replies == s.replies + [Reply(from, ALLGOOD)]
  {
    hide Memory;
    var p := NthPacket(image, ubea, from, 0, 0);
    assert Splice(Memory(m, |image|), 0, p.data[..|image|]) == image;
  }

  /** A full block is accepted at whatever block its id resolves to, as long as that is not ahead. */
  lemma ContAdvances(s: Rx, image: seq<word>, ubea: bool, from: nat, k: nat, id: byte, now: int, m: Malloc<word>)
    requires Busy(s, image, ubea, from, k) && WORDS * (k + 1) <= |image| && Resolve(k, id) <= k
    ensures var r := OnPacket(s, NthPacket(image, ubea, from, k, id), now, m);
      && Busy(r, image, ubea, from, k + 1)
      && WORDS * Resolve(k, id) + WORDS <= |s.data|
      && r.data == Splice(s.data, WORDS * Resolve(k, id), Payload(image, k))
      && r.lastTime == s.lastTime && r.uploads == s.uploads
      && r.replies == s.replies + [Reply(from, BLOCKGOOD)]
  {
    var p := NthPacket(image, ubea, from, k, id);
    assert TotalBlocks(Length(p)) - 1 == |image| / WORDS >= k + 1;
    assert AcceptsCont(s, p);
  }

  lemma ContExtendsPrefix(s: Rx, image: seq<word>, k: nat, r: Rx)
    requires WORDS * (k + 1) <= |image| == |s.data| && Prefix(s, image, k)
    requires r.data == Splice(s.data, WORDS * k, Payload(image, k))
    ensures Prefix(r, image, k + 1)
  {
  }

  /** LAST completes the transfer exactly when its id resolves to the block expected. */
  lemma LastResolves(s: Rx, image: seq<word>, ubea: bool, from: nat, k: nat, id: byte, now: int, m: Malloc<word>)
    requires Busy(s, image, ubea, from, k) && WORDS * (k + 1) > |image| > WORDS * k
    ensures var p := NthPacket(image, ubea, from, k, id);
      var r := OnPacket(s, p, now, m);
      if Resolve(k, id) == k then
        && AcceptsLast(s, p)
        && r.uploads == s.uploads + [Upload(ubea, Completed(s, p), |image|)]
        && r.peer == 0 && r.replies == s.replies + [Reply(from, ALLGOOD)]
      else
        r == Answer(s, from, FAIL)
  {
    var p := NthPacket(image, ubea, from, k, id);
    assert TotalBlocks(Length(p)) - 1 == |image| / WORDS == k;
  }

  lemma LastCompletesPrefix(s: Rx, image: seq<word>, ubea: bool, from: nat, k: nat, p: Master)
    requires Busy(s, image, ubea, from, k) && WORDS * (k + 1) > |image| > WORDS * k && AcceptsLast(s, p)
    requires Block(s, p) == k && p.data == Payload(image, k)
    ensures Completed(s, p)[..WORDS * k] == s.data[..WORDS * k]
    ensures Prefix(s, image, k) ==> Completed(s, p) == image
  {
    AcceptedBlockFits(s, p);
    assert s.bytesTotal % BLOCK / 2 == |image| - WORDS * k;
  }

  /** The receiver does not notice missing blocks: a LAST straight after FIRST is answered ALLGOOD, and word 512 of
      the delivered buffer is whatever the memory held. */
  lemma LostBlocksGoUnnoticed(s: Rx, image: seq<word>, ubea: bool, from: nat, now: int, m: Malloc<word>)
    requires Inv(s) && s.peer == 0 < from && m.ok && |image| % WORDS != 0
    requires 2 * WORDS < |image| < 0x100 * WORDS
    ensures var k := |image| / WORDS;
      var r := OnPacket(s, NthPacket(image, ubea, from, 0, 0), now, m);
      var p := NthPacket(image, ubea, from, k, k);
      && AcceptsLast(r, p) && OnPacket(r, p, now, m) == Last(r, p)
      && Completed(r, p)[WORDS] == m.memory(WORDS)
  {
    FirstStarts(s, image, ubea, from, now, m);
    var k := |image| / WORDS;
    assert WORDS * k < |image| < WORDS * (k + 1);
    var r := OnPacket(s, NthPacket(image, ubea, from, 0, 0), now, m);
    var p := NthPacket(image, ubea, from, k, k);
    assert TotalBlocks(Length(p)) - 1 == k && Block(r, p) == k;
    assert AcceptsLast(r, p);
    assert Completed(r, p)[WORDS] == r.data[WORDS];
  }

  /** The record after the first `k` packets of the image, with the timeout checked before each. */
  function InOrder(s: Rx, image: seq<word>, ubea: bool, from: nat, ids: nat -> byte, clock: nat -> int, m: Malloc<word>,
                   k: nat): (r: Rx)
    requires Inv(s) && from > 0 && |image| < 0x4000_0000 && WORDS * (k - 1) <= |image|
    ensures Inv(r)
  {
    if k == 0 then s else
    var before := OnTick(InOrder(s, image, ubea, from, ids, clock, m, k - 1), clock(k - 1));
    OnPacket(before, NthPacket(image, ubea, from, k - 1, ids(k - 1)), clock(k - 1), m)
  }

  /** However many blocks there are: if every id resolves to its own block, after `k` of them the receiver
      expects block `k` and holds the first `k` blocks. */
  lemma {:induction false} Reconstruction(
    s: Rx, image: seq<word>, ubea: bool, from: nat, ids: nat -> byte, clock: nat -> int, m: Malloc<word>, k: nat)
    requires Inv(s) && s.peer == 0 < from && m.ok && WORDS < |image| < 0x4000_0000
    requires k >= 1 && WORDS * k <= |image|
    requires ids(0) == 0 && forall j :: 0 <= j < k ==> Resolve(j, ids(j)) == j && clock(j) - clock(0) < TIMEOUT
    ensures var r := InOrder(s, image, ubea, from, ids, clock, m, k);
      && Busy(r, image, ubea, from, k) && Prefix(r, image, k)
      && r.uploads == s.uploads && r.lastTime == clock(0)
  {
    if k == 1 {
      FirstStarts(s, image, ubea, from, clock(0), m);
      assert InOrder(s, image, ubea, from, ids, clock, m, 0) == s;
    } else {
      Reconstruction(s, image, ubea, from, ids, clock, m, k - 1);
      var before := InOrder(s, image, ubea, from, ids, clock, m, k - 1);
      ContAdvances(before, image, ubea, from, k - 1, ids(k - 1), clock(k - 1), m);
      ContExtendsPrefix(before, image, k - 1, InOrder(s, image, ubea, from, ids, clock, m, k));
    }
  }

  /** ... and an image that is not whole blocks is completed by its LAST. */
  lemma ReconstructionCompletes(
    s: Rx, image: seq<word>, ubea: bool, from: nat, ids: nat -> byte, clock: nat -> int, m: Malloc<word>)
    requires Inv(s) && s.peer == 0 < from && m.ok && WORDS < |image| < 0x4000_0000 && |image| % WORDS != 0
    requires ids(0) == 0
    requires forall j :: 0 <= j < NumBlocks(|image|) ==> Resolve(j, ids(j)) == j && clock(j) - clock(0) < TIMEOUT
    ensures var r := InOrder(s, image, ubea, from, ids, clock, m, NumBlocks(|image|));
      r.uploads == s.uploads + [Upload(ubea, image, |image|)] && r.peer == 0
  {
    var k := |image| / WORDS;
    assert NumBlocks(|image|) == k + 1 && WORDS * k < |image| < WORDS * (k + 1);
    Reconstruction(s, image, ubea, from, ids, clock, m, k);
    var before := InOrder(s, image, ubea, from, ids, clock, m, k);
    LastResolves(before, image, ubea, from, k, ids(k), clock(k), m);
    LastCompletesPrefix(before, image, ubea, from, k, NthPacket(image, ubea, from, k, ids(k)));
  }

  /** Ids counted modulo 256 always resolve to their own block. */
  lemma Modulo256Resolves(k: nat)
    ensures Resolve(k, k % 0x100) == k
  {
  }

  /** The sender's ids count modulo 255; they resolve to their own block only in the first 255 of every
      65280 = 255 * 256 blocks. */
  lemma Modulo255Resolves(k: nat)
    ensures Resolve(k, k % 0xff) == k <==> k % 0xff00 < 0xff
    ensures Resolve(k, k % 0xff) <= k
    ensures Resolve(k, k % 0xff) != k ==> Resolve(k, k % 0xff) < 0xff
  {
    var r := k % 0xff00;
    ModMod(k, 0x100, 0xff);
    ModMod(k, 0xff, 0x100);
    assert k % 0xff == r % 0xff && k % 0x100 == r % 0x100;
    var a, b := r / 0xff, r / 0x100;
    assert r == 0xff * a + r % 0xff == 0x100 * b + r % 0x100;
  }
}
