/** Broadcasting a table of devices in ArtTodData datagrams: `artnet_tx_tod_data` and its callers. */
module TodData {
  import opened Base
  import opened Artnet
  import opened Tod

  const TOD_BYTES := 1200 // room for 200 UIDs
  const CLEARED := 200     // bytes of it that are cleared before each block

  datatype Datagram = Datagram(port: nat, address: byte, total: nat, block: byte, count: byte, tod: seq<byte>)

  function NumBlocks(length: nat): nat {
    (length + MAX_UID_COUNT - 1) / MAX_UID_COUNT
  }

  function BlockSize(length: nat, k: nat): nat {
    if MAX_UID_COUNT * k >= length then 0 else Min(MAX_UID_COUNT, length - MAX_UID_COUNT * k)
  }

  function Listed(d: Datagram): seq<Uid>
    requires |d.tod| == TOD_BYTES && d.count as int <= MAX_UID_COUNT
  {
    Uids(d.tod, d.count)
  }

  /** Byte `j` of the table's UIDs laid end to end. */
  function TableByte(contents: seq<Uid>, j: nat): byte
    requires j < UID_WIDTH * |contents| && forall uid <- contents :: |uid| == UID_WIDTH
  {
    contents[j / UID_WIDTH][j % UID_WIDTH]
  }

  /** Where the bytes that block `k` neither fills nor clears begin. */
  function LeftoverFrom(length: nat, k: nat): nat {
    Max(CLEARED, UID_WIDTH * BlockSize(length, k))
  }

  /** Datagram `k` of the broadcast of `contents`: its first `count` UIDs are block `k` of the table. What follows them
      is zero up to byte 200, and from there on still that of block `k - 1`. */
  predicate IsBlock(d: Datagram, contents: seq<Uid>, k: nat) {
    && d.block == k % 0x100 && d.total == |contents| % 0x1_0000
    && MAX_UID_COUNT * k < |contents| && d.count == BlockSize(|contents|, k)
    && |d.tod| == TOD_BYTES
    && Listed(d) == contents[MAX_UID_COUNT * k..MAX_UID_COUNT * k + BlockSize(|contents|, k)]
    && (forall uid <- contents :: |uid| == UID_WIDTH)
    && Trails(d.tod, contents, k)
  }

  predicate Trails(tod: seq<byte>, contents: seq<Uid>, k: nat)
    requires |tod| == TOD_BYTES && MAX_UID_COUNT * k < |contents| && forall uid <- contents :: |uid| == UID_WIDTH
  {
    forall j :: UID_WIDTH * BlockSize(|contents|, k) <= j < TOD_BYTES ==>
      tod[j] == if k == 0 || j < CLEARED then 0 else TableByte(contents, TOD_BYTES * (k - 1) + j)
  }

  lemma UidsOfSlice(buffer: seq<byte>, bytes: seq<byte>, from: nat, n: nat, m: nat)
    requires from + n <= m && UID_WIDTH * m <= |bytes| && UID_WIDTH * n <= |buffer|
    requires buffer[..UID_WIDTH * n] == bytes[UID_WIDTH * from..UID_WIDTH * (from + n)]
    ensures Uids(buffer, n) == Uids(bytes, m)[from..from + n]
  {
    forall i | 0 <= i < n
      ensures Uids(buffer, n)[i] == Uids(bytes, m)[from + i]
    {
      var lo := UID_WIDTH * i;
      SliceOfSlice(buffer, 0, UID_WIDTH * n, lo, lo + UID_WIDTH);
      SliceOfSlice(bytes, UID_WIDTH * from, UID_WIDTH * (from + n), lo, lo + UID_WIDTH);
    }
  }

  lemma FilledIsBlock(d: Datagram, contents: seq<Uid>, k: nat)
    requires MAX_UID_COUNT * k < |contents| && |d.tod| == TOD_BYTES
    requires d.block == k % 0x100 && d.total == |contents| % 0x1_0000 && d.count == BlockSize(|contents|, k)
    requires Uids(d.tod, BlockSize(|contents|, k)) ==
      contents[MAX_UID_COUNT * k..MAX_UID_COUNT * k + BlockSize(|contents|, k)]
    requires (forall uid <- contents :: |uid| == UID_WIDTH) && Trails(d.tod, contents, k)
    ensures IsBlock(d, contents, k)
  {
  }

  /** What the packet's UID area holds before block `k` is filled in: nothing at first, then the block before. */
  predicate Holds(buffer: seq<byte>, contents: seq<Uid>, k: nat)
    requires forall uid <- contents :: |uid| == UID_WIDTH
  {
    && |buffer| == TOD_BYTES && MAX_UID_COUNT * (k - 1) <= |contents|
    && forall j :: 0 <= j < TOD_BYTES ==>
         if k == 0 then buffer[j] == 0
         else TOD_BYTES * (k - 1) + j < UID_WIDTH * |contents| ==>
           buffer[j] == TableByte(contents, TOD_BYTES * (k - 1) + j)
  }

  lemma UidByte(bytes: seq<byte>, n: nat, j: nat)
    requires UID_WIDTH * n <= |bytes| && j < UID_WIDTH * n
    ensures forall uid <- Uids(bytes, n) :: |uid| == UID_WIDTH
    ensures TableByte(Uids(bytes, n), j) == bytes[j]
  {
    assert j == UID_WIDTH * (j / UID_WIDTH) + j % UID_WIDTH;
  }

  lemma ContentsByte(table: Table, j: nat)
    requires table.Valid() && j < UID_WIDTH * table.length
    ensures forall uid <- table.Contents() :: |uid| == UID_WIDTH
    ensures TableByte(table.Contents(), j) == table.data[j]
  {
    UidByte(table.data[..], table.maxLength, j);
  }

  lemma ContentsWidth(table: Table)
    requires table.Valid()
    ensures forall uid <- table.Contents() :: |uid| == UID_WIDTH
  {
  }

  /** Fills the packet's UID area, of which only the first 200 bytes are cleared before. */
  method FillArea(buffer: array<byte>, bytes: seq<byte>)
    requires |bytes| <= buffer.Length == TOD_BYTES
    modifies buffer
    ensures forall j :: 0 <= j < TOD_BYTES ==>
      buffer[j] == if j < |bytes| then bytes[j] else if j < CLEARED then 0 else old(buffer[j])
  {
    ghost var before := buffer[..];
    Memcpy(buffer, 0, seq(CLEARED, _ => 0));
    ghost var cleared := buffer[..];
    Memcpy(buffer, 0, bytes);
    assert forall j :: 0 <= j < TOD_BYTES ==> buffer[..][j] == if j < |bytes| then bytes[j] else cleared[j];
    assert forall j :: 0 <= j < TOD_BYTES ==> cleared[j] == if j < CLEARED then 0 else before[j];
  }

  /** Fills in block `k` of the table; past its UIDs and the cleared bytes the area stays as it was. */
  method FillBlock(buffer: array<byte>, table: Table, offset: nat, lim: nat, ghost k: nat)
    requires table.Valid() && buffer.Length == TOD_BYTES && buffer != table.data
    requires MAX_UID_COUNT * k < table.length && lim == BlockSize(table.length, k)
    requires offset == MAX_UID_COUNT * k * UID_WIDTH
    modifies buffer
    ensures Uids(buffer[..], lim) == table.Contents()[MAX_UID_COUNT * k..MAX_UID_COUNT * k + lim]
    ensures forall j :: 0 <= j < UID_WIDTH * lim ==> buffer[j] == table.data[offset + j]
    ensures forall j :: UID_WIDTH * lim <= j < TOD_BYTES ==> buffer[j] == if j < CLEARED then 0 else old(buffer[j])
  {
    hide Uids;
    ghost var all := table.data[..];
    var bytes := table.data[offset..offset + lim * UID_WIDTH];
    FillArea(buffer, bytes);
    assert table.data[..] == all;
    assert buffer[..UID_WIDTH * lim] == bytes == all[offset..offset + lim * UID_WIDTH];
    BlockUids(buffer[..], table, lim, k);
  }

  lemma BlockUids(buffer: seq<byte>, table: Table, lim: nat, k: nat)
    requires table.Valid() && |buffer| == TOD_BYTES
    requires MAX_UID_COUNT * k < table.length && lim == BlockSize(table.length, k)
    requires buffer[..UID_WIDTH * lim] ==
      table.data[..][UID_WIDTH * (MAX_UID_COUNT * k)..UID_WIDTH * (MAX_UID_COUNT * k + lim)]
    ensures Uids(buffer, lim) == table.Contents()[MAX_UID_COUNT * k..MAX_UID_COUNT * k + lim]
  {
    hide Uids;
    UidsOfSlice(buffer, table.data[..], MAX_UID_COUNT * k, lim, table.maxLength);
  }

  /** From one block to the next: what the area holds, and what trails the UIDs. */
  lemma FilledHolds(table: Table, before: seq<byte>, after: seq<byte>, k: nat)
    requires table.Valid() && MAX_UID_COUNT * k < table.length && |after| == TOD_BYTES
    requires forall uid <- table.Contents() :: |uid| == UID_WIDTH
    requires Holds(before, table.Contents(), k)
    requires var lim := BlockSize(table.length, k);
      && (forall j :: 0 <= j < UID_WIDTH * lim ==> after[j] == table.data[TOD_BYTES * k + j])
      && (forall j :: UID_WIDTH * lim <= j < TOD_BYTES ==> after[j] == if j < CLEARED then 0 else before[j])
    ensures Holds(after, table.Contents(), k + 1) && Trails(after, table.Contents(), k)
  {
    var contents := table.Contents();
    forall j | 0 <= j < TOD_BYTES && TOD_BYTES * k + j < UID_WIDTH * |contents|
      ensures after[j] == TableByte(contents, TOD_BYTES * k + j)
    {
      ContentsByte(table, TOD_BYTES * k + j);
    }
  }

  /** One datagram of the loop. */
  method FillDatagram(buffer: array<byte>, table: Table, id: nat, address: byte, offset: nat, lim: nat, bloc: nat)
    returns (d: Datagram)
    requires table.Valid() && buffer.Length == TOD_BYTES && buffer != table.data
    requires MAX_UID_COUNT * bloc < table.length && lim == BlockSize(table.length, bloc)
    requires offset == MAX_UID_COUNT * bloc * UID_WIDTH
    requires (forall uid <- table.Contents() :: |uid| == UID_WIDTH) && Holds(buffer[..], table.Contents(), bloc)
    modifies buffer
    ensures Holds(buffer[..], table.Contents(), bloc + 1)
    ensures IsBlock(d, table.Contents(), bloc) && d.port == id && d.address == address
  {
    hide IsBlock, Uids, Holds, Trails;
    ghost var before := buffer[..];
    FillBlock(buffer, table, offset, lim, bloc);
    FilledHolds(table, before, buffer[..], bloc);
    d := Datagram(id, address, table.length % 0x1_0000, bloc % 0x100, lim, buffer[..]);
    FilledIsBlock(d, table.Contents(), bloc);
  }

  /** `artnet_tx_tod_data`; `net(k)` says whether the network takes the k-th datagram. After a failure nothing
      more is sent, so what is sent is the leading blocks, and it is all of them exactly when 0 is returned. */
  method TxTodData(table: Table, id: nat, address: byte, net: nat -> bool) returns (ret: int, sent: seq<Datagram>)
    requires table.Valid()
    ensures ret in {0, 1} && |sent| <= NumBlocks(table.length)
    ensures forall k :: 0 <= k < |sent| ==>
      net(k) && IsBlock(sent[k], table.Contents(), k) && sent[k].port == id && sent[k].address == address
    ensures ret == 0 <==> |sent| == NumBlocks(table.length)
    ensures ret != 0 ==> !net(|sent|)
  {
    hide IsBlock, Uids, Holds, Trails;
    var buffer := new byte[TOD_BYTES](_ => 0);
    var remaining, bloc := table.length, 0;
    ret, sent := 0, [];
    ContentsWidth(table);
    NothingHeld(buffer[..], table.Contents());
    while remaining > 0
      invariant remaining == if MAX_UID_COUNT * bloc <= table.length then table.length - MAX_UID_COUNT * bloc else 0
      invariant 0 <= bloc <= NumBlocks(table.length) && ret in {0, 1}
      invariant remaining > 0 ==> Holds(buffer[..], table.Contents(), bloc)
      invariant if ret == 0 then |sent| == bloc else |sent| < bloc && !net(|sent|)
      invariant forall k :: 0 <= k < |sent| ==>
        net(k) && IsBlock(sent[k], table.Contents(), k) && sent[k].port == id && sent[k].address == address
    {
      var lim := Min(MAX_UID_COUNT, remaining);
      var offset := (table.length - remaining) * UID_WIDTH;
      var d := FillDatagram(buffer, table, id, address, offset, lim, bloc);
      if ret == 0 {
        if net(|sent|) {
          sent := sent + [d];
        } else {
          ret := 1;
        }
      }
      bloc := bloc + 1;
      remaining := remaining - lim;
    }
  }

  lemma NothingHeld(buffer: seq<byte>, contents: seq<Uid>)
    requires |buffer| == TOD_BYTES && (forall j :: 0 <= j < TOD_BYTES ==> buffer[j] == 0)
    requires forall uid <- contents :: |uid| == UID_WIDTH
    ensures Holds(buffer, contents, 0)
  {
  }

  /** Only zeros follow the announced UIDs. */
  predicate CleanTail(d: Datagram)
    requires |d.tod| == TOD_BYTES
  {
    forall j :: UID_WIDTH * d.count <= j < TOD_BYTES ==> d.tod[j] == 0
  }

  predicate ZerosBetween(contents: seq<Uid>, from: nat, to: nat)
    requires to <= UID_WIDTH * |contents| && forall uid <- contents :: |uid| == UID_WIDTH
  {
    forall j :: from <= j < to ==> TableByte(contents, j) == 0
  }

  /** What follows the UIDs of a block is all zero exactly if the block is the first, is full, or comes after a block
      that has only zeros past the cleared bytes and past its UIDs. */
  lemma CleanTailIff(d: Datagram, contents: seq<Uid>, k: nat)
    requires IsBlock(d, contents, k)
    ensures CleanTail(d) <==>
      || k == 0
      || d.count as int == MAX_UID_COUNT
      || ZerosBetween(contents, TOD_BYTES * (k - 1) + LeftoverFrom(|contents|, k), TOD_BYTES * k)
  {
    hide TableByte, Listed;
    if k > 0 && d.count as int != MAX_UID_COUNT {
      var base := TOD_BYTES * (k - 1);
      if CleanTail(d) {
        forall b | base + LeftoverFrom(|contents|, k) <= b < base + TOD_BYTES
          ensures TableByte(contents, b) == 0
        {
          assert d.tod[b - base] == TableByte(contents, base + (b - base));
        }
      }
      forall j | LeftoverFrom(|contents|, k) <= j < TOD_BYTES
        ensures d.tod[j] == TableByte(contents, base + j)
      {
      }
    }
  }

  /** A table of 201 UIDs of ones: the second datagram announces one UID and repeats 1000 bytes of the first. */
  lemma LeftoverFromBlockBefore(d: Datagram, contents: seq<Uid>)
    requires |contents| == MAX_UID_COUNT + 1 && forall uid <- contents :: uid == [1, 1, 1, 1, 1, 1]
    requires IsBlock(d, contents, 1)
    ensures d.count == 1 && !CleanTail(d)
    ensures forall j :: UID_WIDTH <= j < TOD_BYTES ==> d.tod[j] == if j < CLEARED then 0 else 1
  {
    forall j | CLEARED <= j < TOD_BYTES
      ensures d.tod[j] == 1
    {
      assert d.tod[j] == TableByte(contents, j);
      assert contents[j / UID_WIDTH] in contents;
    }
    assert d.tod[CLEARED] == 1;
  }

  /** The UIDs the datagrams announce, one after the other. */
  function Announced(sent: seq<Datagram>): seq<Uid>
    requires forall d <- sent :: |d.tod| == TOD_BYTES && d.count as int <= MAX_UID_COUNT
  {
    if sent == [] then [] else Announced(sent[..|sent| - 1]) + Listed(sent[|sent| - 1])
  }

  lemma BlockLists(d: Datagram, contents: seq<Uid>, k: nat)
    requires IsBlock(d, contents, k)
    ensures |d.tod| == TOD_BYTES && d.count as int <= MAX_UID_COUNT && MAX_UID_COUNT * k < |contents|
    ensures Listed(d) == contents[MAX_UID_COUNT * k..Min(MAX_UID_COUNT * (k + 1), |contents|)]
  {
    hide Trails, TableByte, Uids;
  }

  /** What listeners collect is a prefix of the table, in order, and the whole table once every block is sent. */
  lemma {:induction false} AnnouncedIsPrefix(sent: seq<Datagram>, contents: seq<Uid>)
    requires forall k :: 0 <= k < |sent| ==> IsBlock(sent[k], contents, k)
    ensures forall d <- sent :: |d.tod| == TOD_BYTES && d.count as int <= MAX_UID_COUNT
    ensures Announced(sent) == contents[..Min(MAX_UID_COUNT * |sent|, |contents|)]
    ensures |sent| == NumBlocks(|contents|) ==> Announced(sent) == contents
  {
    hide IsBlock, Listed;
    if sent != [] {
      var n := |sent| - 1;
      assert forall k :: 0 <= k < n ==> sent[..n][k] == sent[k];
      AnnouncedIsPrefix(sent[..n], contents);
      BlockLists(sent[n], contents, n);
      assert contents[..MAX_UID_COUNT * n] + contents[MAX_UID_COUNT * n..Min(MAX_UID_COUNT * (n + 1), |contents|)]
        == contents[..Min(MAX_UID_COUNT * (n + 1), |contents|)];
    }
  }

  /** Up to 51200 UIDs the blocks are full and numbered 0, 1, 2, ..., only the last of the table being shorter. */
  lemma BlockNumbers(d: Datagram, contents: seq<Uid>, k: nat)
    requires IsBlock(d, contents, k) && |contents| <= 51200
    ensures d.block as int == k && d.total == |contents|
    ensures k + 1 < NumBlocks(|contents|) ==> d.count as int == MAX_UID_COUNT
  {
  }

  /** The tables of a node's output ports: each with a buffer of its own. */
  ghost predicate Separate(tables: seq<Table>)
    reads tables, set t | t in tables && t.data != null :: t.data
  {
    && |tables| == MAX_PORTS
    && (forall i :: 0 <= i < MAX_PORTS ==> tables[i].Valid())
    && (forall i, j :: 0 <= i < j < MAX_PORTS ==>
         tables[i] != tables[j] && (tables[i].data != null ==> tables[i].data != tables[j].data))
  }

  /** Its loop: no other port's table changes. */
  method AddOnPort(tables: seq<Table>, port: nat, uids: seq<Uid>)
    requires Separate(tables) && port < MAX_PORTS && forall uid <- uids :: |uid| == UID_WIDTH
    modifies tables[port], if tables[port].data == null then {} else {tables[port].data}
    ensures Separate(tables)
    ensures forall i :: 0 <= i < MAX_PORTS ==>
      tables[i].Contents() == old(tables[i].Contents()) + if i == port then uids else []
  {
    hide Uids;
    tables[port].AddAll(uids);
    forall i | 0 <= i < MAX_PORTS && i != port
      ensures tables[i].Valid() && tables[i].Contents() == old(tables[i].Contents())
    {
      assert tables[i] != tables[port];
    }
  }

  /** `artnet_add_rdm_devices`. */
  method AddRdmDevices(tables: seq<Table>, port: int, uids: seq<Uid>, count: int, address: byte, net: nat -> bool)
    returns (ret: int, sent: seq<Datagram>)
    requires Separate(tables) && count <= |uids| && forall uid <- uids :: |uid| == UID_WIDTH
    modifies tables, set t | t in tables && t.data != null :: t.data
    ensures Separate(tables)
    ensures ret == EARG <==> port < 0 || port >= MAX_PORTS || count < 0
    ensures ret == EARG ==> sent == []
    ensures forall i :: 0 <= i < MAX_PORTS ==>
      tables[i].Contents() == old(tables[i].Contents()) + if ret != EARG && i == port then uids[..count] else []
    ensures ret != EARG ==>
      && (forall k :: 0 <= k < |sent| ==>
           IsBlock(sent[k], tables[port].Contents(), k) && sent[k].port == port && sent[k].address == address)
      && (ret == 0 <==> |sent| == NumBlocks(|tables[port].Contents()|))
      && (ret != 0 ==> !net(|sent|))
  {
    hide Uids, IsBlock;
    if port < 0 || port >= MAX_PORTS {
      return EARG, [];
    }
    if count < 0 {
      return EARG, [];
    }
    AddOnPort(tables, port, uids[..count]);
    ret, sent := TxTodData(tables[port], port, address, net);
  }
}
