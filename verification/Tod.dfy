/** The RDM table of devices: libs/artnet/libartnet/tod.c, and its broadcast in `artnet_tx_tod_data`. */
module Tod {
  import opened Base
  import opened Artnet

  const UID_WIDTH := 6
  const INITIAL_SIZE := 100
  const INCREMENT := 50
  const MAX_UID_COUNT := 200

  type Uid = seq<byte> // UID_WIDTH bytes

  /** The first `n` UIDs stored back to back in `bytes`. */
  function Uids(bytes: seq<byte>, n: nat): (r: seq<Uid>)
    requires UID_WIDTH * n <= |bytes|
    ensures |r| == n
  {
    seq(n, i requires 0 <= i < n => bytes[UID_WIDTH * i..UID_WIDTH * i + UID_WIDTH])
  }

  lemma SpliceUid(bytes: seq<byte>, k: nat, uid: Uid, n: nat)
    requires k < n && UID_WIDTH * n <= |bytes| && |uid| == UID_WIDTH
    ensures Uids(Splice(bytes, UID_WIDTH * k, uid), n) == Uids(bytes, n)[k := uid]
  {
    var r := Splice(bytes, UID_WIDTH * k, uid);
    forall i | 0 <= i < n
      ensures Uids(r, n)[i] == Uids(bytes, n)[k := uid][i]
    {
      assert r[UID_WIDTH * i..UID_WIDTH * i + UID_WIDTH] ==
        if i == k then uid else bytes[UID_WIDTH * i..UID_WIDTH * i + UID_WIDTH];
    }
  }

  lemma UidsOfPrefix(a: seq<byte>, b: seq<byte>, n: nat)
    requires UID_WIDTH * n <= |a| && UID_WIDTH * n <= |b| && a[..UID_WIDTH * n] == b[..UID_WIDTH * n]
    ensures Uids(a, n) == Uids(b, n)
  {
    forall i | 0 <= i < n
      ensures Uids(a, n)[i] == Uids(b, n)[i]
    {
      assert a[..UID_WIDTH * n][UID_WIDTH * i..UID_WIDTH * i + UID_WIDTH] == a[UID_WIDTH * i..UID_WIDTH * i + UID_WIDTH];
      assert b[..UID_WIDTH * n][UID_WIDTH * i..UID_WIDTH * i + UID_WIDTH] == b[UID_WIDTH * i..UID_WIDTH * i + UID_WIDTH];
    }
  }

  // Removal, on the slots of the buffer: the search starts at slot 1 and looks one slot past the live ones.

  /** The search stays inside the buffer: it has a slot to spare, or finds the UID before it gets there. */
  ghost predicate SearchFits(slots: seq<Uid>, length: nat, uid: Uid) {
    length <= |slots| &&
    (length == 0 || length < |slots| || exists p :: 1 <= p < length && slots[p] == uid)
  }

  /** The first slot from 1 to `length` that holds `uid`, or `length + 1`. */
  ghost function Search(slots: seq<Uid>, length: nat, uid: Uid, from: nat := 1): (p: nat)
    requires SearchFits(slots, length, uid) && 1 <= from <= length + 1
    requires forall q :: 1 <= q < from ==> q < |slots| && slots[q] != uid
    ensures from <= p <= length + 1
    ensures p <= length && length > 0 ==> p < |slots| && slots[p] == uid
    ensures forall q :: 1 <= q < p && length > 0 ==> q < |slots| && slots[q] != uid
    decreases length + 1 - from
  {
    if from == length + 1 then from
    else if slots[from] == uid then from
    else Search(slots, length, uid, from + 1)
  }

  datatype Removal = Removal(ret: int, slots: seq<Uid>, length: nat)

  ghost function Removed(slots: seq<Uid>, length: nat, uid: Uid): (r: Removal)
    requires SearchFits(slots, length, uid)
    ensures |r.slots| == |slots| && r.length <= |slots|
  {
    if length == 0 || Search(slots, length, uid) == length + 1 then Removal(-1, slots, length)
    else Removal(0, slots[Search(slots, length, uid) := slots[length - 1]], length - 1)
  }

  /** A table: every slot of its buffer, live or not, and how many are live. */
  datatype State = State(slots: seq<Uid>, length: nat)

  const EMPTY := State([], 0)

  predicate Inv(s: State) {
    s.length <= |s.slots| && (s.slots == [] || |s.slots| >= INITIAL_SIZE)
  }

  /** How many slots the next add has to make: 100 at first, then 50 whenever the buffer is full. */
  function Growth(s: State): nat {
    if s.slots == [] then INITIAL_SIZE else if s.length == |s.slots| then INCREMENT else 0
  }

  /** `uid` added, with `more` what the new memory, if any, holds. */
  function Added(s: State, uid: Uid, more: seq<Uid>): (r: State)
    requires Inv(s) && |more| == Growth(s)
    ensures Inv(r)
    ensures r.slots[..r.length] == s.slots[..s.length] + [uid]
  {
    State((s.slots + more)[s.length := uid], s.length + 1)
  }

  class Table {
    var data: array?<byte>
    var length: nat
    var maxLength: nat

    ghost predicate Valid()
      reads this, data
    {
      && length <= maxLength
      && if data == null then maxLength == 0 else data.Length == UID_WIDTH * maxLength && maxLength >= INITIAL_SIZE
    }

    /** What a failed `realloc` leaves: no buffer, and counts that no longer mean anything. */
    ghost predicate Lost()
      reads this
    {
      data == null && length == maxLength > 0
    }

    ghost function View(): (s: State)
      requires Valid() || Lost()
      reads this, data
      ensures Inv(s)
      ensures Valid() ==> s == State(Slots(), length)
    {
      if data == null then EMPTY else State(Uids(data[..], maxLength), length)
    }

    /** Every slot of the buffer, live or not. */
    ghost function Slots(): seq<Uid>
      requires Valid()
      reads this, data
    {
      if data == null then [] else Uids(data[..], maxLength)
    }

    ghost function Contents(): seq<Uid>
      requires Valid()
      reads this, data
    {
      Slots()[..length]
    }

    /** `reset_tod`. */
    constructor ()
      ensures Valid() && View() == EMPTY && data == null
    {
      data, length, maxLength := null, 0, 0;
    }

    /** Copies `uid` over slot `k`. */
    method Put(k: nat, uid: Uid)
      requires Valid() && k < maxLength && |uid| == UID_WIDTH
      modifies data
      ensures Valid() && Slots() == old(Slots())[k := uid]
    {
      SpliceUid(data[..], k, uid, maxLength);
      Memcpy(data, k * UID_WIDTH, uid);
    }

    /** `malloc` or `realloc` to `size` slots: the old ones keep their contents. */
    method Resize(size: nat)
      requires (Valid() || Lost()) && size >= |View().slots|
      modifies this`data, this`maxLength
      ensures data != null && fresh(data) && data.Length == UID_WIDTH * size && maxLength == size
      ensures Uids(data[..], size)[..|old(View()).slots|] == old(View()).slots
    {
      var bigger := new byte[size * UID_WIDTH];
      if data != null {
        Memcpy(bigger, 0, data[..]);
        UidsOfPrefix(bigger[..], data[..], maxLength);
      }
      data := bigger;
      maxLength := size;
    }

    /** `add_tod_uid`; `ok` says whether `malloc` or `realloc` succeeds. When it fails the table is given up: what it
        held is lost, and the next add starts afresh. */
    method Add(uid: Uid, ok: bool) returns (ret: int)
      requires (Valid() || Lost()) && |uid| == UID_WIDTH
      modifies this, data
      ensures ret == if old(Growth(View())) > 0 && !ok then EMEM else EOK
      ensures ret == EMEM ==> data == null && length == old(length) && maxLength == old(maxLength)
      ensures ret == EOK ==> Valid() && maxLength == |old(View()).slots| + old(Growth(View()))
      ensures ret == EOK && old(Valid()) ==>
        maxLength == if old(data) == null then 100 else if old(length == maxLength) then old(maxLength) + 50 else old(maxLength)
      ensures ret == EOK ==> View() == Added(old(View()), uid, Slots()[|old(View()).slots|..])
      ensures ret == EOK && old(Valid()) ==> Contents() == old(Contents()) + [uid]
      ensures data == null || data == old(data) || fresh(data)
    {
      hide Uids;
      ghost var slots := View().slots;
      if data == null {
        if !ok {
          return EMEM;
        }
        Resize(INITIAL_SIZE);
        length := 1;
      } else if length == maxLength {
        if !ok {
          data := null;
          return EMEM;
        }
        Resize(maxLength + INCREMENT);
        length := length + 1;
      } else {
        length := length + 1;
      }
      assert Slots()[..|slots|] == slots;
      assert Slots() == slots + Slots()[|slots|..];
      Put(length - 1, uid);
      return EOK;
    }

    method Matches(offset: nat, uid: Uid, ghost k: nat) returns (same: bool)
      requires Valid() && k < maxLength && offset == k * UID_WIDTH
      ensures same <==> Slots()[k] == uid
    {
      same := data[offset..offset + UID_WIDTH] == uid;
      assert data[offset..offset + UID_WIDTH] == data[..][offset..offset + UID_WIDTH];
    }

    /** The search loop of `remove_tod_uid`. */
    method Locate(uid: Uid) returns (i: nat, offset: nat)
      requires Valid() && SearchFits(Slots(), length, uid) && data != null
      ensures i <= length && offset == (if i < length then i + 1 else i) * UID_WIDTH
      ensures length > 0 ==> Search(Slots(), length, uid) == i + 1
    {
      hide Uids;
      i, offset := 0, 0;
      while i < length
        invariant 0 <= i <= length && offset == i * UID_WIDTH
        invariant forall q :: 1 <= q <= i ==> q < maxLength && Slots()[q] != uid
        invariant Search(Slots(), length, uid) == Search(Slots(), length, uid, i + 1)
      {
        offset := offset + UID_WIDTH;
        assert i + 1 < maxLength;
        var found := Matches(offset, uid, i + 1);
        if found {
          return;
        }
        i := i + 1;
      }
    }

    /** `remove_tod_uid`: overwrites the UID found with the last one. */
    method Remove(uid: Uid) returns (ret: int)
      requires Valid() && SearchFits(Slots(), length, uid)
      modifies this`length, data
      ensures Valid() && maxLength == old(maxLength)
      ensures Removal(ret, Slots(), length) == old(Removed(Slots(), length, uid))
      ensures View() == State(Slots(), length)
    {
      hide Uids, Search, SearchFits;
      ghost var slots, n := Slots(), length;
      if data == null {
        assert Removed(slots, n, uid) == Removal(-1, slots, n);
        return -1;
      }
      var i, offset := Locate(uid);
      if i == length {
        assert Removed(slots, n, uid) == Removal(-1, slots, n);
        return -1;
      }
      assert Removed(slots, n, uid) == Removal(0, slots[i + 1 := slots[n - 1]], n - 1);
      var last := ReadSlot(length - 1);
      Put(i + 1, last);
      length := length - 1;
      return 0;
    }

    method ReadSlot(k: nat) returns (uid: Uid)
      requires Valid() && k < maxLength
      ensures uid == Slots()[k] && |uid| == UID_WIDTH
    {
      uid := data[k * UID_WIDTH..k * UID_WIDTH + UID_WIDTH];
      assert uid == data[..][k * UID_WIDTH..k * UID_WIDTH + UID_WIDTH];
    }

    /** `flush_tod`. */
    method Flush()
      modifies this
      ensures Valid() && View() == EMPTY && data == null
    {
      data, length, maxLength := null, 0, 0;
    }

    /** The loop of `artnet_add_rdm_devices`. */
    method AddAll(uids: seq<Uid>)
      requires Valid() && forall uid <- uids :: |uid| == UID_WIDTH
      modifies this, data
      ensures Valid() && Contents() == old(Contents()) + uids
      ensures data == null || data == old(data) || fresh(data)
    {
      hide Uids, Added, View, Growth, Slots;
      ghost var before := Contents();
      for i := 0 to |uids|
        invariant Valid() && Contents() == before + uids[..i]
        invariant data == null || data == old(data) || fresh(data)
      {
        var ret := Add(uids[i], true);
        assert before + uids[..i] + [uids[i]] == before + uids[..i + 1];
      }
      assert uids[..|uids|] == uids;
    }
  }

  // When removal removes the right thing.

  /** The multiset of live UIDs loses one copy of `uid`, and nothing else; if it had none, nothing. */
  ghost predicate RemovesOne(slots: seq<Uid>, length: nat, uid: Uid)
    requires SearchFits(slots, length, uid)
  {
    var r := Removed(slots, length, uid);
    multiset(r.slots[..r.length]) == multiset(slots[..length]) - multiset{uid}
  }

  lemma SwapWithLast(live: seq<Uid>, p: nat)
    requires p < |live|
    ensures multiset(live[p := live[|live| - 1]][..|live| - 1]) == multiset(live) - multiset{live[p]}
  {
    var n := |live| - 1;
    assert live == live[..n] + [live[n]];
    if p < n {
      assert live[p := live[n]][..n] == live[..n][p := live[n]];
    } else {
      assert live[p := live[n]][..n] == live[..n];
    }
  }

  lemma DropLast(live: seq<Uid>)
    requires live != []
    ensures multiset(live[..|live| - 1]) == multiset(live) - multiset{live[|live| - 1]}
  {
    SwapWithLast(live, |live| - 1);
    assert live[|live| - 1 := live[|live| - 1]] == live;
  }

  lemma TakingAnother(live: multiset<Uid>, a: Uid, b: Uid)
    requires a in live && a != b
    ensures live - multiset{a} != live - multiset{b}
  {
    assert (live - multiset{a})[a] == live[a] - 1;
    assert (live - multiset{b})[a] == live[a];
  }

  lemma UpdateThenTake(slots: seq<Uid>, n: nat, p: nat)
    requires p < n <= |slots|
    ensures slots[p := slots[n - 1]][..n - 1] == slots[..n][p := slots[..n][n - 1]][..n - 1]
  {
  }

  lemma SearchFinds(slots: seq<Uid>, length: nat, uid: Uid, q: nat)
    requires SearchFits(slots, length, uid) && 1 <= q < length && slots[q] == uid
    ensures 1 <= Search(slots, length, uid) <= q
    ensures slots[Search(slots, length, uid)] == uid
  {
    hide Search;
    assert Search(slots, length, uid) <= q;
  }

  lemma OverwriteWithLast(slots: seq<Uid>, length: nat, p: nat)
    requires p < length <= |slots|
    ensures multiset(slots[p := slots[length - 1]][..length - 1]) == multiset(slots[..length]) - multiset{slots[p]}
  {
    SwapWithLast(slots[..length], p);
    UpdateThenTake(slots, length, p);
  }

  lemma RemovedWhenFound(slots: seq<Uid>, length: nat, uid: Uid, p: nat)
    requires SearchFits(slots, length, uid) && 1 <= p < length && p == Search(slots, length, uid)
    ensures Removed(slots, length, uid) == Removal(0, slots[p := slots[length - 1]], length - 1)
  {
    hide Search;
  }

  /** A UID in a live slot other than the first is removed. */
  lemma FoundIsRemoved(slots: seq<Uid>, length: nat, uid: Uid, q: nat)
    requires SearchFits(slots, length, uid) && 1 <= q < length && slots[q] == uid
    ensures RemovesOne(slots, length, uid) && Removed(slots, length, uid).ret == 0
  {
    hide Search, Removed;
    SearchFinds(slots, length, uid, q);
    var p := Search(slots, length, uid);
    RemovedWhenFound(slots, length, uid, p);
    OverwriteWithLast(slots, length, p);
  }

  /** The search finds nothing live: it returns -1, or drops the last UID for a stale copy just past the live slots. */
  lemma NotFound(slots: seq<Uid>, length: nat, uid: Uid)
    requires 0 < length < |slots| && forall p :: 1 <= p < length ==> slots[p] != uid
    ensures var r := Removed(slots, length, uid);
      && r.slots[..r.length] == (if slots[length] == uid then slots[..length - 1] else slots[..length])
      && r.ret == if slots[length] == uid then 0 else -1
  {
    var p := Search(slots, length, uid);
    assert p >= length;
    assert slots[length := slots[length - 1]][..length - 1] == slots[..length - 1];
  }

  /** The UID is in a live slot other than the first, or nowhere a search looks and not in the first either. */
  ghost predicate Harmless(slots: seq<Uid>, length: nat, uid: Uid)
    requires SearchFits(slots, length, uid)
  {
    || length == 0
    || (exists p :: 1 <= p < length && slots[p] == uid)
    || (slots[0] != uid && slots[length] != uid)
    || (length == 1 && slots[0] == uid && slots[1] == uid)
  }

  /** Exactly when removal is right. It is not when the UID is only in slot 0, nor when a stale copy sits just
      past the live slots (then the last live UID is lost), unless that copy stands for the only live one. */
  lemma RemovalIff(slots: seq<Uid>, length: nat, uid: Uid)
    requires SearchFits(slots, length, uid)
    ensures RemovesOne(slots, length, uid) <==> Harmless(slots, length, uid)
  {
    hide Search, Removed;
    if length == 0 {
      NothingToRemove(slots, uid);
    } else if exists p :: 1 <= p < length && slots[p] == uid {
      var q :| 1 <= q < length && slots[q] == uid;
      FoundIsRemoved(slots, length, uid, q);
    } else {
      NotFound(slots, length, uid);
      assert slots[..length][..length - 1] == slots[..length - 1];
      OutcomeIff(slots[..length], uid, slots[length] == uid);
    }
  }

  lemma NothingToRemove(slots: seq<Uid>, uid: Uid)
    ensures RemovesOne(slots, 0, uid) && Removed(slots, 0, uid) == Removal(-1, slots, 0)
  {
    assert slots[..0] == [];
  }

  lemma OutcomeIff(live: seq<Uid>, uid: Uid, stale: bool)
    requires live != [] && forall p :: 1 <= p < |live| ==> live[p] != uid
    ensures multiset(if stale then live[..|live| - 1] else live) == multiset(live) - multiset{uid} <==>
      (live[0] != uid && !stale) || (|live| == 1 && live[0] == uid && stale)
  {
    assert uid in multiset(live) <==> live[0] == uid;
    var last := live[|live| - 1];
    assert last in multiset(live);
    if stale {
      DropLast(live);
      if last != uid {
        TakingAnother(multiset(live), last, uid);
      }
    } else if live[0] == uid {
      assert (multiset(live) - multiset{uid})[uid] == multiset(live)[uid] - 1;
    } else {
      assert multiset(live) - multiset{uid} == multiset(live);
    }
  }
}
