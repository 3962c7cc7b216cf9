/** Whole runs of adds, removals and flushes on a table of devices. */
module TodRuns {
  import opened Base
  import opened Tod

  datatype Event = AddUid(uid: Uid, more: seq<Uid>) | RemoveUid(uid: Uid) | FlushAll

  /** The event is possible: new memory comes in the size asked for, and a search stays inside the buffer. */
  ghost predicate CanStep(s: State, e: Event)
    requires Inv(s)
  {
    match e
    case AddUid(_, more) => |more| == Growth(s)
    case RemoveUid(uid) => SearchFits(s.slots, s.length, uid)
    case FlushAll => true
  }

  ghost function Step(s: State, e: Event): (r: State)
    requires Inv(s) && CanStep(s, e)
    ensures Inv(r)
  {
    match e
    case AddUid(uid, more) => Added(s, uid, more)
    case RemoveUid(uid) => State(Removed(s.slots, s.length, uid).slots, Removed(s.slots, s.length, uid).length)
    case FlushAll => EMPTY
  }

  ghost predicate CanRun(s: State, h: seq<Event>)
    requires Inv(s)
    decreases |h|
  {
    h == [] || (CanStep(s, h[0]) && CanRun(Step(s, h[0]), h[1..]))
  }

  ghost function Run(s: State, h: seq<Event>): (r: State)
    requires Inv(s) && CanRun(s, h)
    ensures Inv(r)
    decreases |h|
  {
    if h == [] then s else Run(Step(s, h[0]), h[1..])
  }

  function Live(s: State): multiset<Uid>
    requires Inv(s)
  {
    multiset(s.slots[..s.length])
  }

  /** What the events should leave of the live UIDs `m`. */
  function Tally(m: multiset<Uid>, e: Event): multiset<Uid> {
    match e
    case AddUid(uid, _) => m + multiset{uid}
    case RemoveUid(uid) => m - multiset{uid}
    case FlushAll => multiset{}
  }

  function Tallied(m: multiset<Uid>, h: seq<Event>): multiset<Uid>
    decreases |h|
  {
    if h == [] then m else Tallied(Tally(m, h[0]), h[1..])
  }

  /** Every event of the run does to the live UIDs what it should. */
  ghost predicate AlwaysTallies(s: State, h: seq<Event>)
    requires Inv(s) && CanRun(s, h)
    decreases |h|
  {
    h == [] || (Live(Step(s, h[0])) == Tally(Live(s), h[0]) && AlwaysTallies(Step(s, h[0]), h[1..]))
  }

  /** Every removal of the run meets the condition under which it is right. */
  ghost predicate AlwaysHarmless(s: State, h: seq<Event>)
    requires Inv(s) && CanRun(s, h)
    decreases |h|
  {
    h == [] ||
    ((h[0].RemoveUid? ==> Harmless(s.slots, s.length, h[0].uid)) && AlwaysHarmless(Step(s, h[0]), h[1..]))
  }

  lemma StepTalliesIff(s: State, e: Event)
    requires Inv(s) && CanStep(s, e)
    ensures Live(Step(s, e)) == Tally(Live(s), e) <==> (e.RemoveUid? ==> Harmless(s.slots, s.length, e.uid))
  {
    hide Removed, Search, Harmless, SearchFits;
    match e
    case AddUid(uid, more) => assert Step(s, e).slots[..s.length + 1] == s.slots[..s.length] + [uid];
    case RemoveUid(uid) => RemovalIff(s.slots, s.length, uid);
    case FlushAll => assert Live(EMPTY) == multiset{};
  }

  /** Over any run of adds, removals and flushes the live UIDs are right throughout exactly if every removal is
      harmless. */
  lemma {:induction false} TalliesIffHarmless(s: State, h: seq<Event>)
    requires Inv(s) && CanRun(s, h)
    ensures AlwaysTallies(s, h) <==> AlwaysHarmless(s, h)
    decreases |h|
  {
    hide Harmless, Live, Tally, Step;
    if h != [] {
      StepTalliesIff(s, h[0]);
      TalliesIffHarmless(Step(s, h[0]), h[1..]);
    }
  }

  /** ... and then they are, at the end, what the events tally up to. */
  lemma {:induction false} HarmlessRunTallies(s: State, h: seq<Event>)
    requires Inv(s) && CanRun(s, h) && AlwaysHarmless(s, h)
    ensures Live(Run(s, h)) == Tallied(Live(s), h)
    decreases |h|
  {
    hide Harmless, Live, Tally, Step;
    if h != [] {
      StepTalliesIff(s, h[0]);
      HarmlessRunTallies(Step(s, h[0]), h[1..]);
    }
  }

  /** Every removal of the run names a UID in a live slot other than the first. */
  ghost predicate NamesLive(s: State, h: seq<Event>)
    requires Inv(s)
    decreases |h|
  {
    h == [] ||
    (&& (h[0].AddUid? ==> |h[0].more| == Growth(s))
     && (h[0].RemoveUid? ==> exists p :: 1 <= p < s.length && s.slots[p] == h[0].uid)
     && NamesLive(Step(s, h[0]), h[1..]))
  }

  /** Such a run never searches past the buffer, and what it leaves is exactly the adds less the removals. */
  lemma {:induction false} RemovingLiveUids(s: State, h: seq<Event>)
    requires Inv(s) && NamesLive(s, h)
    ensures CanRun(s, h) && Live(Run(s, h)) == Tallied(Live(s), h)
    decreases |h|
  {
    hide Step, Live, Tally;
    if h != [] {
      StepTalliesIff(s, h[0]);
      RemovingLiveUids(Step(s, h[0]), h[1..]);
    }
  }

  lemma {:induction false} RunConcat(s: State, h1: seq<Event>, h2: seq<Event>)
    requires Inv(s) && CanRun(s, h1) && CanRun(Run(s, h1), h2)
    ensures CanRun(s, h1 + h2) && Run(s, h1 + h2) == Run(Run(s, h1), h2)
    decreases |h1|
  {
    hide Step, CanStep;
    if h1 == [] {
      assert h1 + h2 == h2;
    } else {
      RunConcat(Step(s, h1[0]), h1[1..], h2);
      assert (h1 + h2)[0] == h1[0] && (h1 + h2)[1..] == h1[1..] + h2;
    }
  }

  lemma RunOne(s: State, e: Event)
    requires Inv(s) && CanStep(s, e)
    ensures CanRun(s, [e]) && Run(s, [e]) == Step(s, e)
  {
    assert [e][1..] == [];
  }

  lemma RunTwo(s: State, e1: Event, e2: Event)
    requires Inv(s) && CanStep(s, e1) && CanStep(Step(s, e1), e2)
    ensures CanRun(s, [e1, e2]) && Run(s, [e1, e2]) == Step(Step(s, e1), e2)
  {
    hide Step, CanStep;
    RunOne(Step(s, e1), e2);
    assert [e1, e2][1..] == [e2];
  }

  lemma RemovedAt(s: State, uid: Uid, p: nat)
    requires Inv(s) && 1 <= p <= s.length && p < |s.slots| && s.slots[p] == uid
    requires forall q :: 1 <= q < p ==> s.slots[q] != uid
    ensures SearchFits(s.slots, s.length, uid)
    ensures Step(s, RemoveUid(uid)) == State(s.slots[p := s.slots[s.length - 1]], s.length - 1)
  {
    hide Search;
    assert SearchFits(s.slots, s.length, uid);
    assert Search(s.slots, s.length, uid) == p;
  }

  /** Removing the last of the live UIDs twice: the second call finds the stale copy the first one left, and drops the
      UID before it as well. */
  lemma RemovingLastTwice(s: State)
    requires Inv(s) && s.length >= 2
    requires var last := s.slots[s.length - 1]; forall p :: 0 <= p < s.length - 1 ==> s.slots[p] != last
    ensures var last := s.slots[s.length - 1];
      var h := [RemoveUid(last), RemoveUid(last)];
      && CanRun(s, h)
      && Run(s, h).length == s.length - 2 && Run(s, h).slots[..s.length - 2] == s.slots[..s.length - 2]
      && Tallied(Live(s), h) == multiset(s.slots[..s.length - 1])
  {
    hide Step, Search, Removed;
    var n, last := s.length, s.slots[s.length - 1];
    var e := RemoveUid(last);
    RemovedAt(s, last, n - 1);
    assert s.slots[n - 1 := last] == s.slots;
    var t := State(s.slots, n - 1);
    RemovedAt(t, last, n - 1);
    RunTwo(s, e, e);
    TallyOfTwo(s.slots[..n - 1], last);
    assert s.slots[..n] == s.slots[..n - 1] + [last];
  }

  lemma TallyOfTwo(live: seq<Uid>, last: Uid)
    requires last !in live
    ensures Tallied(multiset(live + [last]), [RemoveUid(last), RemoveUid(last)]) == multiset(live)
  {
    var e, m := RemoveUid(last), multiset(live + [last]);
    assert [e, e][1..] == [e] && [e][1..] == [];
    assert m - multiset{last} == multiset(live);
    assert multiset(live) - multiset{last} == multiset(live);
    assert Tallied(multiset(live), [e]) == Tallied(multiset(live), []);
  }

  /** Three adds to a new table reach a state where that happens: of a, b and c only a is left. */
  lemma DoubleRemovalReached(a: Uid, b: Uid, c: Uid, more: seq<Uid>)
    requires |more| == INITIAL_SIZE && a != b && b != c && a != c
    ensures var h := [AddUid(a, more), AddUid(b, [])] + ([AddUid(c, [])] + [RemoveUid(c), RemoveUid(c)]);
      CanRun(EMPTY, h) && Run(EMPTY, h).slots[..Run(EMPTY, h).length] == [a]
  {
    hide Step;
    var ab, removals := [AddUid(a, more), AddUid(b, [])], [RemoveUid(c), RemoveUid(c)];
    var s := ThreeAdds(a, b, c, more);
    RunTwo(EMPTY, AddUid(a, more), AddUid(b, []));
    RunOne(Run(EMPTY, ab), AddUid(c, []));
    RemovingLastTwice(s);
    RunConcat(Run(EMPTY, ab), [AddUid(c, [])], removals);
    RunConcat(EMPTY, ab, [AddUid(c, [])] + removals);
    assert s.slots[..1] == [a];
  }

  lemma ThreeAdds(a: Uid, b: Uid, c: Uid, more: seq<Uid>) returns (s: State)
    requires |more| == INITIAL_SIZE
    ensures Inv(s) && s.length == 3 && s.slots[0] == a && s.slots[1] == b && s.slots[2] == c
    ensures CanStep(EMPTY, AddUid(a, more)) && CanStep(Step(EMPTY, AddUid(a, more)), AddUid(b, []))
    ensures var two := Step(Step(EMPTY, AddUid(a, more)), AddUid(b, []));
      CanStep(two, AddUid(c, [])) && Step(two, AddUid(c, [])) == s
  {
    s := Step(Step(Step(EMPTY, AddUid(a, more)), AddUid(b, [])), AddUid(c, []));
  }
}
