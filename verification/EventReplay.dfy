/** What a consumer that starts with a replay makes of the stream of
    cardano-chain-sync/src/event_source.rs. */
module EventReplay {
  import opened Ledger
  import opened ChainCache
  import opened EventSource

  // ---- How deep a run of events reaches -----------------------------------

  /** A stack of the given height never falls below `floor` under these events. */
  ghost predicate Deep(height: int, events: seq<TxEvent>, floor: int)
    decreases |events|
  {
    && height >= floor
    && (events != [] ==> Deep(if events[0].TxApplied? then height + 1 else height - 1, events[1..], floor))
  }

  function Height(height: int, events: seq<TxEvent>): int
    decreases |events|
  {
    if events == [] then height
    else Height(if events[0].TxApplied? then height + 1 else height - 1, events[1..])
  }

  /** A consumer that lacks the bottom of the stack gets through exactly when the events never reach it, and then holds
      the rest. */
  lemma {:induction false} NetWithoutBase(base: seq<Item>, stack: seq<Item>, events: seq<TxEvent>)
    requires Net(base + stack, events).Some?
    ensures Net(stack, events).Some? <==> Deep(|base + stack|, events, |base|)
    ensures Net(stack, events).Some? ==> Net(base + stack, events).value == base + Net(stack, events).value
    decreases |events|
  {
    if events != [] {
      match events[0]
      case TxApplied(i) =>
        Associative(base, stack, [i]);
        NetWithoutBase(base, stack + [i], events[1..]);
      case TxUnapplied(i) =>
        if stack != [] {
          assert (base + stack)[..|base + stack| - 1] == base + stack[..|stack| - 1];
          NetWithoutBase(base, stack[..|stack| - 1], events[1..]);
        }
    }
  }

  lemma {:induction false} DeepConcat(height: int, e1: seq<TxEvent>, e2: seq<TxEvent>, floor: int)
    ensures Deep(height, e1 + e2, floor) <==> Deep(height, e1, floor) && Deep(Height(height, e1), e2, floor)
    decreases |e1|
  {
    if e1 == [] {
      assert e1 + e2 == e2;
    } else {
      assert (e1 + e2)[0] == e1[0] && (e1 + e2)[1..] == e1[1..] + e2;
      DeepConcat(if e1[0].TxApplied? then height + 1 else height - 1, e1[1..], e2, floor);
    }
  }

  lemma {:induction false} DeepApplied(height: int, items: seq<Item>, floor: int)
    ensures Deep(height, Applied(items), floor) <==> height >= floor
    ensures Height(height, Applied(items)) == height + |items|
    decreases |items|
  {
    if items != [] {
      assert Applied(items)[1..] == Applied(items[1..]);
      DeepApplied(height + 1, items[1..], floor);
    }
  }

  ghost predicate AllUnapplied(events: seq<TxEvent>) {
    forall k :: 0 <= k < |events| ==> events[k].TxUnapplied?
  }

  lemma {:induction false} DeepUnapplied(height: int, events: seq<TxEvent>, floor: int)
    requires AllUnapplied(events)
    ensures Deep(height, events, floor) <==> height - |events| >= floor
    ensures Height(height, events) == height - |events|
    decreases |events|
  {
    if events != [] { DeepUnapplied(height - 1, events[1..], floor); }
  }

  lemma {:induction false} RollEventsUndo(chain: Chain, point: Point, after: int)
    ensures AllUnapplied(RollEvents(chain, point, after))
    ensures |RollEvents(chain, point, after)| == |Items(chain)| - |Items(RollTo(chain, point, after))|
    decreases |chain|
  {
    if !(chain == [] || PointOf(Last(chain)) == point || Last(chain).slot <= after) {
      RollEventsUndo(Front(chain), point, after);
    }
  }

  lemma DeepStep(chain: Chain, u: Upgrade, after: nat, floor: int)
    requires u.RollForward? ==> !u.replayed
    requires |Items(chain)| >= floor
    ensures Deep(|Items(chain)|, Emit(chain, u, after), floor) <==> |Items(Advance(chain, u, after))| >= floor
    ensures Height(|Items(chain)|, Emit(chain, u, after)) == |Items(Advance(chain, u, after))|
  {
    match u
    case RollForward(b, _) =>
      DeepApplied(|Items(chain)|, ItemsOf(b), floor);
      assert Front(chain + [b]) == chain && Last(chain + [b]) == b;
    case RollBackward(p) =>
      if p.GetSlot() > after {
        RollEventsUndo(chain, p, after);
        DeepUnapplied(|Items(chain)|, RollEvents(chain, p, after), floor);
      }
  }

  // ---- Starting with a replay ---------------------------------------------

  /** Throughout the run the chain holds at least `floor` transactions. */
  ghost predicate StaysAbove(chain: Chain, us: seq<Upgrade>, after: nat, floor: int)
    decreases |us|
  {
    |Items(chain)| >= floor && (us != [] ==> StaysAbove(Advance(chain, us[0], after), us[1..], after, floor))
  }

  lemma {:induction false} DeepRun(chain: Chain, us: seq<Upgrade>, after: nat, floor: int)
    requires WellFormedRun(chain, us, after)
    ensures Deep(|Items(chain)|, RunEvents(chain, us, after), floor) <==> StaysAbove(chain, us, after, floor)
    decreases |us|
  {
    if us != [] && |Items(chain)| >= floor {
      var next := Advance(chain, us[0], after);
      DeepStep(chain, us[0], after, floor);
      DeepConcat(|Items(chain)|, Emit(chain, us[0], after), RunEvents(next, us[1..], after), floor);
      DeepRun(next, us[1..], after, floor);
    }
  }

  /** The stream of a replay from block `k` of the chain followed by a live run. */
  function ReplayStream(chain: Chain, k: nat, us: seq<Upgrade>, after: nat): seq<TxEvent>
    requires k <= |chain|
  {
    Applied(Items(chain[k..])) + RunEvents(chain, us, after)
  }

  lemma ItemsSplit(chain: Chain, k: nat)
    requires k <= |chain|
    ensures Items(chain) == Items(chain[..k]) + Items(chain[k..])
  {
    assert chain == chain[..k] + chain[k..];
    FlatConcat(ItemsOf, chain[..k], chain[k..]);
  }

  lemma NetAfterReplay(items: seq<Item>, events: seq<TxEvent>)
    ensures Net([], Applied(items) + events) == Net(items, events)
  {
    NetApplied([], items);
    NetSplit([], Applied(items), events);
    assert [] + items == items;
  }

  /** A consumer that starts with nothing and is given the chain from block `k` on always finds the undone transaction
      on top if and only if the run never reaches the transactions before block `k`; it then holds exactly the
      transactions of the final chain after those. */
  lemma NetReplay(chain: Chain, k: nat, us: seq<Upgrade>, after: nat)
    requires k <= |chain| && WellFormedRun(chain, us, after)
    ensures var floor, net := |Items(chain[..k])|, Net([], ReplayStream(chain, k, us, after));
      && (net.Some? <==> StaysAbove(chain, us, after, floor))
      && (net.Some? ==> Items(RunChain(chain, us, after)) == Items(chain[..k]) + net.value)
  {
    var base, tail := Items(chain[..k]), Items(chain[k..]);
    ItemsSplit(chain, k);
    NetAfterReplay(tail, RunEvents(chain, us, after));
    NetOfRun(chain, us, after);
    NetWithoutBase(base, tail, RunEvents(chain, us, after));
    DeepRun(chain, us, after, |base|);
  }

  /** Throughout the run the chain starts with `kept`. */
  ghost predicate NeverCuts(chain: Chain, us: seq<Upgrade>, after: nat, kept: Chain)
    decreases |us|
  {
    kept <= chain && (us != [] ==> NeverCuts(Advance(chain, us[0], after), us[1..], after, kept))
  }

  lemma {:induction false} NeverCutsStaysAbove(chain: Chain, us: seq<Upgrade>, after: nat, kept: Chain)
    requires NeverCuts(chain, us, after, kept)
    ensures StaysAbove(chain, us, after, |Items(kept)|) && kept <= RunChain(chain, us, after)
    decreases |us|
  {
    ItemsSplit(chain, |kept|);
    assert chain[..|kept|] == kept;
    if us != [] { NeverCutsStaysAbove(Advance(chain, us[0], after), us[1..], after, kept); }
  }

  lemma SameTail<T>(base: seq<T>, a: seq<T>, b: seq<T>)
    requires base + a == base + b
    ensures a == b
  {
    assert a == (base + a)[|base|..] && b == (base + b)[|base|..];
  }

  /** Where the run never rolls back past the replayed blocks, the consumer ends with the transactions of the final
      chain from block `k` on. */
  lemma NetReplayKept(chain: Chain, k: nat, us: seq<Upgrade>, after: nat)
    requires k <= |chain| && WellFormedRun(chain, us, after) && NeverCuts(chain, us, after, chain[..k])
    ensures k <= |RunChain(chain, us, after)|
    ensures Net([], ReplayStream(chain, k, us, after)) == Some(Items(RunChain(chain, us, after)[k..]))
  {
    var kept, end := chain[..k], RunChain(chain, us, after);
    NetReplay(chain, k, us, after);
    NeverCutsStaysAbove(chain, us, after, kept);
    ItemsSplit(end, k);
    assert end[..k] == kept;
    SameTail(Items(kept), Net([], ReplayStream(chain, k, us, after)).value, Items(end[k..]));
  }
}
