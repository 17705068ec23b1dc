/** The UTxO monitor fed by the event source, and model of
    cardano-utxo-monitor/src/rollback.rs: cache and index are moved back together. */
module RestartRollback {
  import opened Ledger
  import opened ChainCache
  import opened EventSource
  import opened UtxoIndex

  // ---- The history of a chain ---------------------------------------------

  function SettledOf(b: Block): (r: seq<Settled>)
    ensures |r| == |ValidTxs(b)|
  {
    var txs := ValidTxs(b);
    seq(|txs|, k requires 0 <= k < |txs| => (txs[k], b.slot))
  }

  function History(chain: Chain): seq<Settled> {
    Flat(SettledOf, chain)
  }

  /** The table that the transactions of a chain leave behind. */
  function TableOf(chain: Chain): Table {
    ApplyAll(map[], History(chain))
  }

  lemma {:induction false} HistoryPrefix(chain: Chain, shorter: Chain)
    requires LedgerHistory(History(chain)) && shorter <= chain
    ensures LedgerHistory(History(shorter))
    decreases |chain|
  {
    if |shorter| < |chain| {
      var older := History(Front(chain));
      assert forall i :: 0 <= i < |older| ==> older[i] == History(chain)[i];
      HistoryPrefix(Front(chain), shorter);
    } else {
      assert shorter == chain;
    }
  }

  // ---- Events at the index ------------------------------------------------

  /** How the handler of the index takes an event. */
  function UpdateOf(e: TxEvent): Update {
    match e
    case TxApplied(i) => LedgerApplied(i.tx, i.slot)
    case TxUnapplied(i) => LedgerUnapplied(i.tx)
  }

  function Updates(events: seq<TxEvent>): (us: seq<Update>)
    ensures |us| == |events|
  {
    seq(|events|, k requires 0 <= k < |events| => UpdateOf(events[k]))
  }

  function HandleEvents(t: Table, events: seq<TxEvent>): Table {
    HandleAll(t, Updates(events))
  }

  lemma HandlePush(t: Table, events: seq<TxEvent>, e: TxEvent)
    ensures HandleEvents(t, events + [e]) == Handle(HandleEvents(t, events), UpdateOf(e))
  {
    assert Updates(events + [e])[..|events|] == Updates(events);
  }

  lemma HandleConcat(t: Table, e1: seq<TxEvent>, e2: seq<TxEvent>)
    ensures HandleEvents(t, e1 + e2) == HandleEvents(HandleEvents(t, e1), e2)
  {
    assert Updates(e1 + e2) == Updates(e1) + Updates(e2);
    HandleAllConcat(t, Updates(e1), Updates(e2));
  }

  lemma PrefixOfConcat(older: seq<Settled>, more: seq<Settled>, k: nat)
    requires 1 <= k <= |more|
    ensures (older + more)[..|older| + k] == older + more[..k]
    ensures (older + more[..k])[..|older| + k - 1] == older + more[..k - 1]
    ensures (older + more[..k])[|older| + k - 1] == more[k - 1]
  {
  }

  lemma UndoOne(older: seq<Settled>, more: seq<Settled>, k: nat)
    requires LedgerHistory(older + more) && 1 <= k <= |more|
    ensures UnapplyTx(ApplyAll(map[], older + more[..k]), more[k - 1].0) == ApplyAll(map[], older + more[..k - 1])
  {
    PrefixOfConcat(older, more, k);
    UndoEnd(older + more, older + more[..k], older + more[..k - 1], more[k - 1].0);
  }

  lemma UndoEnd(whole: seq<Settled>, all: seq<Settled>, front: seq<Settled>, tx: Tx)
    requires LedgerHistory(whole) && all <= whole && all != []
    requires front == all[..|all| - 1] && tx == all[|all| - 1].0
    ensures UnapplyTx(ApplyAll(map[], all), tx) == ApplyAll(map[], front)
  {
    LedgerPrefix(whole, |all|);
    UndoLatest(all);
  }

  /** Items of events and the settled transactions they stand for. */
  ghost predicate Match(items: seq<Item>, more: seq<Settled>) {
    |items| == |more| && forall k :: 0 <= k < |items| ==> more[k] == (items[k].tx, items[k].slot)
  }

  lemma BlockMatches(b: Block)
    ensures Match(ItemsOf(b), SettledOf(b))
  {
  }

  lemma HandleAppliedPush(older: seq<Settled>, items: seq<Item>, more: seq<Settled>, item: Item)
    requires HandleEvents(ApplyAll(map[], older), Applied(items)) == ApplyAll(map[], older + more)
    ensures HandleEvents(ApplyAll(map[], older), Applied(items + [item]))
         == ApplyAll(map[], older + (more + [(item.tx, item.slot)]))
  {
    assert Applied(items + [item]) == Applied(items) + [TxApplied(item)];
    HandlePush(ApplyAll(map[], older), Applied(items), TxApplied(item));
    assert older + (more + [(item.tx, item.slot)]) == (older + more) + [(item.tx, item.slot)];
    ApplyAllPush(map[], older + more, (item.tx, item.slot));
  }

  lemma {:induction false} HandleApplied(older: seq<Settled>, items: seq<Item>, more: seq<Settled>)
    requires Match(items, more)
    ensures HandleEvents(ApplyAll(map[], older), Applied(items)) == ApplyAll(map[], older + more)
    decreases |items|
  {
    if items == [] {
      assert older + more == older;
    } else {
      var n := |items| - 1;
      var front, before := items[..n], more[..n];
      HandleApplied(older, front, before);
      HandleAppliedPush(older, front, before, items[n]);
      assert items == front + [items[n]] && more == before + [more[n]];
    }
  }

  lemma HandleUnappliedFirst(t: Table, items: seq<Item>, item: Item)
    ensures HandleEvents(t, Unapplied(items + [item])) == HandleEvents(UnapplyTx(t, item.tx), Unapplied(items))
  {
    var first := [TxUnapplied(item)];
    assert Unapplied(items + [item]) == first + Unapplied(items);
    HandleConcat(t, first, Unapplied(items));
    HandlePush(t, [], TxUnapplied(item));
    assert [] + first == first;
  }

  lemma {:induction false} HandleUnapplied(older: seq<Settled>, items: seq<Item>, more: seq<Settled>)
    requires LedgerHistory(older + more) && Match(items, more)
    ensures HandleEvents(ApplyAll(map[], older + more), Unapplied(items)) == ApplyAll(map[], older)
    decreases |items|
  {
    if items == [] {
      assert older + more == older;
    } else {
      var n := |items| - 1;
      var front, before := items[..n], more[..n];
      assert items == front + [items[n]] && (older + more)[..|older| + n] == older + before;
      HandleUnappliedFirst(ApplyAll(map[], older + more), front, items[n]);
      UndoEnd(older + more, older + more, older + before, items[n].tx);
      LedgerPrefix(older + more, |older| + n);
      HandleUnapplied(older, front, before);
    }
  }

  lemma {:induction false} HandleRollback(chain: Chain, point: Point, after: int)
    requires LedgerHistory(History(chain))
    ensures HandleEvents(TableOf(chain), RollEvents(chain, point, after)) == TableOf(RollTo(chain, point, after))
    decreases |chain|
  {
    if !(chain == [] || PointOf(Last(chain)) == point || Last(chain).slot <= after) {
      var b, older := Last(chain), Front(chain);
      BlockMatches(b);
      HandleUnapplied(History(older), ItemsOf(b), SettledOf(b));
      HandleConcat(TableOf(chain), Unapplied(ItemsOf(b)), RollEvents(older, point, after));
      HistoryPrefix(chain, older);
      HandleRollback(older, point, after);
    }
  }

  lemma HandleForward(chain: Chain, b: Block)
    ensures HandleEvents(TableOf(chain), Applied(ItemsOf(b))) == TableOf(chain + [b])
  {
    BlockMatches(b);
    HandleApplied(History(chain), ItemsOf(b), SettledOf(b));
    FlatPush(SettledOf, chain, b);
  }

  /** The events of one chain upgrade take the table of the old chain to that of the new one. */
  lemma HandleUpgrade(chain: Chain, u: Upgrade, after: nat)
    requires LedgerHistory(History(chain)) && (u.RollForward? ==> !u.replayed)
    ensures HandleEvents(TableOf(chain), Emit(chain, u, after)) == TableOf(Advance(chain, u, after))
  {
    match u
    case RollForward(b, _) => HandleForward(chain, b);
    case RollBackward(p) => if p.GetSlot() > after { HandleRollback(chain, p, after); }
  }

  // ---- The monitor --------------------------------------------------------

  /** Cache and index describe the same chain. */
  ghost predicate InStep(cache: LedgerCache, index: Index, chain: Chain, after: int)
    reads cache, index
  {
    && Represents(cache.tip, cache.blocks, chain, after)
    && index.Valid() && index.txo == TableOf(chain)
  }

  /** One chain upgrade through event source and handler. */
  method MonitorUpgrade(cache: LedgerCache, index: Index, u: Upgrade, after: nat, ghost chain: Chain)
    requires InStep(cache, index, chain, after) && LedgerHistory(History(chain))
    requires u.RollForward? ==> !u.replayed && Extends(chain, u.blk)
    modifies cache, index
    ensures InStep(cache, index, Advance(chain, u, after), after)
  {
    var events := ProcessUpstreamByTxs(cache, u, after, chain);
    HandleUpgrade(chain, u, after);
    RunHandler(index, Updates(events));
  }

  /** Live blocks with increasing slots, on chains whose transactions form a ledger. */
  ghost predicate LedgerRun(chain: Chain, us: seq<Upgrade>, after: nat)
    decreases |us|
  {
    && LedgerHistory(History(chain))
    && (us != [] ==>
          && (us[0].RollForward? ==> !us[0].replayed && Extends(chain, us[0].blk))
          && LedgerRun(Advance(chain, us[0], after), us[1..], after))
  }

  /** After every run of upgrades, cache and index describe the chain the run arrived at. */
  method MonitorRun(cache: LedgerCache, index: Index, us: seq<Upgrade>, after: nat, ghost chain: Chain)
    requires InStep(cache, index, chain, after) && LedgerRun(chain, us, after)
    modifies cache, index
    ensures InStep(cache, index, RunChain(chain, us, after), after)
    ensures LedgerHistory(History(RunChain(chain, us, after)))
  {
    ghost var now := chain;
    for k := 0 to |us|
      invariant InStep(cache, index, now, after) && LedgerRun(now, us[k..], after)
      invariant RunChain(chain, us, after) == RunChain(now, us[k..], after)
    {
      assert us[k..][0] == us[k] && us[k..][1..] == us[k + 1..];
      MonitorUpgrade(cache, index, us[k], after, now);
      now := Advance(now, us[k], after);
    }
    assert us[|us|..] == [];
  }

  /** The same from an empty cache and an empty index. */
  method MonitorFromScratch(us: seq<Upgrade>, after: nat) returns (cache: LedgerCache, index: Index)
    requires LedgerRun([], us, after)
    ensures fresh(cache) && fresh(index)
    ensures InStep(cache, index, RunChain([], us, after), after)
    ensures LedgerHistory(History(RunChain([], us, after)))
  {
    cache := new LedgerCache();
    index := new Index();
    MonitorRun(cache, index, us, after, []);
  }

  // ---- Restart ------------------------------------------------------------

  datatype RollbackResult = Ok(point: Point) | MissingBlock(point: Point) | Undecodable(point: Point)

  /** The slot `y` before `x`, or the origin where there is none. */
  function SaturatingSub(x: nat, y: nat): (r: nat)
    ensures r + y == x || (r == 0 && x < y)
  {
    if y <= x then x - y else 0
  }

  method UnapplyBlock(index: Index, b: Block, ghost older: seq<Settled>)
    requires index.Valid() && index.txo == ApplyAll(map[], older + SettledOf(b))
    requires LedgerHistory(older + SettledOf(b))
    modifies index
    ensures index.Valid() && index.txo == ApplyAll(map[], older)
  {
    var txs := ValidTxs(b);
    var k := |txs|;
    assert SettledOf(b)[..k] == SettledOf(b);
    while k > 0
      invariant 0 <= k <= |txs| && index.Valid()
      invariant index.txo == ApplyAll(map[], older + SettledOf(b)[..k])
    {
      UndoOne(older, SettledOf(b), k);
      k := k - 1;
      index.Unapply(txs[k]);
    }
    assert older + SettledOf(b)[..0] == older;
  }

  /** The cached blocks and the index describe `rest`, whose newest point is `at`. */
  ghost predicate RolledTo(cache: LedgerCache, index: Index, at: Point, rest: Chain, after: int)
    reads cache, index
  {
    && Represents(Some(at), cache.blocks, rest, after)
    && index.Valid() && index.txo == TableOf(rest) && LedgerHistory(History(rest))
  }

  lemma NewestHistory(blocks: map<Point, LinkedBlock>, at: Point, rest: Chain, after: int)
    requires Represents(Some(at), blocks, rest, after) && LedgerHistory(History(rest)) && at in blocks
    ensures rest != [] && History(rest) == History(Front(rest)) + SettledOf(blocks[at].block)
    ensures LedgerHistory(History(Front(rest)))
    ensures Represents(Some(blocks[at].prev), blocks - {at}, Front(rest), after)
  {
    NewestBlock(Some(at), blocks, rest, after);
    HistoryPrefix(rest, Front(rest));
  }

  /** One round: the newest block leaves the index, then the cache. */
  method UndoNewest(index: Index, cache: LedgerCache, at: Point, linked: LinkedBlock, ghost rest: Chain,
                    ghost after: int)
    requires RolledTo(cache, index, at, rest, after) && at in cache.blocks && linked == cache.blocks[at]
    modifies cache, index
    ensures rest != [] && RolledTo(cache, index, linked.prev, Front(rest), after)
    ensures cache.tip == old(cache.tip)
  {
    NewestHistory(cache.blocks, at, rest, after);
    UnapplyBlock(index, linked.block, History(Front(rest)));
    cache.Delete(at);
  }

  /** Everything cut off `chain` to leave `rest` lies past `slot`. */
  ghost predicate CutPast(chain: Chain, rest: Chain, slot: int) {
    rest <= chain && forall k :: |rest| <= k < |chain| ==> chain[k].slot > slot
  }

  lemma CutOne(chain: Chain, rest: Chain, slot: int)
    requires CutPast(chain, rest, slot) && rest != [] && Last(rest).slot > slot
    ensures CutPast(chain, Front(rest), slot)
  {
    assert chain[|rest| - 1] == Last(rest);
  }

  /** A stored block past the target slot that cannot be decoded. */
  ghost predicate Blocked(chain: Chain, k: nat, target: Slot, after: int, undecodable: set<Point>) {
    k < |chain| && chain[k].slot > target && chain[k].slot > after && PointOf(chain[k]) in undecodable
  }

  /** A block past the target slot that was never stored. */
  ghost predicate Unstored(chain: Chain, k: nat, target: Slot, after: int) {
    k < |chain| && target < chain[k].slot <= after
  }

  ghost predicate AnyBlocked(chain: Chain, target: Slot, after: int, undecodable: set<Point>) {
    exists k :: Blocked(chain, k, target, after, undecodable)
  }

  ghost predicate AnyUnstored(chain: Chain, target: Slot, after: int) {
    exists k :: Unstored(chain, k, target, after)
  }

  /** How far the walk has come: nothing cut off `chain` to leave `rest` was undecodable. */
  ghost predicate Walked(chain: Chain, rest: Chain, undecodable: set<Point>) {
    rest <= chain && forall k :: |rest| <= k < |chain| ==> PointOf(chain[k]) !in undecodable
  }

  lemma WalkOne(chain: Chain, rest: Chain, undecodable: set<Point>)
    requires Walked(chain, rest, undecodable) && rest != [] && PointOf(Last(rest)) !in undecodable
    ensures Walked(chain, Front(rest), undecodable)
  {
    assert chain[|rest| - 1] == Last(rest);
  }

  lemma ReachedBlocked(chain: Chain, rest: Chain, target: Slot, after: int, undecodable: set<Point>)
    requires Increasing(chain) && Walked(chain, rest, undecodable) && rest != []
    requires Last(rest).slot > target && Last(rest).slot > after && PointOf(Last(rest)) in undecodable
    ensures AnyBlocked(chain, target, after, undecodable)
    ensures rest == chain <==> PointOf(Last(chain)) in undecodable
  {
    var k := |rest| - 1;
    assert chain[k] == Last(rest);
    assert Blocked(chain, k, target, after, undecodable);
    if rest != chain { assert chain[|chain| - 1] == Last(chain); }
  }

  lemma NothingBlocked(chain: Chain, rest: Chain, target: Slot, after: int, undecodable: set<Point>)
    requires Increasing(chain) && Walked(chain, rest, undecodable)
    requires rest == [] || Last(rest).slot <= target || Last(rest).slot <= after
    ensures !AnyBlocked(chain, target, after, undecodable)
  {
    forall k: nat ensures !Blocked(chain, k, target, after, undecodable) {
      if k < |rest| { assert chain[|rest| - 1] == Last(rest); }
    }
  }

  lemma StoppedAtUnstored(chain: Chain, rest: Chain, target: Slot, after: int)
    requires Increasing(chain) && rest <= chain && rest != [] && target < Last(rest).slot <= after
    ensures AnyUnstored(chain, target, after)
  {
    assert chain[|rest| - 1] == Last(rest);
    assert Unstored(chain, |rest| - 1, target, after);
  }

  lemma NothingUnstored(chain: Chain, rest: Chain, target: Slot, after: int)
    requires Increasing(chain) && rest <= chain && (rest == [] || Last(rest).slot <= target)
    requires forall k :: |rest| <= k < |chain| ==> chain[k].slot > after
    ensures !AnyUnstored(chain, target, after)
  {
    forall k: nat ensures !Unstored(chain, k, target, after) {
      if k < |rest| { assert chain[|rest| - 1] == Last(rest); }
    }
  }

  /** A tip that lies past the threshold and is not stored is the end of no chain. */
  lemma LostTip(blocks: map<Point, LinkedBlock>, b: Block, after: int, other: Chain)
    requires b.slot > after && PointOf(b) !in blocks
    ensures !Represents(Some(PointOf(b)), blocks, other, after)
  {
    if Represents(Some(PointOf(b)), blocks, other, after) { NewestBlock(Some(PointOf(b)), blocks, other, after); }
  }

  /** Where the walk stands: table and cached blocks describe `rest`, whose newest point is `at`, and all that was
      cut lay past the target, was stored and could be decoded. */
  ghost predicate Walking(blocks: map<Point, LinkedBlock>, txo: Table, at: Point, rest: Chain, chain: Chain,
                          target: Slot,
                          after: int, undecodable: set<Point>)
  {
    && Increasing(chain) && Represents(Some(at), blocks, rest, after)
    && txo == TableOf(rest)
    && CutPast(chain, rest, target) && CutPast(chain, rest, after) && Walked(chain, rest, undecodable)
    && (rest != chain ==> PointOf(Last(chain)) !in blocks)
  }

  lemma WalkStarts(blocks: map<Point, LinkedBlock>, txo: Table, current: Point, chain: Chain, target: Slot, after: int,
                   undecodable: set<Point>)
    requires Represents(Some(current), blocks, chain, after) && txo == TableOf(chain)
    ensures Walking(blocks, txo, current, chain, chain, target, after, undecodable) && current == TipPoint(chain)
  {
  }

  /** One round of the walk. */
  method StepBack(index: Index, cache: LedgerCache, at: Point, linked: LinkedBlock, ghost rest: Chain,
                  ghost chain: Chain,
                  ghost target: Slot, ghost after: int, ghost undecodable: set<Point>)
    requires index.Valid() && Walking(cache.blocks, index.txo, at, rest, chain, target, after, undecodable)
    requires at.GetSlot() > target && at in cache.blocks && linked == cache.blocks[at] && at !in undecodable
    requires LedgerHistory(History(chain))
    modifies cache, index
    ensures rest != [] && cache.tip == old(cache.tip)
    ensures index.Valid()
    ensures Walking(cache.blocks, index.txo, linked.prev, Front(rest), chain, target, after, undecodable)
  {
    NewestBlock(Some(at), cache.blocks, rest, after);
    HistoryPrefix(chain, rest);
    CutOne(chain, rest, target);
    CutOne(chain, rest, after);
    WalkOne(chain, rest, undecodable);
    UndoNewest(index, cache, at, linked, rest, after);
  }

  /** The walk meets a block that is not stored. */
  lemma ExitMissing(blocks: map<Point, LinkedBlock>, txo: Table, at: Point, rest: Chain, chain: Chain, target: Slot,
                    after: int,
                    undecodable: set<Point>)
    requires Walking(blocks, txo, at, rest, chain, target, after, undecodable)
    requires at.GetSlot() > target && at !in blocks
    ensures at == TipPoint(rest) && rest != [] && Last(rest).slot <= after
    ensures !AnyBlocked(chain, target, after, undecodable) && AnyUnstored(chain, target, after)
  {
    NewestBlock(Some(at), blocks, rest, after);
    NothingBlocked(chain, rest, target, after, undecodable);
    StoppedAtUnstored(chain, rest, target, after);
  }

  /** The walk meets a block that cannot be decoded. */
  lemma ExitUndecodable(blocks: map<Point, LinkedBlock>, txo: Table, at: Point, rest: Chain, chain: Chain, target: Slot,
                        after: int, undecodable: set<Point>)
    requires Walking(blocks, txo, at, rest, chain, target, after, undecodable)
    requires at.GetSlot() > target && at in blocks && at in undecodable
    ensures at == TipPoint(rest) && chain != [] && AnyBlocked(chain, target, after, undecodable)
    ensures rest == chain <==> PointOf(Last(chain)) in undecodable
    ensures rest == chain ==> Represents(Some(TipPoint(chain)), blocks, rest, after)
    ensures rest != chain ==> forall other :: !Represents(Some(TipPoint(chain)), blocks, other, after)
  {
    NewestBlock(Some(at), blocks, rest, after);
    ReachedBlocked(chain, rest, target, after, undecodable);
    if rest != chain {
      assert chain[|chain| - 1] == Last(chain);
      forall other ensures !Represents(Some(TipPoint(chain)), blocks, other, after) {
        LostTip(blocks, Last(chain), after, other);
      }
    }
  }

  /** The walk arrives at the target. */
  lemma ExitDone(blocks: map<Point, LinkedBlock>, txo: Table, at: Point, rest: Chain, chain: Chain, target: Slot,
                 after: int,
                 undecodable: set<Point>)
    requires Walking(blocks, txo, at, rest, chain, target, after, undecodable) && at.GetSlot() <= target
    ensures at == TipPoint(rest)
    ensures !AnyBlocked(chain, target, after, undecodable) && !AnyUnstored(chain, target, after)
  {
    NothingBlocked(chain, rest, target, after, undecodable);
    NothingUnstored(chain, rest, target, after);
  }

  datatype Exit = Arrived | NotStored | NotDecoded

  /** The loop of `rollback_blocks`, up to where it is left. */
  method WalkBack(index: Index, cache: LedgerCache, current: Point, targetSlot: Slot, undecodable: set<Point>,
                  ghost chain: Chain, ghost after: int)
      returns (exit: Exit, at: Point, rolledBackAny: bool, ghost rest: Chain)
    requires index.Valid() && Walking(cache.blocks, index.txo, current, chain, chain, targetSlot, after, undecodable)
    requires LedgerHistory(History(chain))
    modifies cache, index
    ensures index.Valid() && Walking(cache.blocks, index.txo, at, rest, chain, targetSlot, after, undecodable)
    ensures cache.tip == old(cache.tip)
    ensures (rolledBackAny <==> rest != chain) && (!rolledBackAny ==> at == current)
    ensures exit.Arrived? <==> at.GetSlot() <= targetSlot
    ensures exit.NotStored? ==> at !in cache.blocks
    ensures exit.NotDecoded? ==> at in cache.blocks && at in undecodable
  {
    at, rolledBackAny, rest := current, false, chain;
    while at.GetSlot() > targetSlot
      invariant index.Valid() && Walking(cache.blocks, index.txo, at, rest, chain, targetSlot, after, undecodable)
      invariant cache.tip == old(cache.tip)
      invariant (rolledBackAny <==> rest != chain) && (!rolledBackAny ==> at == current)
      decreases |rest|
    {
      var linked := cache.GetBlock(at);
      if linked.None? { exit := NotStored; return; }
      if at in undecodable { exit := NotDecoded; return; }
      StepBack(index, cache, at, linked.value, rest, chain, targetSlot, after, undecodable);
      rolledBackAny := true;
      at := linked.value.prev;
      rest := Front(rest);
    }
    exit := Arrived;
  }

  /** Some chain is described by both cache and index. */
  ghost predicate Agree(cache: LedgerCache, index: Index, after: int)
    reads cache, index
  {
    exists other :: InStep(cache, index, other, after)
  }

  /** What a rollback leaves, `rest` being the part of the chain that index and cached blocks describe. It fails on
      decoding exactly if a stored block past the target is undecodable, and on a missing block exactly if none is and
      some block past the target was never stored. */
  ghost predicate Outcome(cache: LedgerCache, index: Index, r: RollbackResult, rest: Chain, chain: Chain, target: Slot,
                          after: int, undecodable: set<Point>)
    reads cache, index
  {
    && CutPast(chain, rest, target) && r.point == TipPoint(rest)
    && (r.Undecodable? <==> AnyBlocked(chain, target, after, undecodable))
    && (r.MissingBlock? <==> !AnyBlocked(chain, target, after, undecodable) && AnyUnstored(chain, target, after))
    && match r
       case Ok(p) => InStep(cache, index, rest, after) && cache.tip == Some(p) && p.GetSlot() <= target
       case MissingBlock(p) =>
         InStep(cache, index, rest, after) && cache.tip == Some(p) && rest != [] && Last(rest).slot <= after
       case Undecodable(p) => p in undecodable && chain != [] && Torn(cache, index, p, rest, chain, after, undecodable)
  }

  /** Stopped at an undecodable block: index and cached blocks describe `rest`, while the tip is still that of `chain`.
      They describe a common chain exactly if the newest block is the undecodable one. */
  ghost predicate Torn(cache: LedgerCache, index: Index, at: Point, rest: Chain, chain: Chain, after: int,
                       undecodable: set<Point>)
    requires chain != []
    reads cache, index
  {
    && RolledTo(cache, index, at, rest, after) && cache.tip == Some(TipPoint(chain))
    && (rest == chain <==> PointOf(Last(chain)) in undecodable)
    && (InStep(cache, index, rest, after) <==> PointOf(Last(chain)) in undecodable)
    && (Agree(cache, index, after) <==> PointOf(Last(chain)) in undecodable)
  }

  /** Leaving the walk at a block that is not stored. */
  method LeaveMissing(cache: LedgerCache, index: Index, at: Point, rolledBackAny: bool, ghost rest: Chain,
                      ghost chain: Chain, ghost target: Slot, ghost after: int, ghost undecodable: set<Point>)
      returns (r: RollbackResult)
    requires index.Valid() && Walking(cache.blocks, index.txo, at, rest, chain, target, after, undecodable)
    requires at.GetSlot() > target && at !in cache.blocks && (!rolledBackAny ==> cache.tip == Some(at))
    modifies cache
    ensures Outcome(cache, index, r, rest, chain, target, after, undecodable)
  {
    if rolledBackAny {
      cache.SetTip(at);
    }
    r := MissingBlock(at);
    ExitMissing(cache.blocks, index.txo, at, rest, chain, target, after, undecodable);
  }

  lemma TipDecides(cache: LedgerCache, index: Index, at: Point, rest: Chain, chain: Chain, after: int,
                   undecodable: set<Point>)
    requires chain != [] && RolledTo(cache, index, at, rest, after) && cache.tip == Some(TipPoint(chain))
    requires rest == chain <==> PointOf(Last(chain)) in undecodable
    requires rest == chain ==> Represents(cache.tip, cache.blocks, rest, after)
    requires rest != chain ==> forall other :: !Represents(cache.tip, cache.blocks, other, after)
    ensures Torn(cache, index, at, rest, chain, after, undecodable)
  {
    if rest == chain { assert InStep(cache, index, rest, after); }
  }

  lemma EndsTorn(cache: LedgerCache, index: Index, at: Point, rest: Chain, chain: Chain, target: Slot, after: int,
                 undecodable: set<Point>)
    requires index.Valid() && Walking(cache.blocks, index.txo, at, rest, chain, target, after, undecodable)
    requires at.GetSlot() > target && at in cache.blocks && at in undecodable && cache.tip == Some(TipPoint(chain))
    requires LedgerHistory(History(chain))
    ensures Outcome(cache, index, Undecodable(at), rest, chain, target, after, undecodable)
  {
    ExitUndecodable(cache.blocks, index.txo, at, rest, chain, target, after, undecodable);
    HistoryPrefix(chain, rest);
    TipDecides(cache, index, at, rest, chain, after, undecodable);
  }

  /** Leaving the walk at the target. */
  method LeaveDone(cache: LedgerCache, index: Index, at: Point, ghost rest: Chain, ghost chain: Chain,
                   ghost target: Slot, ghost after: int, ghost undecodable: set<Point>)
      returns (r: RollbackResult)
    requires index.Valid() && Walking(cache.blocks, index.txo, at, rest, chain, target, after, undecodable)
    requires at.GetSlot() <= target
    modifies cache
    ensures Outcome(cache, index, r, rest, chain, target, after, undecodable)
  {
    cache.SetTip(at);
    r := Ok(at);
    ExitDone(cache.blocks, index.txo, at, rest, chain, target, after, undecodable);
  }

  /** `rollback_blocks`. Bytes stored under a point in `undecodable` are not a block. */
  method RollbackBlocks(index: Index, cache: LedgerCache, current: Point, rollbackSlots: nat, undecodable: set<Point>,
                        ghost chain: Chain, ghost after: int)
      returns (r: RollbackResult, ghost rest: Chain)
    requires InStep(cache, index, chain, after) && LedgerHistory(History(chain)) && cache.tip == Some(current)
    modifies cache, index
    ensures current == TipPoint(chain)
    ensures Outcome(cache, index, r, rest, chain, SaturatingSub(current.GetSlot(), rollbackSlots), after, undecodable)
  {
    var targetSlot := SaturatingSub(current.GetSlot(), rollbackSlots);
    WalkStarts(cache.blocks, index.txo, current, chain, targetSlot, after, undecodable);
    var exit, rollbackTarget, rolledBackAny;
    exit, rollbackTarget, rolledBackAny, rest := WalkBack(index, cache, current, targetSlot, undecodable, chain, after);
    match exit
    case NotStored =>
      r := LeaveMissing(cache, index, rollbackTarget, rolledBackAny, rest, chain, targetSlot, after, undecodable);
    case NotDecoded =>
      EndsTorn(cache, index, rollbackTarget, rest, chain, targetSlot, after, undecodable);
      r := Undecodable(rollbackTarget);
    case Arrived =>
      r := LeaveDone(cache, index, rollbackTarget, rest, chain, targetSlot, after, undecodable);
  }

  datatype RestartMode = FreshStart(from: Point) | RollbackAndResume(current: Point, slots: nat)

  method DetermineRestartMode(cache: LedgerCache, startingPoint: Point, slots: nat) returns (m: RestartMode)
    ensures cache.tip.None? ==> m == FreshStart(startingPoint)
    ensures cache.tip.Some? ==> m == RollbackAndResume(cache.tip.value, slots)
  {
    var tip := cache.tip;
    m := if tip.Some? then RollbackAndResume(tip.value, slots) else FreshStart(startingPoint);
  }

  ghost predicate Restartable(chain: Chain, slots: nat, after: int, undecodable: set<Point>) {
    var target := SaturatingSub(TipPoint(chain).GetSlot(), slots);
    !AnyBlocked(chain, target, after, undecodable) && !AnyUnstored(chain, target, after)
  }

  lemma ResumeIsQuiet(chain: Chain, point: Point, after: nat)
    requires chain == [] || point == TipPoint(chain)
    ensures Advance(chain, RollBackward(point), after) == chain && Emit(chain, RollBackward(point), after) == []
  {
  }

  /** A restart goes through exactly when no block past the target is undecodable or was never stored. It then
      resumes at the tip of what cache and index still describe: all of the chain up to the target slot, and
      nothing past it. The rollback to the resume point that a node sends first changes nothing. */
  method Restart(index: Index, cache: LedgerCache, startingPoint: Point, slots: nat, undecodable: set<Point>,
                 ghost chain: Chain, ghost after: nat)
      returns (resume: Option<Point>, ghost rest: Chain)
    requires InStep(cache, index, chain, after) && LedgerHistory(History(chain))
    modifies cache, index
    ensures resume.Some? <==> old(cache.tip).None? || Restartable(chain, slots, after, undecodable)
    ensures resume.Some? ==> InStep(cache, index, rest, after) && LedgerHistory(History(rest))
    ensures resume.Some? ==> resume.value == if cache.tip.Some? then cache.tip.value else startingPoint
    ensures resume.Some? && old(cache.tip).None? ==> rest == chain == []
    ensures resume.Some? && old(cache.tip).Some? ==>
              && cache.tip == Some(TipPoint(rest))
              && CutPast(chain, rest, SaturatingSub(TipPoint(chain).GetSlot(), slots))
              && TipPoint(rest).GetSlot() <= SaturatingSub(TipPoint(chain).GetSlot(), slots)
    ensures resume.Some? ==>
      Advance(rest, RollBackward(resume.value), after) == rest && Emit(rest, RollBackward(resume.value), after) == []
  {
    var mode := DetermineRestartMode(cache, startingPoint, slots);
    match mode
    case FreshStart(from) =>
      resume, rest := Some(from), chain;
      ResumeIsQuiet(rest, from, after);
    case RollbackAndResume(current, n) =>
      var r;
      r, rest := RollbackBlocks(index, cache, current, n, undecodable, chain, after);
      HistoryPrefix(chain, rest);
      ResumeIsQuiet(rest, r.point, after);
      resume := if r.Ok? then Some(r.point) else None;
  }

  // ---- A rollback that tears cache and index apart ------------------------

  function EmptyBlock(slot: Slot, number: nat, mark: Byte): Block {
    Block(slot, number, seq(32, _ => mark), true, [], 0, {})
  }

  lemma {:induction false} EmptyHistory(chain: Chain)
    requires forall k :: 0 <= k < |chain| ==> ValidTxs(chain[k]) == []
    ensures History(chain) == []
  {
    if chain != [] { EmptyHistory(Front(chain)); }
  }

  method TwoBlocks(first: Block, second: Block) returns (cache: LedgerCache, index: Index, ghost chain: Chain)
    requires ValidTxs(first) == ValidTxs(second) == [] && 0 < first.slot < second.slot
    ensures fresh(cache) && fresh(index) && cache.tip == Some(PointOf(second))
    ensures |chain| == 2 && chain[0] == first && chain[1] == second
    ensures InStep(cache, index, chain, 0) && LedgerHistory(History(chain))
  {
    ghost var none: Chain, one := [], [first];
    chain := [first, second];
    EmptyHistory(none);
    EmptyHistory(one);
    EmptyHistory(chain);
    assert none + [first] == one && one + [second] == chain;
    cache := new LedgerCache();
    index := new Index();
    MonitorUpgrade(cache, index, RollForward(first, false), 0, none);
    MonitorUpgrade(cache, index, RollForward(second, false), 0, one);
    NewestBlock(cache.tip, cache.blocks, chain, 0);
  }

  lemma OlderBlocks(chain: Chain)
    requires |chain| == 2 && 0 < chain[0].slot < chain[1].slot
    ensures AnyBlocked(chain, 0, 0, {PointOf(chain[0])}) && PointOf(Last(chain)) != PointOf(chain[0])
  {
    assert Blocked(chain, 0, 0, 0, {PointOf(chain[0])});
  }

  lemma TornByOlder(cache: LedgerCache, index: Index, r: RollbackResult, rest: Chain, chain: Chain, p: Point)
    requires Outcome(cache, index, r, rest, chain, 0, 0, {p}) && AnyBlocked(chain, 0, 0, {p})
    requires chain != [] && PointOf(Last(chain)) != p
    ensures r == Undecodable(p) && cache.tip == Some(TipPoint(chain)) && !Agree(cache, index, 0)
  {
  }

  /** Of two blocks the older one cannot be decoded: a rollback past both undoes the newer one, stops at the
      older one, and leaves a tip that neither cache nor index knows. */
  method UndecodableOlder(first: Block, second: Block) returns (r: RollbackResult, cache: LedgerCache, index: Index)
    requires ValidTxs(first) == ValidTxs(second) == [] && 0 < first.slot < second.slot
    ensures fresh(cache) && fresh(index)
    ensures r == Undecodable(PointOf(first)) && cache.tip == Some(PointOf(second)) && !Agree(cache, index, 0)
  {
    ghost var chain, rest;
    cache, index, chain := TwoBlocks(first, second);
    r, rest := RollbackBlocks(index, cache, PointOf(second), second.slot, {PointOf(first)}, chain, 0);
    OlderBlocks(chain);
    TornByOlder(cache, index, r, rest, chain, PointOf(first));
  }

  method UndecodableWitness() returns (r: RollbackResult, cache: LedgerCache, index: Index)
    ensures fresh(cache) && fresh(index)
    ensures r == Undecodable(PointOf(EmptyBlock(10, 1, 1))) && cache.tip == Some(PointOf(EmptyBlock(20, 2, 2)))
    ensures !Agree(cache, index, 0)
  {
    r, cache, index := UndecodableOlder(EmptyBlock(10, 1, 1), EmptyBlock(20, 2, 2));
  }
}
