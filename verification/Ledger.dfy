/** Ledger entities shared by the chain-sync and UTxO-monitor models. */
module Ledger {

  newtype Byte = x: int | 0 <= x < 256
  type Hash = seq<Byte>
  type Slot = nat

  datatype Option<+T> = None | Some(value: T)

  datatype Point = Origin | Specific(slot: Slot, hash: Hash) {
    function GetSlot(): Slot {
      if Origin? then 0 else slot
    }
  }

  datatype Credential = PubKey(hash: Hash) | Script(hash: Hash)

  datatype Address =
    | Base(payment: Credential, stake: Credential)
    | Enterprise(payment: Credential)
    | Ptr(payment: Credential)
    | Reward(payment: Credential)
    | Byron

  /** `content` stands for value, datum and script reference. */
  datatype Output = Output(address: Address, content: nat)

  datatype OutputRef = OutputRef(hash: Hash, index: nat)

  datatype Tx = Tx(hash: Hash, inputs: seq<OutputRef>, outputs: seq<Output>)

  /** A block; `supported` tells Babbage and Conway blocks from older ones. */
  datatype Block = Block(slot: Slot, number: nat, hash: Hash, supported: bool,
                         bodies: seq<Tx>, witnesses: nat, invalid: set<nat>)

  lemma Associative<T>(a: seq<T>, b: seq<T>, c: seq<T>)
    ensures a + (b + c) == (a + b) + c
  {
  }

  // ---- A stack and its undoing --------------------------------------------

  function Reversed<T>(items: seq<T>): (r: seq<T>)
    ensures |r| == |items|
  {
    seq(|items|, k requires 0 <= k < |items| => items[|items| - 1 - k])
  }

  /** Takes items off a stack, one after the other; `None` as soon as one is not on top. */
  function PopAll<T(==)>(stack: seq<T>, items: seq<T>): Option<seq<T>>
    decreases |items|
  {
    if items == [] then Some(stack)
    else if stack != [] && stack[|stack| - 1] == items[0] then PopAll(stack[..|stack| - 1], items[1..])
    else None
  }

  /** What was put on a stack comes off it in reverse. */
  lemma {:induction false} PopReversed<T>(stack: seq<T>, items: seq<T>)
    ensures PopAll(stack + items, Reversed(items)) == Some(stack)
    decreases |items|
  {
    if items == [] {
      assert stack + items == stack;
    } else {
      var n := |items| - 1;
      assert Reversed(items)[1..] == Reversed(items[..n]);
      assert (stack + items)[..|stack + items| - 1] == stack + items[..n];
      PopReversed(stack, items[..n]);
    }
  }

  // ---- Blocks -------------------------------------------------------------

  function PointOf(b: Block): Point {
    Specific(b.slot, b.hash)
  }

  const INDEX_LIMIT: nat := 65536

  /** `unpack_valid_transactions_multi_era`: bodies paired with witness sets, without
      the ones whose index, cut to 16 bits, is listed as invalid. */
  function ValidTxs(b: Block): seq<Tx> {
    if b.supported then ValidFrom(b, 0) else []
  }

  function ValidFrom(b: Block, ix: nat): seq<Tx>
    decreases |b.bodies| - ix
  {
    if ix >= |b.bodies| || ix >= b.witnesses then [] else
    (if ix % INDEX_LIMIT in b.invalid then [] else [b.bodies[ix]]) + ValidFrom(b, ix + 1)
  }

  ghost predicate Ascending(ixs: seq<nat>) {
    forall j, k :: 0 <= j < k < |ixs| ==> ixs[j] < ixs[k]
  }

  /** The transaction at place `ix` is one the chain accepted: its block is of a known era, it has its witnesses, and
      its place, in 16 bits, is not listed as invalid. */
  ghost predicate IsValidPlace(b: Block, ix: nat) {
    b.supported && ix < |b.bodies| && ix < b.witnesses && ix % 65536 !in b.invalid
  }

  /** `ixs` are the places of the valid transactions of a block, in block order. */
  ghost predicate AreValidPlaces(b: Block, ixs: seq<nat>) {
    Ascending(ixs) && forall ix: nat :: ix in ixs <==> IsValidPlace(b, ix)
  }

  ghost predicate AreAt(b: Block, ixs: seq<nat>, txs: seq<Tx>) {
    |txs| == |ixs| && forall k :: 0 <= k < |ixs| ==> ixs[k] < |b.bodies| && txs[k] == b.bodies[ixs[k]]
  }

  lemma AscendingCons(x: nat, ixs: seq<nat>)
    requires Ascending(ixs) && forall ix :: ix in ixs ==> x < ix
    ensures Ascending([x] + ixs)
  {
    forall k | 0 <= k < |ixs| ensures x < ixs[k] { assert ixs[k] in ixs; }
  }

  lemma {:induction false} ValidPlacesFrom(b: Block, from: nat) returns (ixs: seq<nat>)
    requires b.supported
    ensures Ascending(ixs) && forall ix: nat :: ix in ixs <==> from <= ix && IsValidPlace(b, ix)
    ensures AreAt(b, ixs, ValidFrom(b, from))
    decreases |b.bodies| - from
  {
    ixs := [];
    if from < |b.bodies| && from < b.witnesses {
      var later := ValidPlacesFrom(b, from + 1);
      if from % INDEX_LIMIT in b.invalid {
        ixs := later;
      } else {
        AscendingCons(from, later);
        ixs := [from] + later;
      }
    }
  }

  /** What a block contributes are its valid transactions, in block order. */
  lemma ValidTxsExactly(b: Block) returns (ixs: seq<nat>)
    ensures AreValidPlaces(b, ixs) && AreAt(b, ixs, ValidTxs(b))
  {
    ixs := [];
    if b.supported { ixs := ValidPlacesFrom(b, 0); }
  }

  lemma AscendingTail(a: seq<nat>, x: nat)
    requires Ascending(a) && a != []
    ensures Ascending(a[1..]) && a[0] !in a[1..] && (x in a <==> x == a[0] || x in a[1..])
  {
    assert a == [a[0]] + a[1..];
  }

  lemma AscendingHead(a: seq<nat>, b: seq<nat>)
    requires Ascending(a) && Ascending(b) && a != [] && a[0] in b && b != [] && b[0] in a
    ensures a[0] == b[0]
  {
  }

  lemma {:induction false} AscendingUnique(a: seq<nat>, b: seq<nat>)
    requires Ascending(a) && Ascending(b) && forall x :: x in a <==> x in b
    ensures a == b
    decreases |a|
  {
    assert b == [] || b[0] in b;
    if a != [] {
      assert a[0] in b;
      AscendingHead(a, b);
      forall x: nat ensures x in a[1..] <==> x in b[1..] {
        AscendingTail(a, x);
        AscendingTail(b, x);
      }
      AscendingUnique(a[1..], b[1..]);
      assert a == [a[0]] + a[1..] && b == [b[0]] + b[1..];
    }
  }
}

/** Model of cardano-chain-sync/src/cache.rs: a tip and a linked list of blocks. */
module ChainCache {
  import opened Ledger

  datatype LinkedBlock = LinkedBlock(block: Block, prev: Point)

  class LedgerCache {
    var tip: Option<Point>
    var blocks: map<Point, LinkedBlock>

    constructor ()
      ensures tip == None && blocks == map[]
    {
      tip, blocks := None, map[];
    }

    method SetTip(point: Point)
      modifies this`tip
      ensures tip == Some(point)
    {
      tip := Some(point);
    }

    method PutBlock(point: Point, block: LinkedBlock)
      modifies this`blocks
      ensures blocks == old(blocks)[point := block]
    {
      blocks := blocks[point := block];
    }

    method GetBlock(point: Point) returns (r: Option<LinkedBlock>)
      ensures r == if point in blocks then Some(blocks[point]) else None
    {
      r := if point in blocks then Some(blocks[point]) else None;
    }

    method Delete(point: Point)
      modifies this`blocks
      ensures blocks == old(blocks) - {point}
    {
      blocks := blocks - {point};
    }
  }

  // ---- What the cache stands for ------------------------------------------

  type Chain = seq<Block>

  ghost predicate Increasing(chain: Chain) {
    forall i, j :: 0 <= i < j < |chain| ==> chain[i].slot < chain[j].slot
  }

  function Last(chain: Chain): Block
    requires chain != []
  {
    chain[|chain| - 1]
  }

  function Front(chain: Chain): Chain
    requires chain != []
  {
    chain[..|chain| - 1]
  }

  function TipPoint(chain: Chain): Point {
    if chain == [] then Origin else PointOf(Last(chain))
  }

  /** What the blocks of a chain hold, oldest first. */
  function Flat<T>(held: Block -> seq<T>, chain: Chain): seq<T> {
    if chain == [] then [] else Flat(held, Front(chain)) + held(Last(chain))
  }

  lemma FlatPush<T>(held: Block -> seq<T>, chain: Chain, b: Block)
    ensures Flat(held, chain + [b]) == Flat(held, chain) + held(b)
  {
    assert Front(chain + [b]) == chain && Last(chain + [b]) == b;
  }

  lemma {:induction false} FlatConcat<T>(held: Block -> seq<T>, older: Chain, newer: Chain)
    ensures Flat(held, older + newer) == Flat(held, older) + Flat(held, newer)
    decreases |newer|
  {
    if newer == [] {
      assert older + newer == older;
      assert Flat(held, older) + [] == Flat(held, older);
    } else {
      var front, last := Front(newer), Last(newer);
      FlatConcat(held, older, front);
      FlatPush(held, older + front, last);
      assert older + newer == older + front + [last];
      FlatPush(held, front, last);
      assert newer == front + [last];
      Associative(Flat(held, older), Flat(held, front), held(last));
    }
  }

  /** Blocks past slot `after` are stored, each linked to the point before it. */
  function CachedBlocks(chain: Chain, after: int): map<Point, LinkedBlock> {
    if chain == [] then map[] else
    var older := CachedBlocks(Front(chain), after);
    if Last(chain).slot > after
    then older[PointOf(Last(chain)) := LinkedBlock(Last(chain), TipPoint(Front(chain)))]
    else older
  }

  ghost predicate Represents(tip: Option<Point>, blocks: map<Point, LinkedBlock>, chain: Chain, after: int) {
    && Increasing(chain)
    && (tip == Some(TipPoint(chain)) || (chain == [] && tip == None))
    && blocks == CachedBlocks(chain, after)
  }

  predicate Extends(chain: Chain, b: Block) {
    chain == [] || Last(chain).slot < b.slot
  }

  lemma {:induction false} CachedKeysAreOnChain(chain: Chain, after: int, p: Point)
    ensures p in CachedBlocks(chain, after) ==>
      exists k :: 0 <= k < |chain| && chain[k].slot > after && PointOf(chain[k]) == p
  {
    if chain != [] {
      CachedKeysAreOnChain(Front(chain), after, p);
      if p in CachedBlocks(chain, after) {
        if p in CachedBlocks(Front(chain), after) {
          var k :| 0 <= k < |Front(chain)| && Front(chain)[k].slot > after && PointOf(Front(chain)[k]) == p;
          assert chain[k] == Front(chain)[k];
        } else {
          assert PointOf(chain[|chain| - 1]) == p;
        }
      }
    }
  }

  /** Removing the newest block leaves exactly the cache of the shorter chain. */
  lemma PopBlock(chain: Chain, after: int)
    requires Increasing(chain) && chain != [] && Last(chain).slot > after
    ensures PointOf(Last(chain)) in CachedBlocks(chain, after)
    ensures CachedBlocks(chain, after)[PointOf(Last(chain))] == LinkedBlock(Last(chain), TipPoint(Front(chain)))
    ensures CachedBlocks(chain, after) - {PointOf(Last(chain))} == CachedBlocks(Front(chain), after)
  {
    CachedKeysAreOnChain(Front(chain), after, PointOf(Last(chain)));
  }

  /** The newest block past `after` is the one the tip leads to, and taking it off
      leaves the cache of the shorter chain. */
  lemma NewestBlock(tip: Option<Point>, blocks: map<Point, LinkedBlock>, chain: Chain, after: int)
    requires Represents(tip, blocks, chain, after)
    ensures tip.Some? && tip.value in blocks <==> chain != [] && Last(chain).slot > after
    ensures chain != [] ==> tip == Some(PointOf(Last(chain)))
    ensures chain != [] && Last(chain).slot > after ==>
      && blocks[tip.value] == LinkedBlock(Last(chain), TipPoint(Front(chain)))
      && Represents(Some(TipPoint(Front(chain))), blocks - {tip.value}, Front(chain), after)
  {
    if chain == [] || Last(chain).slot <= after { TipNotCached(chain, after); } else { PopBlock(chain, after); }
  }

  lemma PushBlock(chain: Chain, b: Block)
    requires Increasing(chain) && Extends(chain, b)
    ensures Increasing(chain + [b]) && Last(chain + [b]) == b && Front(chain + [b]) == chain
  {
  }

  /** A point that is not cached: the tip of a chain that ends at or before `after`. */
  lemma TipNotCached(chain: Chain, after: int)
    requires Increasing(chain) && (chain == [] || Last(chain).slot <= after)
    ensures TipPoint(chain) !in CachedBlocks(chain, after)
    ensures CachedBlocks(chain, after) == map[]
    decreases |chain|
  {
    if chain != [] {
      if Front(chain) != [] { assert Last(Front(chain)).slot < Last(chain).slot; }
      TipNotCached(Front(chain), after);
    }
  }
}

/** Model of cardano-chain-sync/src/event_source.rs. */
module EventSource {
  import opened Ledger
  import opened ChainCache

  datatype Upgrade = RollForward(blk: Block, replayed: bool) | RollBackward(point: Point)

  /** What an event carries besides its direction. */
  datatype Item = Item(tx: Tx, slot: Slot, blockNumber: nat, blockHash: Hash)

  datatype TxEvent = TxApplied(item: Item) | TxUnapplied(item: Item)

  function ItemsOf(b: Block): (r: seq<Item>)
    ensures |r| == |ValidTxs(b)|
  {
    var txs := ValidTxs(b);
    seq(|txs|, k requires 0 <= k < |txs| => Item(txs[k], b.slot, b.number, b.hash))
  }

  /** `items` are the valid transactions of a block in block order, each with slot, number and hash of the block. */
  ghost predicate AreItems(b: Block, items: seq<Item>) {
    exists ixs :: AreValidPlaces(b, ixs) && AreItemsAt(b, ixs, items)
  }

  ghost predicate AreItemsAt(b: Block, ixs: seq<nat>, items: seq<Item>) {
    && |items| == |ixs|
    && forall k :: 0 <= k < |ixs| ==>
         ixs[k] < |b.bodies| && items[k] == Item(b.bodies[ixs[k]], b.slot, b.number, b.hash)
  }

  lemma ItemsExactly(b: Block, items: seq<Item>)
    ensures AreItems(b, items) <==> items == ItemsOf(b)
  {
    var ixs := ValidTxsExactly(b);
    assert AreItemsAt(b, ixs, ItemsOf(b));
    if AreItems(b, items) {
      var ixs' :| AreValidPlaces(b, ixs') && AreItemsAt(b, ixs', items);
      AscendingUnique(ixs, ixs');
    }
  }

  function Applied(items: seq<Item>): (r: seq<TxEvent>)
    ensures |r| == |items|
  {
    seq(|items|, k requires 0 <= k < |items| => TxApplied(items[k]))
  }

  function Unapplied(items: seq<Item>): (r: seq<TxEvent>)
    ensures |r| == |items|
  {
    Undone(Reversed(items))
  }

  function Undone(items: seq<Item>): (r: seq<TxEvent>)
    ensures |r| == |items|
  {
    seq(|items|, k requires 0 <= k < |items| => TxUnapplied(items[k]))
  }

  // ---- The event source ---------------------------------------------------

  method CacheBlock(cache: LedgerCache, b: Block, ghost chain: Chain, ghost after: int)
    requires Represents(cache.tip, cache.blocks, chain, after) && Extends(chain, b) && b.slot > after
    modifies cache
    ensures Represents(cache.tip, cache.blocks, chain + [b], after)
  {
    PushBlock(chain, b);
    var prev := if cache.tip.Some? then cache.tip.value else Origin;
    cache.SetTip(PointOf(b));
    cache.PutBlock(PointOf(b), LinkedBlock(b, prev));
  }

  method CachePoint(cache: LedgerCache, b: Block, ghost chain: Chain, ghost after: int)
    requires Represents(cache.tip, cache.blocks, chain, after) && Extends(chain, b) && b.slot <= after
    modifies cache
    ensures Represents(cache.tip, cache.blocks, chain + [b], after)
  {
    PushBlock(chain, b);
    cache.SetTip(PointOf(b));
  }

  /** The chain left after walking back from its end to `point`. */
  function RollTo(chain: Chain, point: Point, after: int): Chain {
    if chain == [] || PointOf(Last(chain)) == point || Last(chain).slot <= after then chain
    else RollTo(Front(chain), point, after)
  }

  /** Events of walking back: each block's transactions undone, newest first. */
  function RollEvents(chain: Chain, point: Point, after: int): seq<TxEvent> {
    if chain == [] || PointOf(Last(chain)) == point || Last(chain).slot <= after then []
    else Unapplied(ItemsOf(Last(chain))) + RollEvents(Front(chain), point, after)
  }

  function Advance(chain: Chain, u: Upgrade, after: nat): Chain {
    match u
    case RollForward(b, replayed) => if replayed then chain else chain + [b]
    case RollBackward(p) => if p.GetSlot() > after then RollTo(chain, p, after) else chain
  }

  function Emit(chain: Chain, u: Upgrade, after: nat): seq<TxEvent> {
    match u
    case RollForward(b, _) => Applied(ItemsOf(b))
    case RollBackward(p) => if p.GetSlot() > after then RollEvents(chain, p, after) else []
  }

  /** One round of a rollback: takes the newest block off the cache unless the walk is over. */
  method PopTip(cache: LedgerCache, point: Point, ghost chain: Chain, ghost after: int) returns (popped: Option<Block>)
    requires Represents(cache.tip, cache.blocks, chain, after)
    modifies cache
    ensures popped.None? <==> chain == [] || PointOf(Last(chain)) == point || Last(chain).slot <= after
    ensures popped.None? ==> Represents(cache.tip, cache.blocks, chain, after)
    ensures popped.Some? ==> popped.value == Last(chain) && Represents(cache.tip, cache.blocks, Front(chain), after)
  {
    NewestBlock(cache.tip, cache.blocks, chain, after);
    popped := None;
    if cache.tip.Some? {
      var tip := cache.tip.value;
      if tip != point {
        var block := cache.GetBlock(tip);
        if block.Some? {
          cache.Delete(tip);
          cache.SetTip(block.value.prev);
          popped := Some(block.value.block);
        }
      }
    }
  }

  /** `rollback`, with the transactions of every block it yields turned into events. */
  method Rollback(cache: LedgerCache, point: Point, ghost chain: Chain, ghost after: int) returns (events: seq<TxEvent>)
    requires Represents(cache.tip, cache.blocks, chain, after)
    modifies cache
    ensures Represents(cache.tip, cache.blocks, RollTo(chain, point, after), after)
    ensures events == RollEvents(chain, point, after)
  {
    events := [];
    ghost var rest := chain;
    while true
      invariant Represents(cache.tip, cache.blocks, rest, after)
      invariant RollTo(chain, point, after) == RollTo(rest, point, after)
      invariant RollEvents(chain, point, after) == events + RollEvents(rest, point, after)
      decreases |rest|
    {
      var popped := PopTip(cache, point, rest, after);
      if popped.None? { break; }
      var undone := Unapplied(ItemsOf(popped.value));
      ghost var later := RollEvents(Front(rest), point, after);
      assert RollEvents(rest, point, after) == undone + later;
      Associative(events, undone, later);
      events := events + undone;
      rest := Front(rest);
    }
  }

  /** `process_upstream_by_txs`. */
  method ProcessUpstreamByTxs(cache: LedgerCache, u: Upgrade, after: nat, ghost chain: Chain)
      returns (events: seq<TxEvent>)
    requires Represents(cache.tip, cache.blocks, chain, after)
    requires u.RollForward? && !u.replayed ==> Extends(chain, u.blk)
    modifies cache
    ensures Represents(cache.tip, cache.blocks, Advance(chain, u, after), after)
    ensures events == Emit(chain, u, after)
    ensures u.RollForward? ==> exists items :: AreItems(u.blk, items) && events == Applied(items)
  {
    match u
    case RollForward(b, replayed) =>
      ItemsExactly(b, ItemsOf(b));
      if !replayed {
        if b.slot > after {
          CacheBlock(cache, b, chain, after);
        } else {
          CachePoint(cache, b, chain, after);
        }
      }
      events := Applied(ItemsOf(b));
    case RollBackward(p) =>
      if p.GetSlot() > after {
        events := Rollback(cache, p, chain, after);
      } else {
        events := [];
      }
  }

  // ---- Runs ---------------------------------------------------------------

  /** Live blocks only, with increasing slots. */
  ghost predicate WellFormedRun(chain: Chain, us: seq<Upgrade>, after: nat)
    decreases |us|
  {
    us != [] ==>
    && (us[0].RollForward? ==> !us[0].replayed && Extends(chain, us[0].blk))
    && WellFormedRun(Advance(chain, us[0], after), us[1..], after)
  }

  function RunChain(chain: Chain, us: seq<Upgrade>, after: nat): Chain
    decreases |us|
  {
    if us == [] then chain else RunChain(Advance(chain, us[0], after), us[1..], after)
  }

  function RunEvents(chain: Chain, us: seq<Upgrade>, after: nat): seq<TxEvent>
    decreases |us|
  {
    if us == [] then [] else Emit(chain, us[0], after) + RunEvents(Advance(chain, us[0], after), us[1..], after)
  }

  /** The stream of live upgrades. */
  method FollowUpstream(cache: LedgerCache, us: seq<Upgrade>, after: nat, ghost chain: Chain)
      returns (events: seq<TxEvent>)
    requires Represents(cache.tip, cache.blocks, chain, after) && WellFormedRun(chain, us, after)
    modifies cache
    ensures Represents(cache.tip, cache.blocks, RunChain(chain, us, after), after)
    ensures events == RunEvents(chain, us, after)
  {
    events := [];
    ghost var now := chain;
    assert us[0..] == us;
    for k := 0 to |us|
      invariant Represents(cache.tip, cache.blocks, now, after) && WellFormedRun(now, us[k..], after)
      invariant RunChain(chain, us, after) == RunChain(now, us[k..], after)
      invariant RunEvents(chain, us, after) == events + RunEvents(now, us[k..], after)
    {
      assert us[k..][0] == us[k] && us[k..][1..] == us[k + 1..];
      ghost var next := Advance(now, us[k], after);
      ghost var later := RunEvents(next, us[k + 1..], after);
      var more := ProcessUpstreamByTxs(cache, us[k], after, now);
      assert RunEvents(now, us[k..], after) == more + later;
      Associative(events, more, later);
      events := events + more;
      now := next;
    }
    assert us[|us|..] == [];
  }

  lemma AppliedConcat(a: seq<Item>, b: seq<Item>)
    ensures Applied(a + b) == Applied(a) + Applied(b)
  {
  }

  lemma ReplayedPush(replayed: seq<Block>, k: nat)
    requires k < |replayed|
    ensures Applied(Items(replayed[..k + 1])) == Applied(Items(replayed[..k])) + Applied(ItemsOf(replayed[k]))
  {
    assert replayed[..k + 1] == replayed[..k] + [replayed[k]];
    FlatPush(ItemsOf, replayed[..k], replayed[k]);
    AppliedConcat(Items(replayed[..k]), ItemsOf(replayed[k]));
  }

  /** The stream of replayed blocks: it leaves the cache as it is. */
  method ReplayBlocks(cache: LedgerCache, replayed: seq<Block>, after: nat, ghost chain: Chain)
      returns (events: seq<TxEvent>)
    requires Represents(cache.tip, cache.blocks, chain, after)
    modifies cache
    ensures Represents(cache.tip, cache.blocks, chain, after)
    ensures events == Applied(Items(replayed))
  {
    events := [];
    for k := 0 to |replayed|
      invariant Represents(cache.tip, cache.blocks, chain, after)
      invariant events == Applied(Items(replayed[..k]))
    {
      var more := ProcessUpstreamByTxs(cache, RollForward(replayed[k], true), after, chain);
      ReplayedPush(replayed, k);
      events := events + more;
    }
    assert replayed[..|replayed|] == replayed;
  }

  /** `ledger_transactions`: the replayed blocks, then the live upgrades. */
  method LedgerTransactions(cache: LedgerCache, replayed: seq<Block>, us: seq<Upgrade>, after: nat, ghost chain: Chain)
      returns (events: seq<TxEvent>)
    requires Represents(cache.tip, cache.blocks, chain, after) && WellFormedRun(chain, us, after)
    modifies cache
    ensures Represents(cache.tip, cache.blocks, RunChain(chain, us, after), after)
    ensures events == Applied(Items(replayed)) + RunEvents(chain, us, after)
  {
    events := ReplayBlocks(cache, replayed, after, chain);
    var live := FollowUpstream(cache, us, after, chain);
    events := events + live;
  }

  // ---- Stack discipline ---------------------------------------------------

  /** Reads the events as pushes and pops; `None` as soon as one undoes anything but
      the latest transaction that is still applied. */
  function Net(stack: seq<Item>, events: seq<TxEvent>): Option<seq<Item>>
    decreases |events|
  {
    if events == [] then Some(stack) else
    match events[0]
    case TxApplied(i) => Net(stack + [i], events[1..])
    case TxUnapplied(i) =>
      if stack != [] && stack[|stack| - 1] == i then Net(stack[..|stack| - 1], events[1..]) else None
  }

  /** All valid transactions of a chain, oldest first. */
  function Items(chain: Chain): seq<Item> {
    Flat(ItemsOf, chain)
  }

  lemma {:induction false} NetSplit(stack: seq<Item>, e1: seq<TxEvent>, e2: seq<TxEvent>)
    ensures Net(stack, e1).Some? ==> Net(stack, e1 + e2) == Net(Net(stack, e1).value, e2)
    decreases |e1|
  {
    if e1 == [] {
      assert e1 + e2 == e2;
    } else {
      assert (e1 + e2)[1..] == e1[1..] + e2;
      match e1[0]
      case TxApplied(i) => NetSplit(stack + [i], e1[1..], e2);
      case TxUnapplied(i) =>
        if stack != [] && stack[|stack| - 1] == i { NetSplit(stack[..|stack| - 1], e1[1..], e2); }
    }
  }

  lemma {:induction false} NetApplied(stack: seq<Item>, items: seq<Item>)
    ensures Net(stack, Applied(items)) == Some(stack + items)
    decreases |items|
  {
    if items == [] {
      assert stack + items == stack;
    } else {
      assert Applied(items)[1..] == Applied(items[1..]);
      NetApplied(stack + [items[0]], items[1..]);
      assert stack + [items[0]] + items[1..] == stack + items;
    }
  }

  lemma {:induction false} NetUndone(stack: seq<Item>, items: seq<Item>)
    ensures Net(stack, Undone(items)) == PopAll(stack, items)
    decreases |items|
  {
    if items != [] {
      assert Undone(items)[1..] == Undone(items[1..]);
      if stack != [] { NetUndone(stack[..|stack| - 1], items[1..]); }
    }
  }

  lemma NetUnapplied(stack: seq<Item>, items: seq<Item>)
    ensures Net(stack + items, Unapplied(items)) == Some(stack)
  {
    NetUndone(stack + items, Reversed(items));
    PopReversed(stack, items);
  }

  lemma {:induction false} NetRollback(chain: Chain, point: Point, after: int)
    ensures Net(Items(chain), RollEvents(chain, point, after)) == Some(Items(RollTo(chain, point, after)))
    decreases |chain|
  {
    if !(chain == [] || PointOf(Last(chain)) == point || Last(chain).slot <= after) {
      NetUnapplied(Items(Front(chain)), ItemsOf(Last(chain)));
      NetSplit(Items(chain), Unapplied(ItemsOf(Last(chain))), RollEvents(Front(chain), point, after));
      NetRollback(Front(chain), point, after);
    }
  }

  lemma NetStep(chain: Chain, u: Upgrade, after: nat)
    requires u.RollForward? ==> !u.replayed
    ensures Net(Items(chain), Emit(chain, u, after)) == Some(Items(Advance(chain, u, after)))
  {
    match u
    case RollForward(b, _) =>
      NetApplied(Items(chain), ItemsOf(b));
      assert Front(chain + [b]) == chain;
    case RollBackward(p) =>
      if p.GetSlot() > after { NetRollback(chain, p, after); }
  }

  /** `items` are the valid transactions of a chain, oldest first. */
  ghost predicate AreChainItems(chain: Chain, items: seq<Item>) {
    if chain == [] then items == [] else
    exists k: nat :: k <= |items| && AreChainItems(Front(chain), items[..k]) && AreItems(Last(chain), items[k..])
  }

  lemma ItemsJoin(chain: Chain, items: seq<Item>, k: nat)
    requires chain != [] && k <= |items| && items[..k] == Items(Front(chain)) && items[k..] == ItemsOf(Last(chain))
    ensures items == Items(chain)
  {
    assert items == items[..k] + items[k..];
  }

  lemma ItemsCut(chain: Chain) returns (k: nat)
    requires chain != []
    ensures k <= |Items(chain)|
    ensures Items(chain)[..k] == Items(Front(chain)) && Items(chain)[k..] == ItemsOf(Last(chain))
  {
    k := |Items(Front(chain))|;
  }

  lemma {:induction false} ChainItemsExactly(chain: Chain, items: seq<Item>)
    ensures AreChainItems(chain, items) <==> items == Items(chain)
    decreases |chain|
  {
    if chain != [] {
      if AreChainItems(chain, items) {
        var k: nat :| k <= |items| && AreChainItems(Front(chain), items[..k]) && AreItems(Last(chain), items[k..]);
        ChainItemsExactly(Front(chain), items[..k]);
        ItemsExactly(Last(chain), items[k..]);
        ItemsJoin(chain, items, k);
      }
      if items == Items(chain) {
        var k := ItemsCut(chain);
        ChainItemsExactly(Front(chain), items[..k]);
        ItemsExactly(Last(chain), items[k..]);
      }
    }
  }

  /** In every run each undone transaction is the latest one still applied, and the
      transactions left applied are exactly the valid ones of the current chain. */
  lemma NetRun(chain: Chain, us: seq<Upgrade>, after: nat, held: seq<Item>)
    requires WellFormedRun(chain, us, after) && AreChainItems(chain, held)
    ensures exists items ::
      Net(held, RunEvents(chain, us, after)) == Some(items) && AreChainItems(RunChain(chain, us, after), items)
  {
    ChainItemsExactly(chain, held);
    NetOfRun(chain, us, after);
    ChainItemsExactly(RunChain(chain, us, after), Items(RunChain(chain, us, after)));
  }

  lemma {:induction false} NetOfRun(chain: Chain, us: seq<Upgrade>, after: nat)
    requires WellFormedRun(chain, us, after)
    ensures Net(Items(chain), RunEvents(chain, us, after)) == Some(Items(RunChain(chain, us, after)))
    decreases |us|
  {
    if us != [] {
      NetStep(chain, us[0], after);
      NetSplit(Items(chain), Emit(chain, us[0], after), RunEvents(Advance(chain, us[0], after), us[1..], after));
      NetOfRun(Advance(chain, us[0], after), us[1..], after);
    }
  }

  // ---- Where a rollback ends ----------------------------------------------

  lemma {:induction false} RollToKnown(chain: Chain, point: Point, after: int, k: nat)
    requires Increasing(chain) && point.GetSlot() > after && k < |chain| && PointOf(chain[k]) == point
    ensures RollTo(chain, point, after) == chain[..k + 1]
    decreases |chain|
  {
    if PointOf(Last(chain)) != point {
      assert k < |chain| - 1;
      assert Front(chain)[k] == chain[k] && Front(chain)[..k + 1] == chain[..k + 1];
      RollToKnown(Front(chain), point, after, k);
    } else {
      assert k == |chain| - 1;
    }
  }

  lemma {:induction false} RollToUnknown(chain: Chain, point: Point, after: int, k: nat)
    requires Increasing(chain) && k < |chain| && forall i :: 0 <= i < |chain| ==> PointOf(chain[i]) != point
    ensures RollTo(chain, point, after) <= chain
    ensures k < |RollTo(chain, point, after)| <==> chain[k].slot <= after
    decreases |chain|
  {
    var front := Front(chain);
    if Last(chain).slot > after && k < |front| {
      assert front[k] == chain[k] && forall i :: 0 <= i < |front| ==> PointOf(front[i]) != point;
      RollToUnknown(front, point, after, k);
    } else {
      RollToIsPrefix(chain, point, after);
    }
  }

  lemma {:induction false} RollToIsPrefix(chain: Chain, point: Point, after: int)
    ensures RollTo(chain, point, after) <= chain
    ensures chain != [] && Last(chain).slot > after && PointOf(Last(chain)) != point ==>
      RollTo(chain, point, after) <= Front(chain)
    decreases |chain|
  {
    if chain != [] { RollToIsPrefix(Front(chain), point, after); }
  }

  /** A rollback to a point of the chain past the threshold cuts the chain right
      after that point; a rollback to an unknown point stops at the last block that
      is not cached. */
  lemma RollToCuts(chain: Chain, point: Point, after: int)
    requires Increasing(chain) && point.GetSlot() > after
    ensures RollTo(chain, point, after) <= chain
    ensures forall k :: 0 <= k < |chain| && PointOf(chain[k]) == point ==> RollTo(chain, point, after) == chain[..k + 1]
    ensures (forall k :: 0 <= k < |chain| ==> PointOf(chain[k]) != point) ==>
      forall k :: 0 <= k < |chain| ==> (k < |RollTo(chain, point, after)| <==> chain[k].slot <= after)
  {
    RollToIsPrefix(chain, point, after);
    forall k | 0 <= k < |chain| && PointOf(chain[k]) == point ensures RollTo(chain, point, after) == chain[..k + 1] {
      RollToKnown(chain, point, after, k);
    }
    if forall k :: 0 <= k < |chain| ==> PointOf(chain[k]) != point {
      forall k | 0 <= k < |chain| ensures k < |RollTo(chain, point, after)| <==> chain[k].slot <= after {
        RollToUnknown(chain, point, after, k);
      }
    }
  }
}
