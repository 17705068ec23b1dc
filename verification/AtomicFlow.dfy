/** Model of `AtomicFlow::run` in cardano-chain-sync/src/atomic_flow.rs, without replay,
    as a state machine. A step is what the flow does between two points at which
    the downstream consumer or another holder of the cache mutex can act. */
module AtomicFlow {
  import opened Ledger
  import opened ChainCache
  import opened EventSource

  datatype Message = Forward(events: seq<Tx>, number: nat, slot: Slot) | Back(events: seq<Tx>, number: nat, slot: Slot)

  datatype Phase =
    | Idle
    | ForwardSent(blk: Block)        // message sent, waiting for the commit
    | ForwardCommitted(blk: Block)   // committed downstream, not yet cached
    | Rewinding(point: Point)
    | BackSent(point: Point)
    | BackCommitted(point: Point)    // undone downstream, still cached

  /** `committed` holds the transactions the consumer has applied and not undone;
      `None` once it was told to undo anything but its latest transaction. */
  datatype State = State(tip: Option<Point>, blocks: map<Point, LinkedBlock>, committed: Option<seq<Tx>>,
                         inbox: Option<Message>, phase: Phase)

  datatype Step = Receive(u: Upgrade) | Commit | CacheForward | Rewind | Unlink

  const EMPTY: State := State(None, map[], Some([]), None, Idle)

  function Consume(stack: Option<seq<Tx>>, m: Message): Option<seq<Tx>> {
    if stack.None? then None else
    match m
    case Forward(txs, _, _) => Some(stack.value + txs)
    case Back(txs, _, _) => PopAll(stack.value, txs)
  }

  /** The upstream node sends blocks in slot order. */
  predicate InOrder(s: State, u: Upgrade) {
    u.RollForward? && s.tip.Some? && s.tip.value.Specific? ==> s.tip.value.slot < u.blk.slot
  }

  predicate Enabled(s: State, step: Step) {
    match step
    case Receive(u) => s.phase.Idle? && InOrder(s, u)
    case Commit => s.inbox.Some? && (s.phase.ForwardSent? || s.phase.BackSent?)
    case CacheForward => s.phase.ForwardCommitted?
    case Rewind => s.phase.Rewinding?
    case Unlink => s.phase.BackCommitted? && s.tip.Some? && s.tip.value in s.blocks
  }

  function Next(s: State, step: Step): State
    requires Enabled(s, step)
  {
    match step
    case Receive(RollForward(b, _)) =>
      s.(inbox := Some(Forward(ValidTxs(b), b.number, b.slot)), phase := ForwardSent(b))
    case Receive(RollBackward(p)) => s.(phase := Rewinding(p))
    case Commit =>
      s.(committed := Consume(s.committed, s.inbox.value), inbox := None,
         phase := if s.phase.ForwardSent? then ForwardCommitted(s.phase.blk) else BackCommitted(s.phase.point))
    case CacheForward =>
      var b := s.phase.blk;
      var prev := if s.tip.Some? then s.tip.value else Origin;
      s.(tip := Some(PointOf(b)), blocks := s.blocks[PointOf(b) := LinkedBlock(b, prev)], phase := Idle)
    case Rewind =>
      if s.tip.Some? && s.tip.value != s.phase.point && s.tip.value in s.blocks then
        var b := s.blocks[s.tip.value].block;
        s.(inbox := Some(Back(Reversed(ValidTxs(b)), b.number, b.slot)), phase := BackSent(s.phase.point))
      else
        s.(phase := Idle)
    case Unlink =>
      s.(tip := Some(s.blocks[s.tip.value].prev), blocks := s.blocks - {s.tip.value}, phase := Rewinding(s.phase.point))
  }

  // ---- The invariant ------------------------------------------------------

  const ALL: int := -1

  function Txs(chain: Chain): seq<Tx> {
    Flat(ValidTxs, chain)
  }

  /** The cache holds `chain`; the consumer holds its transactions, up to the one block in flight. */
  ghost predicate Agrees(s: State, chain: Chain) {
    && Represents(s.tip, s.blocks, chain, ALL)
    && match s.phase
       case Idle => s.committed == Some(Txs(chain)) && s.inbox == None
       case Rewinding(_) => s.committed == Some(Txs(chain)) && s.inbox == None
       case ForwardSent(b) =>
         && Extends(chain, b) && s.committed == Some(Txs(chain))
         && s.inbox == Some(Forward(ValidTxs(b), b.number, b.slot))
       case ForwardCommitted(b) => Extends(chain, b) && s.committed == Some(Txs(chain + [b])) && s.inbox == None
       case BackSent(p) =>
         && chain != [] && PointOf(Last(chain)) != p && s.committed == Some(Txs(chain))
         && s.inbox == Some(Back(Reversed(ValidTxs(Last(chain))), Last(chain).number, Last(chain).slot))
       case BackCommitted(p) =>
         chain != [] && PointOf(Last(chain)) != p && s.committed == Some(Txs(Front(chain))) && s.inbox == None
  }

  /** The chain in the cache after a step. */
  function ChainAfter(s: State, chain: Chain, step: Step): Chain {
    match step
    case CacheForward => if s.phase.ForwardCommitted? then chain + [s.phase.blk] else chain
    case Unlink => if chain != [] then Front(chain) else chain
    case _ => chain
  }

  lemma StepKeepsAgreement(s: State, chain: Chain, step: Step)
    requires Agrees(s, chain) && Enabled(s, step)
    ensures Agrees(Next(s, step), ChainAfter(s, chain, step))
  {
    match step
    case Receive(u) => ReceiveKeepsAgreement(s, chain, u);
    case Commit => CommitKeepsAgreement(s, chain);
    case CacheForward => CacheKeepsAgreement(s, chain);
    case Rewind => RewindKeepsAgreement(s, chain);
    case Unlink => UnlinkKeepsAgreement(s, chain);
  }

  lemma CacheKeepsAgreement(s: State, chain: Chain)
    requires Agrees(s, chain) && Enabled(s, CacheForward)
    ensures Agrees(Next(s, CacheForward), chain + [s.phase.blk])
  {
    PushBlock(chain, s.phase.blk);
  }

  lemma RewindKeepsAgreement(s: State, chain: Chain)
    requires Agrees(s, chain) && Enabled(s, Rewind)
    ensures Agrees(Next(s, Rewind), chain)
  {
    NewestBlock(s.tip, s.blocks, chain, ALL);
  }

  lemma UnlinkKeepsAgreement(s: State, chain: Chain)
    requires Agrees(s, chain) && Enabled(s, Unlink)
    ensures chain != [] && Agrees(Next(s, Unlink), Front(chain))
  {
    NewestBlock(s.tip, s.blocks, chain, ALL);
  }

  lemma ReceiveKeepsAgreement(s: State, chain: Chain, u: Upgrade)
    requires Agrees(s, chain) && Enabled(s, Receive(u))
    ensures Agrees(Next(s, Receive(u)), chain)
  {
  }

  lemma CommitKeepsAgreement(s: State, chain: Chain)
    requires Agrees(s, chain) && Enabled(s, Commit)
    ensures Agrees(Next(s, Commit), chain)
  {
    if s.phase.ForwardSent? {
      PushBlock(chain, s.phase.blk);
    } else {
      PopReversed(Txs(Front(chain)), ValidTxs(Last(chain)));
    }
  }

  // ---- Runs ---------------------------------------------------------------

  ghost predicate Runs(s: State, steps: seq<Step>, end: State)
    decreases |steps|
  {
    if steps == [] then s == end else Enabled(s, steps[0]) && Runs(Next(s, steps[0]), steps[1..], end)
  }

  ghost predicate Reachable(s: State) {
    exists steps :: Runs(EMPTY, steps, s)
  }

  lemma {:induction false} RunKeepsAgreement(s: State, chain: Chain, steps: seq<Step>, end: State) returns (last: Chain)
    requires Agrees(s, chain) && Runs(s, steps, end)
    ensures Agrees(end, last)
    decreases |steps|
  {
    if steps == [] {
      last := chain;
    } else {
      StepKeepsAgreement(s, chain, steps[0]);
      last := RunKeepsAgreement(Next(s, steps[0]), ChainAfter(s, chain, steps[0]), steps[1..], end);
    }
  }

  /** In every reachable state the cache holds a linked chain, and the consumer holds
      exactly its transactions, or those plus the one block about to be cached, or
      those minus the one block about to be unlinked. */
  lemma OneBlockInFlight(s: State) returns (chain: Chain)
    requires Reachable(s)
    ensures Represents(s.tip, s.blocks, chain, ALL)
    ensures s.committed == Some(Txs(chain))
      || (s.phase.ForwardCommitted? && Extends(chain, s.phase.blk) && s.committed == Some(Txs(chain + [s.phase.blk])))
      || (s.phase.BackCommitted? && chain != [] && s.committed == Some(Txs(Front(chain))))
    ensures s.phase.Idle? ==> s.committed == Some(Txs(chain))
  {
    var steps :| Runs(EMPTY, steps, s);
    chain := RunKeepsAgreement(EMPTY, [], steps, s);
  }

  // ---- A rollback completes -----------------------------------------------

  /** The steps a rollback takes when every message is committed. */
  function RewindSteps(chain: Chain, point: Point): seq<Step> {
    if chain == [] || PointOf(Last(chain)) == point then [Rewind]
    else [Rewind, Commit, Unlink] + RewindSteps(Front(chain), point)
  }

  lemma {:induction false} RunsConcat(s: State, first: seq<Step>, mid: State, second: seq<Step>, end: State)
    requires Runs(s, first, mid) && Runs(mid, second, end)
    ensures Runs(s, first + second, end)
    decreases |first|
  {
    if first == [] {
      assert first + second == second;
    } else {
      assert (first + second)[1..] == first[1..] + second;
      RunsConcat(Next(s, first[0]), first[1..], mid, second, end);
    }
  }

  lemma RewindRound(s: State, chain: Chain, point: Point) returns (end: State)
    requires Agrees(s, chain) && s.phase == Rewinding(point)
    requires chain != [] && PointOf(Last(chain)) != point
    ensures Runs(s, [Rewind, Commit, Unlink], end)
    ensures Agrees(end, Front(chain)) && end.phase == Rewinding(point)
  {
    NewestBlock(s.tip, s.blocks, chain, ALL);
    StepKeepsAgreement(s, chain, Rewind);
    var s1 := Next(s, Rewind);
    CommitKeepsAgreement(s1, chain);
    var s2 := Next(s1, Commit);
    StepKeepsAgreement(s2, chain, Unlink);
    end := Next(s2, Unlink);
    assert Runs(s2, [Unlink], end);
    assert [Commit, Unlink][1..] == [Unlink];
    assert [Rewind, Commit, Unlink][1..] == [Commit, Unlink];
  }

  lemma {:induction false} RewindWalks(s: State, chain: Chain, point: Point) returns (end: State)
    requires Agrees(s, chain) && s.phase == Rewinding(point)
    ensures Runs(s, RewindSteps(chain, point), end)
    ensures end.phase.Idle? && Agrees(end, RollTo(chain, point, ALL))
    decreases |chain|
  {
    if chain == [] || PointOf(Last(chain)) == point {
      NewestBlock(s.tip, s.blocks, chain, ALL);
      StepKeepsAgreement(s, chain, Rewind);
      end := Next(s, Rewind);
      assert RewindSteps(chain, point)[1..] == [];
    } else {
      var mid := RewindRound(s, chain, point);
      end := RewindWalks(mid, Front(chain), point);
      RunsConcat(s, [Rewind, Commit, Unlink], mid, RewindSteps(Front(chain), point), end);
    }
  }

  /** A rollback ends idle, with cache and consumer both at the requested point where it is on the chain, and both
      empty where it is not. */
  lemma RewindCompletes(s: State, chain: Chain, point: Point) returns (end: State)
    requires Agrees(s, chain) && s.phase == Rewinding(point)
    ensures Runs(s, RewindSteps(chain, point), end) && end.phase.Idle?
    ensures forall k :: 0 <= k < |chain| && PointOf(chain[k]) == point ==> Agrees(end, chain[..k + 1])
    ensures (forall k :: 0 <= k < |chain| ==> PointOf(chain[k]) != point) ==> Agrees(end, [])
  {
    end := RewindWalks(s, chain, point);
    RollToCuts(chain, point, ALL);
  }
}
