/** Whole runs of the UTxO monitor: what the table and the event entries hold after any interleaving of
    ledger and mempool updates. */
module UtxoRuns {
  import opened Ledger
  import opened UtxoIndex

  // ---- The table after a run ----------------------------------------------

  /** An update that brings a transaction into the table, from the ledger or from the mempool. */
  predicate Brings(u: Update) {
    u.LedgerApplied? || u.MempoolAccepted?
  }

  /** The slot an update settles its outputs at: none for the mempool. */
  function SettledSlot(u: Update): Option<Slot> {
    match u
    case LedgerApplied(_, slot) => Some(slot)
    case LedgerUnapplied(_) => None
    case MempoolAccepted(_) => None
    case MempoolDropped(_) => None
  }

  /** Update `k` brings the output `r`, and no later update takes its transaction back. */
  ghost predicate Stands(us: seq<Update>, k: nat, r: OutputRef) {
    && k < |us| && Brings(us[k]) && Creates(us[k].tx, r)
    && forall m :: k < m < |us| ==> Brings(us[m]) || !Creates(us[m].tx, r)
  }

  /** Update `k` brings the output `r` and is the last one to do so. */
  ghost predicate StandsLast(us: seq<Update>, k: nat, r: OutputRef) {
    Stands(us, k, r) && forall m :: k < m < |us| ==> !Creates(us[m].tx, r)
  }

  /** Update `k` spends the stored output `r`, and no later update takes back the spending or the output. */
  ghost predicate Spends(us: seq<Update>, k: nat, r: OutputRef) {
    && k < |us| && Brings(us[k]) && r in us[k].tx.inputs && r in HandleAll(map[], us[..k])
    && forall m :: k < m < |us| ==> Brings(us[m]) || !(r in us[m].tx.inputs || Creates(us[m].tx, r))
  }

  lemma StandsPush(us: seq<Update>, u: Update, r: OutputRef)
    ensures (exists k: nat :: Stands(us + [u], k, r)) <==>
      if Brings(u) then Creates(u.tx, r) || (exists k: nat :: Stands(us, k, r))
      else !Creates(u.tx, r) && exists k: nat :: Stands(us, k, r)
  {
    var all := us + [u];
    if k: nat :| Stands(all, k, r) {
      if k < |us| {
        assert all[|us|] == u;
        forall m | k < m < |us| ensures Brings(us[m]) || !Creates(us[m].tx, r) { assert all[m] == us[m]; }
        assert all[k] == us[k];
        assert Stands(us, k, r);
      }
    }
    if k: nat :| Stands(us, k, r) {
      assert all[k] == us[k];
      if Brings(u) || !Creates(u.tx, r) {
        forall m | k < m < |all| ensures Brings(all[m]) || !Creates(all[m].tx, r) {
          if m < |us| { assert all[m] == us[m]; }
        }
        assert Stands(all, k, r);
      }
    }
    if Brings(u) && Creates(u.tx, r) { assert Stands(all, |us|, r); }
  }

  lemma SpendsPush(us: seq<Update>, u: Update, r: OutputRef)
    ensures (exists k: nat :: Spends(us + [u], k, r)) <==>
      if Brings(u) then (r in u.tx.inputs && r in HandleAll(map[], us)) || (exists k: nat :: Spends(us, k, r))
      else !(r in u.tx.inputs || Creates(u.tx, r)) && exists k: nat :: Spends(us, k, r)
  {
    var all := us + [u];
    if k: nat :| Spends(all, k, r) {
      if k < |us| {
        assert all[|us|] == u && all[..k] == us[..k] && all[k] == us[k];
        forall m | k < m < |us| ensures Brings(us[m]) || !(r in us[m].tx.inputs || Creates(us[m].tx, r)) {
          assert all[m] == us[m];
        }
        assert Spends(us, k, r);
      } else {
        assert all[..k] == us;
      }
    }
    if k: nat :| Spends(us, k, r) {
      assert all[k] == us[k] && all[..k] == us[..k];
      if Brings(u) || !(r in u.tx.inputs || Creates(u.tx, r)) {
        forall m | k < m < |all| ensures Brings(all[m]) || !(r in all[m].tx.inputs || Creates(all[m].tx, r)) {
          if m < |us| { assert all[m] == us[m]; }
        }
        assert Spends(all, k, r);
      }
    }
    if Brings(u) && r in u.tx.inputs && r in HandleAll(map[], us) {
      assert all[..|us|] == us;
      assert Spends(all, |us|, r);
    }
  }

  lemma HandleAt(t: Table, u: Update, r: OutputRef)
    ensures r in Handle(t, u) <==> if Brings(u) then r in t || Creates(u.tx, r) else r in t && !Creates(u.tx, r)
    ensures r in Handle(t, u) ==>
      && (Handle(t, u)[r].spent <==> r in t && if Brings(u) then t[r].spent || r in u.tx.inputs
                                               else t[r].spent && r !in u.tx.inputs)
      && (Brings(u) && Creates(u.tx, r) ==>
            Handle(t, u)[r].output == u.tx.outputs[r.index] && Handle(t, u)[r].settledAt == SettledSlot(u))
      && (!Creates(u.tx, r) ==>
            r in t && Handle(t, u)[r].output == t[r].output && Handle(t, u)[r].settledAt == t[r].settledAt)
  {
    KeptIsCreated(u.tx, r);
  }

  /** After every run, an output is stored exactly if some update brought it and none since took its transaction back.
      It is spent exactly if some update spent it and none since took that back. */
  lemma {:induction false} RunTable(us: seq<Update>, r: OutputRef)
    ensures r in HandleAll(map[], us) <==> exists k: nat :: Stands(us, k, r)
    ensures r in HandleAll(map[], us) ==> (HandleAll(map[], us)[r].spent <==> exists k: nat :: Spends(us, k, r))
    decreases |us|
  {
    if us != [] {
      var front, u := us[..|us| - 1], us[|us| - 1];
      assert us == front + [u];
      RunTable(front, r);
      HandleAt(HandleAll(map[], front), u, r);
      StandsPush(front, u, r);
      SpendsPush(front, u, r);
      if r !in HandleAll(map[], front) { NeverSpent(front, r); }
    }
  }

  lemma {:induction false} NeverSpent(us: seq<Update>, r: OutputRef)
    requires r !in HandleAll(map[], us)
    ensures !exists k: nat :: Spends(us, k, r)
    decreases |us|
  {
    if us != [] {
      var front, u := us[..|us| - 1], us[|us| - 1];
      assert us == front + [u];
      HandleAt(HandleAll(map[], front), u, r);
      SpendsPush(front, u, r);
      if r !in HandleAll(map[], front) { NeverSpent(front, r); }
    }
  }

  lemma LastPush(us: seq<Update>, u: Update, k: nat, r: OutputRef)
    requires !Creates(u.tx, r)
    ensures StandsLast(us + [u], k, r) <==> StandsLast(us, k, r)
  {
    var all := us + [u];
    assert all[|us|] == u && forall m :: 0 <= m < |us| ==> all[m] == us[m];
  }

  lemma CreatedIsWatched(tx: Tx, r: OutputRef)
    requires Creates(tx, r)
    ensures Watched(tx.outputs[r.index].address)
  {
    KeptMeaning(tx.outputs, 0);
    KeptIsCreated(tx, r);
  }

  /** `t` is an output that update `u` brought under the name `r`. */
  ghost predicate IsBrought(t: Txo, u: Update, r: OutputRef) {
    r.index < |u.tx.outputs| && t.output == u.tx.outputs[r.index] && t.settledAt == SettledSlot(u)
  }

  /** A stored output is the one of the last update that brought it, at an address without a script, settled at the
      slot of that update if it came from the ledger and unsettled if it came from the mempool. */
  lemma {:induction false} RunOutput(us: seq<Update>, r: OutputRef) returns (k: nat)
    requires r in HandleAll(map[], us)
    ensures StandsLast(us, k, r) && IsBrought(HandleAll(map[], us)[r], us[k], r)
    ensures Watched(HandleAll(map[], us)[r].output.address)
    decreases |us|
  {
    var front, u := us[..|us| - 1], us[|us| - 1];
    assert us == front + [u];
    HandleAt(HandleAll(map[], front), u, r);
    if Creates(u.tx, r) {
      k := |front|;
      CreatedIsWatched(u.tx, r);
    } else {
      k := RunOutput(front, r);
      LastPush(front, u, k, r);
    }
  }

  // ---- The event entries after an undone transaction -----------------------

  /** An entry of a stored input at the slot it is spent at. */
  ghost predicate SpendEntry(key: EventKey, t: Table, tx: Tx, slot: Option<Slot>) {
    key.oref in tx.inputs && key.oref in t && IsEntry(key, key.oref, t[key.oref].output, slot)
  }

  /** An entry of a created output at the slot it settles at. */
  ghost predicate CreateEntry(key: EventKey, tx: Tx, slot: Option<Slot>) {
    Creates(tx, key.oref) && IsEntry(key, key.oref, tx.outputs[key.oref.index], slot)
  }

  /** Applying a transaction and taking it back, as it bears on one event entry. */
  ghost predicate AppliedAndUndone(key: EventKey, events: set<EventKey>, applied: set<EventKey>, undone: set<EventKey>,
                                   t: Table, tx: Tx, slot: Option<Slot>)
  {
    && (key in applied <==> AppliedEntry(key, events, t, tx, slot))
    && (key in undone <==> UnappliedEntry(key, applied, ApplyTx(t, tx, slot), tx))
  }

  /** Taking a transaction back leaves the entries its inputs got when they were spent. */
  lemma UndoneEntry(key: EventKey, events: set<EventKey>, applied: set<EventKey>, undone: set<EventKey>, t: Table,
                    tx: Tx, slot: Option<Slot>)
    requires Fresh(t, tx) && EventsCover(events, t)
    requires AppliedAndUndone(key, events, applied, undone, t, tx, slot)
    ensures key in undone <==> (key in events && !CreateEntry(key, tx, slot)) || SpendEntry(key, t, tx, slot)
  {
    var r := key.oref;
    KeptIsCreated(tx, r);
    if r in t {
      assert forall kind, c :: Carries(t[r].output.address, kind, c) ==> Covered(events, kind, c, r, t[r]);
    }
  }

  /** The event entries are as before exactly if every stored input already had its entries at that slot, and no
      created output did. */
  lemma UndoKeepsEvents(events: set<EventKey>, applied: set<EventKey>, undone: set<EventKey>, t: Table, tx: Tx,
                        slot: Option<Slot>)
    requires Fresh(t, tx) && EventsCover(events, t)
    requires forall key :: AppliedAndUndone(key, events, applied, undone, t, tx, slot)
    ensures undone == events <==>
      forall key :: (SpendEntry(key, t, tx, slot) ==> key in events) && (CreateEntry(key, tx, slot) ==> key !in events)
  {
    forall key
      ensures key in undone <==> (key in events && !CreateEntry(key, tx, slot)) || SpendEntry(key, t, tx, slot)
    {
      assert AppliedAndUndone(key, events, applied, undone, t, tx, slot);
      UndoneEntry(key, events, applied, undone, t, tx, slot);
    }
    forall key | SpendEntry(key, t, tx, slot) ensures !CreateEntry(key, tx, slot) {}
  }

  /** The same at the index: table and unspent indexes are always as before, the event entries exactly on the
      condition above. */
  method ApplyAndUndo(index: Index, tx: Tx, slot: Option<Slot>)
    requires index.Valid() && Fresh(index.txo, tx)
    modifies index
    ensures index.Valid() && index.txo == old(index.txo) && index.unspent == old(index.unspent)
    ensures forall key :: key in index.events <==>
      (key in old(index.events) && !CreateEntry(key, tx, slot)) || SpendEntry(key, old(index.txo), tx, slot)
    ensures index.events == old(index.events) <==>
      forall key :: (SpendEntry(key, old(index.txo), tx, slot) ==> key in old(index.events))
                 && (CreateEntry(key, tx, slot) ==> key !in old(index.events))
  {
    ghost var t, events := index.txo, index.events;
    index.Apply(tx, slot);
    ghost var applied := index.events;
    index.Unapply(tx);
    UnapplyUndoesApply(t, tx, slot);
    UnspentDetermined(index.unspent, old(index.unspent), t);
    forall key ensures AppliedAndUndone(key, events, applied, index.events, t, tx, slot) {}
    forall key
      ensures key in index.events <==> (key in events && !CreateEntry(key, tx, slot)) || SpendEntry(key, t, tx, slot)
    {
      UndoneEntry(key, events, applied, index.events, t, tx, slot);
    }
    UndoKeepsEvents(events, applied, index.events, t, tx, slot);
  }

  /** An output that settled at slot 1 and is not spent, with an entry at slot 2, where a transaction spent it and was
      taken back. */
  method UndoLeavesEntry(payer: Hash, funding: Hash, spending: Hash) returns (index: Index)
    requires funding != spending
    ensures fresh(index) && index.Valid()
    ensures var r := OutputRef(funding, 0);
      && r in index.txo && index.txo[r].settledAt == Some(1) && !index.txo[r].spent
      && EventKey(Payment, PubKey(payer), Some(2), r) in index.events
  {
    index := new Index();
    var r := OutputRef(funding, 0);
    var fund := Tx(funding, [], [Output(Enterprise(PubKey(payer)), 0)]);
    var spend := Tx(spending, [r], []);
    index.Apply(fund, Some(1));
    assert Creates(fund, r);
    KeptIsCreated(fund, r);
    ghost var key := EventKey(Payment, PubKey(payer), Some(2), r);
    assert SpendEntry(key, index.txo, spend, Some(2));
    ApplyAndUndo(index, spend, Some(2));
  }
}
