/** Model of cardano-utxo-monitor/src/index.rs and handler.rs: a table of outputs and
    secondary indexes over payment and stake credentials. */
module UtxoIndex {
  import opened Ledger

  datatype Kind = Payment | Stake

  datatype Txo = Txo(output: Output, settledAt: Option<Slot>, spent: bool)

  /** The primary table. */
  type Table = map<OutputRef, Txo>

  datatype UnspentKey = UnspentKey(kind: Kind, credential: Credential, oref: OutputRef)
  datatype EventKey = EventKey(kind: Kind, credential: Credential, slot: Option<Slot>, oref: OutputRef)

  function AddressCredentials(a: Address): seq<(Kind, Credential)> {
    match a
    case Base(payment, stake) => [(Payment, payment), (Stake, stake)]
    case Enterprise(payment) => [(Payment, payment)]
    case Ptr(payment) => [(Payment, payment)]
    case Reward(payment) => [(Stake, payment)]
    case Byron => []
  }

  /** Whether an address pays to a credential, or stakes to it. */
  ghost predicate Carries(a: Address, kind: Kind, c: Credential) {
    match kind
    case Payment => (a.Base? || a.Enterprise? || a.Ptr?) && a.payment == c
    case Stake => (a.Base? && a.stake == c) || (a.Reward? && a.payment == c)
  }

  /** The credentials an output is indexed under are the ones its address carries. */
  lemma CredentialsAreCarried(a: Address)
    ensures forall kind, c :: (kind, c) in AddressCredentials(a) <==> Carries(a, kind, c)
  {
  }

  /** `apply_tx` and `unapply_tx` leave out outputs at script addresses. */
  predicate AtScript(a: Address) {
    !a.Byron? && a.payment.Script?
  }

  /** An address without a script: its payment part, where it has one, is a key. */
  ghost predicate Watched(a: Address) {
    match a
    case Byron => true
    case Base(payment, _) => payment.PubKey?
    case Enterprise(payment) => payment.PubKey?
    case Ptr(payment) => payment.PubKey?
    case Reward(payment) => payment.PubKey?
  }

  /** Indexed outputs of a transaction that reach the index. */
  function Kept(outputs: seq<Output>, from: nat): seq<(nat, Output)>
    decreases |outputs| - from
  {
    if from >= |outputs| then [] else
    (if AtScript(outputs[from].address) then [] else [(from, outputs[from])]) + Kept(outputs, from + 1)
  }

  /** `oref` names an output of `tx` that reaches the index. */
  predicate Creates(tx: Tx, oref: OutputRef) {
    oref.hash == tx.hash && oref.index < |tx.outputs| && !AtScript(tx.outputs[oref.index].address)
  }

  function CreatedRefs(tx: Tx): set<OutputRef> {
    set k | 0 <= k < |tx.outputs| && Creates(tx, OutputRef(tx.hash, k)) :: OutputRef(tx.hash, k)
  }

  // ---- What the operations mean -------------------------------------------

  /** Inputs become spent; outputs are stored with the given slot, and keep the spent
      flag they already have. */
  function ApplyTx(t: Table, tx: Tx, slot: Option<Slot>): Table {
    map r | r in t.Keys + CreatedRefs(tx) ::
      var spent := r in t && (t[r].spent || r in tx.inputs);
      if Creates(tx, r) then Txo(tx.outputs[r.index], slot, spent) else t[r].(spent := spent)
  }

  /** Inputs become unspent, outputs disappear. */
  function UnapplyTx(t: Table, tx: Tx): Table {
    map r | r in t.Keys && !Creates(tx, r) :: t[r].(spent := t[r].spent && r !in tx.inputs)
  }

  ghost predicate UnspentAgrees(unspent: set<UnspentKey>, txo: Table) {
    forall key :: key in unspent <==>
      && key.oref in txo && !txo[key.oref].spent
      && Carries(txo[key.oref].output.address, key.kind, key.credential)
  }

  /** Every stored output has an event entry under each of its credentials, and an unspent one has it at the slot it
      settled at. */
  ghost predicate EventsCover(events: set<EventKey>, txo: Table) {
    forall r, kind, c :: r in txo && Carries(txo[r].output.address, kind, c) ==> Covered(events, kind, c, r, txo[r])
  }

  ghost predicate Covered(events: set<EventKey>, kind: Kind, c: Credential, r: OutputRef, t: Txo) {
    HasEvent(events, kind, c, r) && (!t.spent ==> EventKey(kind, c, t.settledAt, r) in events)
  }

  ghost predicate HasEvent(events: set<EventKey>, kind: Kind, c: Credential, r: OutputRef) {
    exists slot :: EventKey(kind, c, slot, r) in events
  }

  /** An event entry of an output, at a slot, under one of the credentials of its address. */
  ghost predicate IsEntry(key: EventKey, r: OutputRef, output: Output, slot: Option<Slot>) {
    key.oref == r && key.slot == slot && Carries(output.address, key.kind, key.credential)
  }

  /** The event entries once the spent flag of a stored output is set: those at its own slot give way to those at the
      slot it is spent at, or come back where it is not spent. */
  ghost predicate Moved(key: EventKey, events: set<EventKey>, r: OutputRef, t: Txo, spent: bool, slot: Option<Slot>) {
    || IsEntry(key, r, t.output, if spent then slot else t.settledAt)
    || (key in events && !IsEntry(key, r, t.output, t.settledAt))
  }

  /** The event entries once an output is deleted: those at its own slot are gone. */
  ghost predicate Remains(key: EventKey, events: set<EventKey>, r: OutputRef, txo: Table) {
    key in events && !(r in txo && IsEntry(key, r, txo[r].output, txo[r].settledAt))
  }

  /** The event entries once the spent flag of the inputs of a transaction is set. */
  ghost predicate Flagged(key: EventKey, events: set<EventKey>, txo: Table, inputs: seq<OutputRef>, spent: bool,
                          slot: Option<Slot>)
  {
    if key.oref in inputs && key.oref in txo
    then Moved(key, events, key.oref, txo[key.oref], spent, slot)
    else key in events
  }

  /** An event entry that is not one of a stored output at its own slot. */
  ghost predicate Stale(key: EventKey, txo: Table) {
    !(key.oref in txo && IsEntry(key, key.oref, txo[key.oref].output, txo[key.oref].settledAt))
  }

  /** The event entries after `apply`: stored inputs move to the slot they are spent at, and created outputs have
      entries at the slot they settled at. */
  ghost predicate AppliedEntry(key: EventKey, events: set<EventKey>, txo: Table, tx: Tx, slot: Option<Slot>) {
    var flagged := Flagged(key, events, txo, tx.inputs, true, slot);
    if Creates(tx, key.oref)
    then IsEntry(key, key.oref, tx.outputs[key.oref.index], slot) || (flagged && Stale(key, txo))
    else flagged
  }

  /** The event entries after `unapply`: stored inputs have entries at their own slot again, and created outputs have
      none at theirs. */
  ghost predicate UnappliedEntry(key: EventKey, events: set<EventKey>, txo: Table, tx: Tx) {
    var flagged := Flagged(key, events, txo, tx.inputs, false, None);
    if Creates(tx, key.oref) then flagged && Stale(key, txo) else flagged
  }

  // ---- The database -------------------------------------------------------

  class Index {
    var txo: Table
    var unspent: set<UnspentKey>
    var events: set<EventKey>

    /** The unspent indexes hold exactly the stored unspent outputs, under each of their
        credentials, and the event indexes miss no stored output. */
    ghost predicate Valid()
      reads this
    {
      UnspentAgrees(unspent, txo) && EventsCover(events, txo)
    }

    constructor ()
      ensures Valid() && txo == map[]
    {
      txo, unspent, events := map[], {}, {};
    }

    method DeleteIndexes(kind: Kind, credential: Credential, settledAt: Option<Slot>, oref: OutputRef)
      modifies this`unspent, this`events
      ensures unspent == old(unspent) - {UnspentKey(kind, credential, oref)}
      ensures events == old(events) - {EventKey(kind, credential, settledAt, oref)}
    {
      events := events - {EventKey(kind, credential, settledAt, oref)};
      unspent := unspent - {UnspentKey(kind, credential, oref)};
    }

    method WriteSecondaryIndexes(kind: Kind, credential: Credential, oref: OutputRef, slot: Option<Slot>, spent: bool)
      modifies this`unspent, this`events
      ensures unspent == old(unspent) + if spent then {} else {UnspentKey(kind, credential, oref)}
      ensures events == old(events) + {EventKey(kind, credential, slot, oref)}
    {
      events := events + {EventKey(kind, credential, slot, oref)};
      if !spent {
        unspent := unspent + {UnspentKey(kind, credential, oref)};
      }
    }

    /** `update_txo_by_ref`: sets the spent flag of a stored output. */
    method UpdateTxoByRef(oref: OutputRef, slot: Option<Slot>, spent: bool)
      requires Valid()
      modifies this
      ensures Valid()
      ensures txo == if oref in old(txo) then old(txo)[oref := old(txo)[oref].(spent := spent)] else old(txo)
      ensures forall key :: key in events <==>
        if oref in old(txo) then Moved(key, old(events), oref, old(txo)[oref], spent, slot) else key in old(events)
    {
      if oref in txo {
        var t := txo[oref];
        CredentialsAreCarried(t.output.address);
        var credentials := AddressCredentials(t.output.address);
        var indexSlot := if spent then slot else t.settledAt;
        for k := 0 to |credentials|
          modifies this`unspent, this`events
          invariant forall key :: key in unspent <==>
            if key.oref == oref && (key.kind, key.credential) in credentials[..k] then !spent else key in old(unspent)
          invariant forall key :: key in events <==>
            if key.oref == oref && (key.kind, key.credential) in credentials[..k]
            then key.slot == indexSlot || (key in old(events) && key.slot != t.settledAt)
            else key in old(events)
        {
          DeleteIndexes(credentials[k].0, credentials[k].1, t.settledAt, oref);
          WriteSecondaryIndexes(credentials[k].0, credentials[k].1, oref, indexSlot, spent);
        }
        assert credentials[..|credentials|] == credentials;
        txo := txo[oref := t.(spent := spent)];
        EventsStillCover(old(events), events, old(txo), txo, oref, indexSlot);
      }
    }

    /** `update_unspent_txo`: stores an output, replacing an entry it may already have. */
    method UpdateUnspentTxo(oref: OutputRef, output: Output, settledAt: Option<Slot>)
      requires Valid()
      modifies this
      ensures Valid()
      ensures txo == old(txo)[oref := Txo(output, settledAt, oref in old(txo) && old(txo)[oref].spent)]
      ensures forall key :: key in events <==>
        IsEntry(key, oref, output, settledAt) || Remains(key, old(events), oref, old(txo))
    {
      var credentials := AddressCredentials(output.address);
      CredentialsAreCarried(output.address);
      var spent := false;
      if oref in txo {
        spent := txo[oref].spent;
        DeleteTxoAndIndexes(oref);
      }
      ghost var unspent0, events0, txo0 := unspent, events, txo;
      for k := 0 to |credentials|
        modifies this`unspent, this`events
        invariant forall key :: key in unspent <==>
          key in unspent0 || (!spent && key.oref == oref && (key.kind, key.credential) in credentials[..k])
        invariant forall key :: key in events <==>
          key in events0
          || (key.oref == oref && key.slot == settledAt && (key.kind, key.credential) in credentials[..k])
      {
        WriteSecondaryIndexes(credentials[k].0, credentials[k].1, oref, settledAt, spent);
      }
      assert credentials[..|credentials|] == credentials;
      txo := txo[oref := Txo(output, settledAt, spent)];
      EventsStillCover(events0, events, txo0, txo, oref, settledAt);
    }

    /** `delete_txo_and_indexes`. */
    method DeleteTxoAndIndexes(oref: OutputRef)
      requires Valid()
      modifies this
      ensures Valid()
      ensures txo == old(txo) - {oref}
      ensures forall key :: key in events <==> Remains(key, old(events), oref, old(txo))
    {
      if oref in txo {
        CredentialsAreCarried(txo[oref].output.address);
        var credentials, settledAt := AddressCredentials(txo[oref].output.address), txo[oref].settledAt;
        for k := 0 to |credentials|
          modifies this`unspent, this`events
          invariant forall key :: key in unspent <==>
            key in old(unspent) && !(key.oref == oref && (key.kind, key.credential) in credentials[..k])
          invariant forall key :: key in events <==>
            && key in old(events)
            && !(key.oref == oref && key.slot == settledAt && (key.kind, key.credential) in credentials[..k])
        {
          DeleteIndexes(credentials[k].0, credentials[k].1, settledAt, oref);
        }
        assert credentials[..|credentials|] == credentials;
        txo := txo - {oref};
        EventsStillCover(old(events), events, old(txo), txo, oref, None);
      }
    }

    method SpendAll(inputs: seq<OutputRef>, slot: Option<Slot>)
      requires Valid()
      modifies this
      ensures Valid() && txo == SpendInputs(old(txo), inputs)
      ensures forall key :: key in events <==> Flagged(key, old(events), old(txo), inputs, true, slot)
    {
      for k := 0 to |inputs|
        invariant Valid() && txo == SpendInputs(old(txo), inputs[..k])
        invariant forall key :: key in events <==> Flagged(key, old(events), old(txo), inputs[..k], true, slot)
      {
        UpdateTxoByRef(inputs[k], slot, true);
        assert inputs[..k + 1] == inputs[..k] + [inputs[k]];
      }
      assert inputs[..|inputs|] == inputs;
    }

    method RestoreAll(inputs: seq<OutputRef>)
      requires Valid()
      modifies this
      ensures Valid() && txo == RestoreInputs(old(txo), inputs)
      ensures forall key :: key in events <==> Flagged(key, old(events), old(txo), inputs, false, None)
    {
      for k := 0 to |inputs|
        invariant Valid() && txo == RestoreInputs(old(txo), inputs[..k])
        invariant forall key :: key in events <==> Flagged(key, old(events), old(txo), inputs[..k], false, None)
      {
        UpdateTxoByRef(inputs[k], None, false);
        assert inputs[..k + 1] == inputs[..k] + [inputs[k]];
      }
      assert inputs[..|inputs|] == inputs;
    }

    method StoreAll(hash: Hash, kept: seq<(nat, Output)>, slot: Option<Slot>, ghost outputs: seq<Output>)
      requires Valid() && Indexed(kept, outputs)
      modifies this
      ensures Valid() && txo == StoreOutputs(old(txo), hash, kept, slot)
      ensures forall key :: key in events <==> StoredEntry(key, old(events), old(txo), hash, kept, outputs, slot)
    {
      for k := 0 to |kept|
        invariant Valid() && txo == StoreOutputs(old(txo), hash, kept[..k], slot)
        invariant forall key :: key in events <==>
          StoredEntry(key, old(events), old(txo), hash, kept[..k], outputs, slot)
      {
        ghost var before := events;
        StoreMeaning(old(txo), hash, outputs, kept[..k], slot);
        UpdateUnspentTxo(OutputRef(hash, kept[k].0), kept[k].1, slot);
        assert kept[..k + 1] == kept[..k] + [kept[k]];
      }
      assert kept[..|kept|] == kept;
    }

    method RemoveAll(hash: Hash, kept: seq<(nat, Output)>)
      requires Valid()
      modifies this
      ensures Valid() && txo == RemoveOutputs(old(txo), hash, kept)
      ensures forall key :: key in events <==> RemovedEntry(key, old(events), old(txo), hash, kept)
    {
      for k := 0 to |kept|
        invariant Valid() && txo == RemoveOutputs(old(txo), hash, kept[..k])
        invariant forall key :: key in events <==> RemovedEntry(key, old(events), old(txo), hash, kept[..k])
      {
        DeleteTxoAndIndexes(OutputRef(hash, kept[k].0));
        assert kept[..k + 1] == kept[..k] + [kept[k]];
      }
      assert kept[..|kept|] == kept;
    }

    /** `apply`, called by the handler with the outputs it keeps. */
    method Apply(tx: Tx, slot: Option<Slot>)
      requires Valid()
      modifies this
      ensures Valid()
      ensures txo == ApplyTx(old(txo), tx, slot)
      ensures forall key :: key in events <==> AppliedEntry(key, old(events), old(txo), tx, slot)
    {
      SpendAll(tx.inputs, slot);
      ghost var events0 := events;
      KeptIndexed(tx.outputs);
      StoreAll(tx.hash, Kept(tx.outputs, 0), slot, tx.outputs);
      ApplyMeaning(old(txo), tx, slot);
      forall key ensures key in events <==> AppliedEntry(key, old(events), old(txo), tx, slot) {
        AppliedEntries(key, old(events), events0, old(txo), tx, slot);
      }
    }

    /** `unapply`. */
    method Unapply(tx: Tx)
      requires Valid()
      modifies this
      ensures Valid()
      ensures txo == UnapplyTx(old(txo), tx)
      ensures forall key :: key in events <==> UnappliedEntry(key, old(events), old(txo), tx)
    {
      RestoreAll(tx.inputs);
      ghost var events0 := events;
      RemoveAll(tx.hash, Kept(tx.outputs, 0));
      UnapplyMeaning(old(txo), tx);
      forall key ensures key in events <==> UnappliedEntry(key, old(events), old(txo), tx) {
        UnappliedEntries(key, old(events), events0, old(txo), tx);
      }
    }
  }

  // ---- The loops, as functions of the part already done -------------------

  function SpendInputs(t: Table, inputs: seq<OutputRef>): Table {
    map r | r in t :: t[r].(spent := t[r].spent || r in inputs)
  }

  function RestoreInputs(t: Table, inputs: seq<OutputRef>): Table {
    map r | r in t :: t[r].(spent := t[r].spent && r !in inputs)
  }

  function StoreOutputs(t: Table, hash: Hash, kept: seq<(nat, Output)>, slot: Option<Slot>): Table {
    if kept == [] then t else
    var before := StoreOutputs(t, hash, kept[..|kept| - 1], slot);
    var r := OutputRef(hash, kept[|kept| - 1].0);
    before[r := Txo(kept[|kept| - 1].1, slot, r in before && before[r].spent)]
  }

  function RemoveOutputs(t: Table, hash: Hash, kept: seq<(nat, Output)>): Table {
    map r | r in t && !(exists k :: 0 <= k < |kept| && r == OutputRef(hash, kept[k].0)) :: t[r]
  }

  lemma {:induction false} KeptMeaning(outputs: seq<Output>, from: nat)
    ensures forall k :: 0 <= k < |Kept(outputs, from)| ==>
      var (ix, o) := Kept(outputs, from)[k]; from <= ix < |outputs| && o == outputs[ix] && Watched(o.address)
    ensures forall ix :: from <= ix < |outputs| && Watched(outputs[ix].address) ==>
      (ix, outputs[ix]) in Kept(outputs, from)
    decreases |outputs| - from
  {
    if from < |outputs| { KeptMeaning(outputs, from + 1); }
  }

  /** `r` names one of the kept outputs of the transaction with hash `hash`. */
  ghost predicate NamesKept(r: OutputRef, hash: Hash, outputs: seq<Output>, kept: seq<(nat, Output)>) {
    r.hash == hash && r.index < |outputs| && (r.index, outputs[r.index]) in kept
  }

  lemma {:induction false} StoreMeaning(t: Table, hash: Hash, outputs: seq<Output>, kept: seq<(nat, Output)>,
                                        slot: Option<Slot>)
    requires Indexed(kept, outputs)
    ensures var s := StoreOutputs(t, hash, kept, slot);
      && (forall r :: r in s <==> r in t || NamesKept(r, hash, outputs, kept))
      && (forall r :: r in s ==>
            s[r] == if NamesKept(r, hash, outputs, kept)
                    then Txo(outputs[r.index], slot, r in t && t[r].spent)
                    else t[r])
    decreases |kept|
  {
    if kept != [] {
      StoreMeaning(t, hash, outputs, kept[..|kept| - 1], slot);
      assert kept == kept[..|kept| - 1] + [kept[|kept| - 1]];
    }
  }

  ghost predicate Indexed(kept: seq<(nat, Output)>, outputs: seq<Output>) {
    forall k :: 0 <= k < |kept| ==> kept[k].0 < |outputs| && kept[k].1 == outputs[kept[k].0]
  }

  lemma KeptIndexed(outputs: seq<Output>)
    ensures Indexed(Kept(outputs, 0), outputs)
  {
    KeptMeaning(outputs, 0);
  }

  /** The event entries once some of the kept outputs are stored. */
  ghost predicate StoredEntry(key: EventKey, events: set<EventKey>, txo: Table, hash: Hash, kept: seq<(nat, Output)>,
                              outputs: seq<Output>, slot: Option<Slot>)
  {
    if NamesKept(key.oref, hash, outputs, kept)
    then IsEntry(key, key.oref, outputs[key.oref.index], slot) || (key in events && Stale(key, txo))
    else key in events
  }

  /** The event entries once some of the kept outputs are removed. */
  ghost predicate RemovedEntry(key: EventKey, events: set<EventKey>, txo: Table, hash: Hash, kept: seq<(nat, Output)>) {
    key in events && ((exists k :: 0 <= k < |kept| && key.oref == OutputRef(hash, kept[k].0)) ==> Stale(key, txo))
  }

  lemma AppliedEntries(key: EventKey, events: set<EventKey>, flagged: set<EventKey>, txo: Table, tx: Tx,
                       slot: Option<Slot>)
    requires key in flagged <==> Flagged(key, events, txo, tx.inputs, true, slot)
    ensures StoredEntry(key, flagged, SpendInputs(txo, tx.inputs), tx.hash, Kept(tx.outputs, 0), tx.outputs, slot) <==>
      AppliedEntry(key, events, txo, tx, slot)
  {
    KeptIsCreated(tx, key.oref);
  }

  lemma UnappliedEntries(key: EventKey, events: set<EventKey>, flagged: set<EventKey>, txo: Table, tx: Tx)
    requires key in flagged <==> Flagged(key, events, txo, tx.inputs, false, None)
    ensures RemovedEntry(key, flagged, RestoreInputs(txo, tx.inputs), tx.hash, Kept(tx.outputs, 0)) <==>
      UnappliedEntry(key, events, txo, tx)
  {
    KeptIsCreated(tx, key.oref);
    KeptIndexed(tx.outputs);
    var kept := Kept(tx.outputs, 0);
    forall k | 0 <= k < |kept| && key.oref == OutputRef(tx.hash, kept[k].0) ensures Creates(tx, key.oref) {
      assert kept[k] in kept;
    }
    if Creates(tx, key.oref) {
      var k :| 0 <= k < |kept| && kept[k] == (key.oref.index, tx.outputs[key.oref.index]);
      assert key.oref == OutputRef(tx.hash, kept[k].0);
    }
  }

  lemma KeptIsCreated(tx: Tx, r: OutputRef)
    ensures Creates(tx, r) <==>
      r.hash == tx.hash && r.index < |tx.outputs| && (r.index, tx.outputs[r.index]) in Kept(tx.outputs, 0)
    ensures Creates(tx, r) <==> r in CreatedRefs(tx)
  {
    KeptMeaning(tx.outputs, 0);
  }

  lemma ApplyMeaningAt(t: Table, tx: Tx, slot: Option<Slot>, r: OutputRef)
    ensures var stored := StoreOutputs(SpendInputs(t, tx.inputs), tx.hash, Kept(tx.outputs, 0), slot);
      && (r in stored <==> r in t || Creates(tx, r))
      && (r in stored ==> stored[r] == ApplyTx(t, tx, slot)[r])
  {
    var kept := Kept(tx.outputs, 0);
    KeptIndexed(tx.outputs);
    StoreMeaning(SpendInputs(t, tx.inputs), tx.hash, tx.outputs, kept, slot);
    KeptIsCreated(tx, r);
  }

  lemma ApplyMeaning(t: Table, tx: Tx, slot: Option<Slot>)
    ensures StoreOutputs(SpendInputs(t, tx.inputs), tx.hash, Kept(tx.outputs, 0), slot) == ApplyTx(t, tx, slot)
  {
    var stored := StoreOutputs(SpendInputs(t, tx.inputs), tx.hash, Kept(tx.outputs, 0), slot);
    forall r ensures r in stored <==> r in ApplyTx(t, tx, slot) {
      ApplyMeaningAt(t, tx, slot, r);
      KeptIsCreated(tx, r);
    }
    forall r | r in stored ensures stored[r] == ApplyTx(t, tx, slot)[r] { ApplyMeaningAt(t, tx, slot, r); }
  }

  lemma UnapplyMeaning(t: Table, tx: Tx)
    ensures RemoveOutputs(RestoreInputs(t, tx.inputs), tx.hash, Kept(tx.outputs, 0)) == UnapplyTx(t, tx)
  {
    KeptMeaning(tx.outputs, 0);
  }

  /** Event entries of other outputs are kept, and the changed output has its own. */
  lemma EventsStillCover(events: set<EventKey>, events': set<EventKey>, t: Table, t': Table, oref: OutputRef,
                         slot: Option<Slot>)
    requires EventsCover(events, t)
    requires forall key :: key in events && key.oref != oref ==> key in events'
    requires forall r :: r in t' && r != oref ==> r in t && t'[r] == t[r]
    requires oref in t' && !t'[oref].spent ==> slot == t'[oref].settledAt
    requires oref in t' ==>
      forall kind, c :: Carries(t'[oref].output.address, kind, c) ==> EventKey(kind, c, slot, oref) in events'
    ensures EventsCover(events', t')
  {
    forall r, kind, c | r in t' && Carries(t'[r].output.address, kind, c)
      ensures Covered(events', kind, c, r, t'[r])
    {
      if r == oref {
        assert EventKey(kind, c, slot, r) in events';
      } else {
        assert Covered(events, kind, c, r, t[r]);
        var s :| EventKey(kind, c, s, r) in events;
        assert EventKey(kind, c, s, r) in events';
      }
    }
  }

  // ---- Interleavings ------------------------------------------------------

  /** What reaches the handler: ledger and mempool updates. */
  datatype Update =
    | LedgerApplied(tx: Tx, slot: Slot)
    | LedgerUnapplied(tx: Tx)
    | MempoolAccepted(tx: Tx)
    | MempoolDropped(tx: Tx)

  function Handle(t: Table, u: Update): Table {
    match u
    case LedgerApplied(tx, slot) => ApplyTx(t, tx, Some(slot))
    case LedgerUnapplied(tx) => UnapplyTx(t, tx)
    case MempoolAccepted(tx) => ApplyTx(t, tx, None)
    case MempoolDropped(tx) => UnapplyTx(t, tx)
  }

  function HandleAll(t: Table, us: seq<Update>): Table {
    if us == [] then t else Handle(HandleAll(t, us[..|us| - 1]), us[|us| - 1])
  }

  lemma {:induction false} HandleAllConcat(t: Table, u1: seq<Update>, u2: seq<Update>)
    ensures HandleAll(t, u1 + u2) == HandleAll(HandleAll(t, u1), u2)
    decreases |u2|
  {
    if u2 == [] {
      assert u1 + u2 == u1;
    } else {
      assert (u1 + u2)[..|u1 + u2| - 1] == u1 + u2[..|u2| - 1];
      HandleAllConcat(t, u1, u2[..|u2| - 1]);
    }
  }

  lemma HandleAllPush(t: Table, us: seq<Update>, k: nat)
    requires k < |us|
    ensures HandleAll(t, us[..k + 1]) == Handle(HandleAll(t, us[..k]), us[k])
  {
    assert us[..k + 1][..k] == us[..k];
  }

  /** One update at the index. */
  method RunUpdate(index: Index, u: Update)
    requires index.Valid()
    modifies index
    ensures index.Valid() && index.txo == Handle(old(index.txo), u)
  {
    match u
    case LedgerApplied(tx, slot) => index.Apply(tx, Some(slot));
    case LedgerUnapplied(tx) => index.Unapply(tx);
    case MempoolAccepted(tx) => index.Apply(tx, None);
    case MempoolDropped(tx) => index.Unapply(tx);
  }

  /** Any interleaving of updates leaves the indexes in agreement with the table. */
  method RunHandler(index: Index, us: seq<Update>)
    requires index.Valid()
    modifies index
    ensures index.Valid()
    ensures index.txo == HandleAll(old(index.txo), us)
  {
    for k := 0 to |us|
      invariant index.Valid()
      invariant index.txo == HandleAll(old(index.txo), us[..k])
    {
      HandleAllPush(old(index.txo), us, k);
      RunUpdate(index, us[k]);
    }
    assert us[..|us|] == us;
  }

  /** The unspent indexes are determined by the table. */
  lemma UnspentDetermined(u: set<UnspentKey>, u': set<UnspentKey>, t: Table)
    requires UnspentAgrees(u, t) && UnspentAgrees(u', t)
    ensures u == u'
  {
    forall key ensures key in u <==> key in u' {}
  }

  // ---- Undo ---------------------------------------------------------------

  /** What a transaction must find in the table for its application to be undone by `UnapplyTx`. */
  predicate Fresh(t: Table, tx: Tx) {
    forall r :: r in t ==> !Creates(tx, r) && (r in tx.inputs ==> !t[r].spent)
  }

  /** Unapplying undoes applying exactly when the transaction creates no stored output
      and spends no output that is spent already. */
  lemma UnapplyUndoesApply(t: Table, tx: Tx, slot: Option<Slot>)
    ensures UnapplyTx(ApplyTx(t, tx, slot), tx) == t <==> Fresh(t, tx)
  {
    var u := UnapplyTx(ApplyTx(t, tx, slot), tx);
    if Fresh(t, tx) {
      forall r ensures r in u <==> r in t { KeptIsCreated(tx, r); }
      forall r | r in t ensures u[r] == t[r] {}
    } else {
      var r :| r in t && !(!Creates(tx, r) && (r in tx.inputs ==> !t[r].spent));
      if Creates(tx, r) {
        assert r !in u;
      } else {
        assert !u[r].spent && t[r].spent;
      }
    }
  }

  /** A transaction with the slot it settled at. */
  type Settled = (Tx, Slot)

  function ApplyAll(t: Table, txs: seq<Settled>): Table {
    if txs == [] then t else
    var (tx, slot) := txs[|txs| - 1];
    ApplyTx(ApplyAll(t, txs[..|txs| - 1]), tx, Some(slot))
  }

  lemma ApplyAllPush(t: Table, txs: seq<Settled>, x: Settled)
    ensures ApplyAll(t, txs + [x]) == ApplyTx(ApplyAll(t, txs), x.0, Some(x.1))
  {
    assert (txs + [x])[..|txs|] == txs;
  }

  /** A ledger history: transactions are distinct and no output is spent twice. */
  ghost predicate LedgerHistory(txs: seq<Settled>) {
    forall i, j :: 0 <= i < j < |txs| ==>
      txs[i].0.hash != txs[j].0.hash && forall r :: r in txs[i].0.inputs ==> r !in txs[j].0.inputs
  }

  lemma LedgerPrefix(txs: seq<Settled>, k: nat)
    requires LedgerHistory(txs) && k <= |txs|
    ensures LedgerHistory(txs[..k])
  {
  }

  lemma {:induction false} HistoryTable(txs: seq<Settled>, r: OutputRef)
    ensures r in ApplyAll(map[], txs) ==> exists i :: 0 <= i < |txs| && txs[i].0.hash == r.hash
    ensures r in ApplyAll(map[], txs) && ApplyAll(map[], txs)[r].spent ==>
      exists i :: 0 <= i < |txs| && r in txs[i].0.inputs
  {
    if txs != [] {
      var front, last := txs[..|txs| - 1], txs[|txs| - 1].0;
      HistoryTable(front, r);
      KeptIsCreated(last, r);
      assert forall i :: 0 <= i < |front| ==> front[i] == txs[i];
      assert txs[|txs| - 1].0 == last;
    }
  }

  /** Over a ledger history, unapplying the latest transaction restores the table before it. */
  lemma UndoLatest(txs: seq<Settled>)
    requires LedgerHistory(txs) && txs != []
    ensures UnapplyTx(ApplyAll(map[], txs), txs[|txs| - 1].0) == ApplyAll(map[], txs[..|txs| - 1])
  {
    var front, tx := txs[..|txs| - 1], txs[|txs| - 1].0;
    var t := ApplyAll(map[], front);
    forall r | r in t ensures !Creates(tx, r) && (r in tx.inputs ==> !t[r].spent) {
      HistoryTable(front, r);
      assert forall i :: 0 <= i < |front| ==> front[i] == txs[i];
    }
    UnapplyUndoesApply(t, tx, Some(txs[|txs| - 1].1));
  }

  // ---- Confirmation -------------------------------------------------------

  ghost predicate Stored(t: Table, tx: Tx) {
    forall r :: Creates(tx, r) ==> r in t
  }

  /** `u` neither is `tx` nor creates one of its inputs. */
  ghost predicate Independent(u: Tx, tx: Tx) {
    u.hash != tx.hash && forall r :: Creates(u, r) ==> r !in tx.inputs
  }

  lemma ApplyAt(t: Table, tx: Tx, slot: Option<Slot>, r: OutputRef)
    ensures r in ApplyTx(t, tx, slot) <==> r in t || Creates(tx, r)
  {
    KeptIsCreated(tx, r);
  }

  lemma ConfirmCommutesAt(t: Table, u: Tx, tx: Tx, slot: Option<Slot>, r: OutputRef)
    requires Stored(t, tx) && Independent(u, tx)
    ensures var a, b := ApplyTx(ApplyTx(t, u, None), tx, slot), ApplyTx(ApplyTx(t, tx, slot), u, None);
      (r in a <==> r in b) && (r in a ==> a[r] == b[r])
  {
    ApplyAt(t, u, None, r);
    ApplyAt(t, tx, slot, r);
    ApplyAt(ApplyTx(t, u, None), tx, slot, r);
    ApplyAt(ApplyTx(t, tx, slot), u, None, r);
  }

  lemma ConfirmCommutes(t: Table, u: Tx, tx: Tx, slot: Option<Slot>)
    requires Stored(t, tx) && Independent(u, tx)
    ensures ApplyTx(ApplyTx(t, u, None), tx, slot) == ApplyTx(ApplyTx(t, tx, slot), u, None)
  {
    var a, b := ApplyTx(ApplyTx(t, u, None), tx, slot), ApplyTx(ApplyTx(t, tx, slot), u, None);
    forall r ensures (r in a <==> r in b) && (r in a ==> a[r] == b[r]) { ConfirmCommutesAt(t, u, tx, slot, r); }
  }

  lemma ConfirmAgain(t: Table, tx: Tx, slot: Option<Slot>)
    requires forall r :: Creates(tx, r) ==> r !in tx.inputs
    ensures ApplyTx(ApplyTx(t, tx, None), tx, slot) == ApplyTx(t, tx, slot)
    ensures Stored(ApplyTx(t, tx, None), tx)
  {
    var a, b := ApplyTx(ApplyTx(t, tx, None), tx, slot), ApplyTx(t, tx, slot);
    forall r ensures r in a <==> r in b { KeptIsCreated(tx, r); }
    forall r | r in a ensures a[r] == b[r] { KeptIsCreated(tx, r); }
    forall r | Creates(tx, r) ensures r in ApplyTx(t, tx, None) { KeptIsCreated(tx, r); }
  }

  /** Mempool updates that neither bring `tx` nor create one of its inputs. */
  ghost predicate Unrelated(us: seq<Update>, tx: Tx) {
    forall k :: 0 <= k < |us| ==> us[k].MempoolAccepted? && Independent(us[k].tx, tx)
  }

  lemma {:induction false} ConfirmPastMempool(t: Table, tx: Tx, us: seq<Update>, slot: Option<Slot>)
    requires Stored(t, tx) && Unrelated(us, tx)
    ensures ApplyTx(HandleAll(t, us), tx, slot) == HandleAll(ApplyTx(t, tx, slot), us)
    ensures Stored(HandleAll(t, us), tx)
    decreases |us|
  {
    if us != [] {
      var front, u := us[..|us| - 1], us[|us| - 1].tx;
      ConfirmPastMempool(t, tx, front, slot);
      ConfirmCommutes(HandleAll(t, front), u, tx, slot);
      forall r | Creates(tx, r) ensures r in HandleAll(t, us) { assert r in HandleAll(t, front); }
    }
  }

  /** A transaction seen in the mempool, followed by others, and then confirmed leaves
      the same table as confirming it first. */
  lemma ConfirmationOrder(t: Table, tx: Tx, us: seq<Update>, slot: Slot)
    requires forall r :: Creates(tx, r) ==> r !in tx.inputs
    requires Unrelated(us, tx)
    ensures HandleAll(t, [MempoolAccepted(tx)] + us + [LedgerApplied(tx, slot)])
         == HandleAll(t, [LedgerApplied(tx, slot)] + us)
  {
    ConfirmAgain(t, tx, Some(slot));
    ConfirmPastMempool(ApplyTx(t, tx, None), tx, us, Some(slot));
    HandleFirst(t, MempoolAccepted(tx), us);
    HandleFirst(t, LedgerApplied(tx, slot), us);
    var seen := [MempoolAccepted(tx)] + us;
    assert (seen + [LedgerApplied(tx, slot)])[..|seen|] == seen;
  }

  lemma HandleFirst(t: Table, u: Update, us: seq<Update>)
    ensures HandleAll(t, [u] + us) == HandleAll(Handle(t, u), us)
  {
    HandleAllConcat(t, [u], us);
    assert [u][..0] == [];
  }

  // ---- Queries ------------------------------------------------------------

  datatype Found = Found(oref: OutputRef, txo: Txo)

  /** Index entries, in scan order, that lead to a stored output. */
  function Matching(scan: seq<OutputRef>, txo: Table): seq<Found> {
    if scan == [] then [] else
    var front, last := Matching(scan[..|scan| - 1], txo), scan[|scan| - 1];
    if last in txo then front + [Found(last, txo[last])] else front
  }

  function Page(all: seq<Found>, offset: nat, limit: nat): seq<Found> {
    if offset >= |all| then [] else if offset + limit >= |all| then all[offset..] else all[offset..offset + limit]
  }

  /** The loop of `get_utxos` over one snapshot; `scan` is what the range iterator yields. */
  method GetUtxos(scan: seq<OutputRef>, txo: Table, offset: nat, limit: nat) returns (page: seq<Found>)
    ensures page == Page(Matching(scan, txo), offset, limit)
  {
    page := [];
    if limit == 0 { return; }
    var matched := 0;
    var k := 0;
    while k < |scan|
      invariant 0 <= k <= |scan| && matched == |Matching(scan[..k], txo)| && |page| < limit
      invariant page == Page(Matching(scan[..k], txo), offset, limit)
    {
      assert scan[..k + 1][..k] == scan[..k];
      if scan[k] in txo {
        if matched >= offset {
          page := page + [Found(scan[k], txo[scan[k]])];
        }
        matched := matched + 1;
        if |page| >= limit {
          MatchingPrefix(scan, k + 1, txo);
          return;
        }
      }
      k := k + 1;
    }
    assert scan[..k] == scan;
  }

  lemma {:induction false} MatchingPrefix(scan: seq<OutputRef>, k: nat, txo: Table)
    requires k <= |scan|
    ensures Matching(scan[..k], txo) <= Matching(scan, txo)
    decreases |scan|
  {
    if k < |scan| {
      MatchingPrefix(scan[..|scan| - 1], k, txo);
      assert scan[..|scan| - 1][..k] == scan[..k];
    } else {
      assert scan[..k] == scan;
    }
  }

  /** The first `count` pages, one after the other. */
  function Pages(all: seq<Found>, limit: nat, count: nat): seq<Found> {
    if count == 0 then [] else Pages(all, limit, count - 1) + Page(all, (count - 1) * limit, limit)
  }

  /** Pages tile the result: together they are its beginning, without gap or repeat. */
  lemma {:induction false} PagesTile(all: seq<Found>, limit: nat, count: nat)
    requires limit >= 1
    ensures Pages(all, limit, count) == if count * limit >= |all| then all else all[..count * limit]
  {
    if count > 0 {
      PagesTile(all, limit, count - 1);
      assert count * limit == (count - 1) * limit + limit;
    }
  }

  /** Scan of an unspent index under one credential: every entry once, in some order. */
  ghost predicate ScansUnspent(scan: seq<OutputRef>, unspent: set<UnspentKey>, kind: Kind, credential: Credential) {
    && (forall r :: r in scan <==> UnspentKey(kind, credential, r) in unspent)
    && (forall i, j :: 0 <= i < j < |scan| ==> scan[i] != scan[j])
  }

  lemma {:induction false} MatchingAll(scan: seq<OutputRef>, txo: Table)
    requires forall r :: r in scan ==> r in txo
    ensures |Matching(scan, txo)| == |scan|
    ensures forall k :: 0 <= k < |scan| ==> Matching(scan, txo)[k] == Found(scan[k], txo[scan[k]])
  {
    if scan != [] { MatchingAll(scan[..|scan| - 1], txo); }
  }

  /** All pages of an unspent query list each stored unspent output that carries the
      credential exactly once, and nothing else. */
  lemma UnspentPages(unspent: set<UnspentKey>, txo: Table, scan: seq<OutputRef>, kind: Kind, credential: Credential,
                     limit: nat, count: nat)
    requires UnspentAgrees(unspent, txo) && ScansUnspent(scan, unspent, kind, credential)
    requires limit >= 1 && count * limit >= |scan|
    ensures var found := Pages(Matching(scan, txo), limit, count);
      && (forall i, j :: 0 <= i < j < |found| ==> found[i].oref != found[j].oref)
      && (forall f :: f in found <==>
            && f.oref in txo && f.txo == txo[f.oref] && !f.txo.spent
            && Carries(f.txo.output.address, kind, credential))
  {
    forall r | r in scan ensures r in txo { assert UnspentKey(kind, credential, r) in unspent; }
    MatchingAll(scan, txo);
    PagesTile(Matching(scan, txo), limit, count);
    var found := Pages(Matching(scan, txo), limit, count);
    forall f ensures f in found <==>
            && f.oref in txo && f.txo == txo[f.oref] && !f.txo.spent
            && Carries(f.txo.output.address, kind, credential)
    {
      assert UnspentKey(kind, credential, f.oref) in unspent <==> f.oref in scan;
      if f in found {
        var k :| 0 <= k < |found| && found[k] == f;
        assert scan[k] == f.oref;
      }
      if f.oref in scan {
        var k :| 0 <= k < |scan| && scan[k] == f.oref;
        assert found[k] == Found(f.oref, txo[f.oref]);
      }
    }
  }
}
