/** Pools that graduated, their live inputs and the journal of observations, kept in memory
    and mirrored in a key-value store. Models `GraduatedSplashPoolStore`,
    `SnekPoolInputTracker` and `GraduationStateRocksDb` of
    bloom-offchain-cardano/src/graduation.rs and their use in
    bloom-offchain-cardano/src/event_sink/handler.rs. */
module Graduation {
  import opened Ledger
  import opened GraduationText
  import opened GraduationJournal

  // ---- The state and its two changes --------------------------------------

  datatype State = State(graduated: set<Token>, tracker: map<Ref, Token>, journal: map<TxHash, Entry>)

  const EMPTY := State({}, map[], map[])

  function Members(ts: seq<Token>): set<Token> {
    set t | t in ts
  }

  /** The pool last given for each reference. */
  function Overlay(ls: seq<Live>): map<Ref, Token> {
    if ls == [] then map[] else Overlay(ls[..|ls| - 1])[ls[|ls| - 1].ref := ls[|ls| - 1].pool]
  }

  function Observe(s: State, h: TxHash, e: Entry): State {
    State(s.graduated + Members(e.graduated),
          (s.tracker - Overlay(e.consumed).Keys) + Overlay(e.produced),
          s.journal[h := e])
  }

  function Revert(s: State, h: TxHash, e: Entry): State {
    State(s.graduated - Members(e.graduated),
          (s.tracker - Overlay(e.produced).Keys) + Overlay(e.consumed),
          s.journal - {h})
  }

  function Undo(s: State, h: TxHash): State {
    if h in s.journal then Revert(s, h, s.journal[h]) else s
  }

  /** Fresh and consistent: the transaction is not journalled, the pools have not graduated, the
      consumed outputs are tracked for their pools, and no other tracked output is produced. */
  predicate Reversible(s: State, h: TxHash, e: Entry) {
    var consumed, produced := Overlay(e.consumed), Overlay(e.produced);
    && h !in s.journal
    && s.graduated !! Members(e.graduated)
    && (forall r :: r in consumed ==> r in s.tracker && s.tracker[r] == consumed[r])
    && (forall r :: r in produced && r in s.tracker ==> r in consumed)
  }

  lemma TrackerRestored(tracker: map<Ref, Token>, consumed: map<Ref, Token>, produced: map<Ref, Token>)
    ensures ((tracker - consumed.Keys) + produced) - produced.Keys + consumed == tracker <==>
            && (forall r :: r in consumed ==> r in tracker && tracker[r] == consumed[r])
            && (forall r :: r in produced && r in tracker ==> r in consumed)
  {
    var back := ((tracker - consumed.Keys) + produced) - produced.Keys + consumed;
    assert forall r :: r in back <==> r in consumed || (r in tracker && r !in produced);
    assert forall r :: r in back ==> back[r] == if r in consumed then consumed[r] else tracker[r];
    if back == tracker {
      forall r | r in consumed ensures r in tracker && tracker[r] == consumed[r] { assert r in back; }
      forall r | r in produced && r in tracker ensures r in consumed { assert r in back; }
    }
  }

  /** Rolling a transaction back right after observing it restores the state exactly when the
      observation was reversible. */
  lemma UndoObserve(s: State, h: TxHash, e: Entry)
    ensures Undo(Observe(s, h, e), h) == s <==> Reversible(s, h, e)
  {
    var back := Undo(Observe(s, h, e), h);
    TrackerRestored(s.tracker, Overlay(e.consumed), Overlay(e.produced));
    assert back.journal == s.journal <==> h !in s.journal by {
      assert h !in back.journal;
      if h !in s.journal { assert s.journal[h := e] - {h} == s.journal; }
    }
    var ts := Members(e.graduated);
    assert back.graduated == s.graduated + ts - ts;
    assert back.graduated == s.graduated <==> s.graduated !! ts by {
      if back.graduated == s.graduated {
        forall t | t in s.graduated ensures t !in ts { assert t in back.graduated; }
      }
    }
  }

  // ---- Rows of the store --------------------------------------------------

  datatype Key = PoolKey(pool: Token) | InputKey(ref: Ref) | JournalKey(txHash: TxHash)

  const POOL_PREFIX := "graduated:"
  const INPUT_PREFIX := "snek-input:"
  const JOURNAL_PREFIX := "journal:"

  function KeyText(k: Key): string {
    match k
    case PoolKey(pool) => POOL_PREFIX + TokenText(pool)
    case InputKey(ref) => INPUT_PREFIX + RefText(ref)
    case JournalKey(txHash) => JOURNAL_PREFIX + Hex(txHash)
  }

  lemma KeyTextParts(k: Key)
    ensures k.PoolKey? ==>
      KeyText(k)[0] == 'g' && POOL_PREFIX <= KeyText(k) && KeyText(k)[|POOL_PREFIX|..] == TokenText(k.pool)
    ensures k.InputKey? ==>
      KeyText(k)[0] == 's' && INPUT_PREFIX <= KeyText(k) && KeyText(k)[|INPUT_PREFIX|..] == RefText(k.ref)
    ensures k.JournalKey? ==>
      KeyText(k)[0] == 'j' && JOURNAL_PREFIX <= KeyText(k) && KeyText(k)[|JOURNAL_PREFIX|..] == Hex(k.txHash)
  {
  }

  /** Distinct pools, inputs and transactions have distinct keys. */
  lemma KeyTextInjective(k: Key, l: Key)
    ensures KeyText(k) == KeyText(l) <==> k == l
  {
    KeyTextParts(k);
    KeyTextParts(l);
    if k.PoolKey? { TokenRoundTrip(k.pool); }
    if l.PoolKey? { TokenRoundTrip(l.pool); }
    if k.InputKey? { RefRoundTrip(k.ref); }
    if l.InputKey? { RefRoundTrip(l.ref); }
    if k.JournalKey? { HashRoundTrip(k.txHash); }
    if l.JournalKey? { HashRoundTrip(l.txHash); }
  }

  /** What a state keeps under a key. */
  function Row(s: State, k: Key): Option<string> {
    match k
    case PoolKey(pool) => if pool in s.graduated then Some("") else None
    case InputKey(ref) => if ref in s.tracker then Some(TokenText(s.tracker[ref])) else None
    case JournalKey(txHash) => if txHash in s.journal then Some(EntryText(s.journal[txHash])) else None
  }

  function Get(rows: map<string, string>, key: string): Option<string> {
    if key in rows then Some(rows[key]) else None
  }

  ghost predicate Mirrors(rows: map<string, string>, s: State) {
    && (forall k :: Get(rows, KeyText(k)) == Row(s, k))
    && (forall x :: x in rows ==> exists k :: KeyText(k) == x)
  }

  /** No two states have the same rows. */
  lemma RowsDetermineState(a: State, b: State)
    requires forall k :: Row(a, k) == Row(b, k)
    ensures a == b
  {
    assert a.graduated == b.graduated by {
      forall t ensures t in a.graduated <==> t in b.graduated { assert Row(a, PoolKey(t)) == Row(b, PoolKey(t)); }
    }
    assert a.tracker == b.tracker by {
      forall r
        ensures r in a.tracker <==> r in b.tracker
        ensures r in a.tracker && r in b.tracker ==> a.tracker[r] == b.tracker[r]
      {
        assert Row(a, InputKey(r)) == Row(b, InputKey(r));
        if r in a.tracker { TokenRoundTrip(a.tracker[r]); }
        if r in b.tracker { TokenRoundTrip(b.tracker[r]); }
      }
    }
    assert a.journal == b.journal by {
      forall h
        ensures h in a.journal <==> h in b.journal
        ensures h in a.journal && h in b.journal ==> a.journal[h] == b.journal[h]
      {
        assert Row(a, JournalKey(h)) == Row(b, JournalKey(h));
        if h in a.journal { EntryRoundTrip(a.journal[h]); }
        if h in b.journal { EntryRoundTrip(b.journal[h]); }
      }
    }
  }

  lemma MirroredStateUnique(rows: map<string, string>, a: State, b: State)
    requires Mirrors(rows, a) && Mirrors(rows, b)
    ensures a == b
  {
    forall k ensures Row(a, k) == Row(b, k) { assert Get(rows, KeyText(k)) == Row(a, k); }
    RowsDetermineState(a, b);
  }

  /** The rows with one key's row changed to what the state `t` keeps there. */
  function SetRow(rows: map<string, string>, k: Key, value: Option<string>): map<string, string> {
    if value.Some? then rows[KeyText(k) := value.value] else rows - {KeyText(k)}
  }

  lemma MirrorRowAt(rows: map<string, string>, k: Key, value: Option<string>, l: Key)
    ensures Get(SetRow(rows, k, value), KeyText(l)) == if k == l then value else Get(rows, KeyText(l))
  {
    KeyTextInjective(k, l);
  }

  lemma MirrorKeys(rows: map<string, string>, k: Key, value: Option<string>, x: string)
    requires x in SetRow(rows, k, value) && (x in rows ==> exists l :: KeyText(l) == x)
    ensures exists l :: KeyText(l) == x
  {
    if x !in rows { assert x == KeyText(k); }
  }

  /** Changing one row follows a change of the state at that key only. */
  lemma MirrorRow(rows: map<string, string>, s: State, t: State, k: Key)
    requires Mirrors(rows, s)
    requires forall l :: l != k ==> Row(t, l) == Row(s, l)
    ensures Mirrors(SetRow(rows, k, Row(t, k)), t)
  {
    var value := Row(t, k);
    var after := SetRow(rows, k, value);
    forall l ensures Get(after, KeyText(l)) == Row(t, l) {
      MirrorRowAt(rows, k, value, l);
      assert Get(rows, KeyText(l)) == Row(s, l);
    }
    forall x | x in after ensures exists l :: KeyText(l) == x {
      MirrorKeys(rows, k, value, x);
    }
  }

  ghost function WithPools(s: State, ts: seq<Token>): State {
    s.(graduated := s.graduated + Members(ts))
  }

  ghost function WithoutPools(s: State, ts: seq<Token>): State {
    s.(graduated := s.graduated - Members(ts))
  }

  ghost function WithInputs(s: State, ls: seq<Live>): State {
    s.(tracker := s.tracker + Overlay(ls))
  }

  ghost function WithoutInputs(s: State, ls: seq<Live>): State {
    s.(tracker := s.tracker - Overlay(ls).Keys)
  }

  lemma PutPoolMirrors(rows: map<string, string>, s: State, ts: seq<Token>, i: nat)
    requires i < |ts| && Mirrors(rows, WithPools(s, ts[..i]))
    ensures Mirrors(rows[KeyText(PoolKey(ts[i])) := ""], WithPools(s, ts[..i + 1]))
  {
    var before, after := WithPools(s, ts[..i]), WithPools(s, ts[..i + 1]);
    assert after.graduated == before.graduated + {ts[i]};
    MirrorRow(rows, before, after, PoolKey(ts[i]));
  }

  lemma DeletePoolMirrors(rows: map<string, string>, s: State, ts: seq<Token>, i: nat)
    requires i < |ts| && Mirrors(rows, WithoutPools(s, ts[..i]))
    ensures Mirrors(rows - {KeyText(PoolKey(ts[i]))}, WithoutPools(s, ts[..i + 1]))
  {
    var before, after := WithoutPools(s, ts[..i]), WithoutPools(s, ts[..i + 1]);
    assert after.graduated == before.graduated - {ts[i]};
    MirrorRow(rows, before, after, PoolKey(ts[i]));
  }

  lemma PutInputMirrors(rows: map<string, string>, s: State, ls: seq<Live>, i: nat)
    requires i < |ls| && Mirrors(rows, WithInputs(s, ls[..i]))
    ensures Mirrors(rows[KeyText(InputKey(ls[i].ref)) := TokenText(ls[i].pool)], WithInputs(s, ls[..i + 1]))
  {
    var before, after := WithInputs(s, ls[..i]), WithInputs(s, ls[..i + 1]);
    OverlayPush(ls, i);
    assert after.tracker == before.tracker[ls[i].ref := ls[i].pool];
    MirrorRow(rows, before, after, InputKey(ls[i].ref));
  }

  lemma DeleteInputMirrors(rows: map<string, string>, s: State, ls: seq<Live>, i: nat)
    requires i < |ls| && Mirrors(rows, WithoutInputs(s, ls[..i]))
    ensures Mirrors(rows - {KeyText(InputKey(ls[i].ref))}, WithoutInputs(s, ls[..i + 1]))
  {
    var before, after := WithoutInputs(s, ls[..i]), WithoutInputs(s, ls[..i + 1]);
    OverlayPush(ls, i);
    assert after.tracker == before.tracker - {ls[i].ref};
    MirrorRow(rows, before, after, InputKey(ls[i].ref));
  }

  lemma PutJournalMirrors(rows: map<string, string>, s: State, h: TxHash, e: Entry)
    requires Mirrors(rows, s)
    ensures Mirrors(rows[KeyText(JournalKey(h)) := EntryText(e)], s.(journal := s.journal[h := e]))
  {
    MirrorRow(rows, s, s.(journal := s.journal[h := e]), JournalKey(h));
  }

  lemma DeleteJournalMirrors(rows: map<string, string>, s: State, h: TxHash)
    requires Mirrors(rows, s)
    ensures Mirrors(rows - {KeyText(JournalKey(h))}, s.(journal := s.journal - {h}))
  {
    MirrorRow(rows, s, s.(journal := s.journal - {h}), JournalKey(h));
  }

  // ---- The state in memory ------------------------------------------------

  class SnekPoolInputTracker {
    var inner: map<Ref, Token>

    constructor ()
      ensures inner == map[]
    {
      inner := map[];
    }

    method Insert(ref: Ref, pool: Token)
      modifies this
      ensures inner == old(inner)[ref := pool]
    {
      inner := inner[ref := pool];
    }

    method Remove(ref: Ref)
      modifies this
      ensures inner == old(inner) - {ref}
    {
      inner := inner - {ref};
    }

    method RemoveAll(ls: seq<Live>)
      modifies this
      ensures inner == old(inner) - Overlay(ls).Keys
    {
      for i := 0 to |ls|
        invariant inner == old(inner) - Overlay(ls[..i]).Keys
      {
        OverlayPush(ls, i);
        Remove(ls[i].ref);
      }
      assert ls[..|ls|] == ls;
    }

    method InsertAll(ls: seq<Live>)
      modifies this
      ensures inner == old(inner) + Overlay(ls)
    {
      for i := 0 to |ls|
        invariant inner == old(inner) + Overlay(ls[..i])
      {
        OverlayPush(ls, i);
        Insert(ls[i].ref, ls[i].pool);
      }
      assert ls[..|ls|] == ls;
    }

    method RollbackTx(e: Entry, store: GraduatedSplashPoolStore)
      modifies this, store
      ensures inner == (old(inner) - Overlay(e.produced).Keys) + Overlay(e.consumed)
      ensures store.inner == old(store.inner) - Members(e.graduated)
      ensures store.journal == old(store.journal)
    {
      for i := 0 to |e.graduated|
        invariant store.inner == old(store.inner) - Members(e.graduated[..i])
        invariant store.journal == old(store.journal) && inner == old(inner)
      {
        store.Remove(e.graduated[i]);
      }
      RemoveAll(e.produced);
      InsertAll(e.consumed);
    }
  }

  lemma OverlayPush(ls: seq<Live>, i: nat)
    requires i < |ls|
    ensures Overlay(ls[..i + 1]) == Overlay(ls[..i])[ls[i].ref := ls[i].pool]
  {
    assert ls[..i + 1][..i] == ls[..i];
  }

  class GraduatedSplashPoolStore {
    var inner: set<Token>
    var journal: map<TxHash, Entry>

    constructor ()
      ensures inner == {} && journal == map[]
    {
      inner, journal := {}, map[];
    }

    method Insert(pool: Token)
      modifies this
      ensures inner == old(inner) + {pool} && journal == old(journal)
    {
      inner := inner + {pool};
    }

    method Remove(pool: Token)
      modifies this
      ensures inner == old(inner) - {pool} && journal == old(journal)
    {
      inner := inner - {pool};
    }

    method JournalApplied(h: TxHash, e: Entry)
      modifies this
      ensures journal == old(journal)[h := e] && inner == old(inner)
    {
      journal := journal[h := e];
    }

    method ApplyObservationEntry(h: TxHash, tracker: SnekPoolInputTracker, e: Entry)
      modifies this, tracker
      ensures StateOf(this, tracker) == Observe(old(StateOf(this, tracker)), h, e)
    {
      tracker.RemoveAll(e.consumed);
      tracker.InsertAll(e.produced);
      inner := inner + Members(e.graduated);
      JournalApplied(h, e);
    }

    method RollbackTx(h: TxHash, tracker: SnekPoolInputTracker) returns (e: Option<Entry>)
      modifies this, tracker
      ensures StateOf(this, tracker) == Undo(old(StateOf(this, tracker)), h)
      ensures e == if h in old(journal) then Some(old(journal[h])) else None
    {
      if h !in journal { return None; }
      e := Some(journal[h]);
      journal := journal - {h};
      tracker.RollbackTx(e.value, this);
    }
  }

  function StateOf(store: GraduatedSplashPoolStore, tracker: SnekPoolInputTracker): State
    reads store, tracker
  {
    State(store.inner, tracker.inner, store.journal)
  }

  // ---- The state in the store ---------------------------------------------

  /** Whether loading reads a row without an error. */
  predicate Readable(key: string, value: string) {
    if POOL_PREFIX <= key then ParseToken(key[|POOL_PREFIX|..]).Some?
    else if INPUT_PREFIX <= key then ParseRef(key[|INPUT_PREFIX|..]).Some? && ParseToken(value).Some?
    else if JOURNAL_PREFIX <= key then ParseHash(key[|JOURNAL_PREFIX|..]).Some? && ParsedEntry(value).Ok?
    else true
  }

  /** The state `s` without what it keeps under other keys. */
  ghost predicate Part(acc: State, s: State, done: set<string>) {
    forall k :: Row(acc, k) == if KeyText(k) in done then Row(s, k) else None
  }

  class GraduationStateRocksDb {
    var rows: map<string, string>

    constructor ()
      ensures rows == map[] && Mirrors(rows, EMPTY)
    {
      rows := map[];
    }

    method DeleteInputs(ls: seq<Live>, ghost s: State)
      requires Mirrors(rows, s)
      modifies this
      ensures Mirrors(rows, WithoutInputs(s, ls))
    {
      assert WithoutInputs(s, ls[..0]) == s;
      for i := 0 to |ls|
        invariant Mirrors(rows, WithoutInputs(s, ls[..i]))
      {
        DeleteInputMirrors(rows, s, ls, i);
        rows := rows - {KeyText(InputKey(ls[i].ref))};
      }
      assert ls[..|ls|] == ls;
    }

    method PutInputs(ls: seq<Live>, ghost s: State)
      requires Mirrors(rows, s)
      modifies this
      ensures Mirrors(rows, WithInputs(s, ls))
    {
      assert WithInputs(s, ls[..0]) == s;
      for i := 0 to |ls|
        invariant Mirrors(rows, WithInputs(s, ls[..i]))
      {
        PutInputMirrors(rows, s, ls, i);
        rows := rows[KeyText(InputKey(ls[i].ref)) := TokenText(ls[i].pool)];
      }
      assert ls[..|ls|] == ls;
    }

    method DeletePools(ts: seq<Token>, ghost s: State)
      requires Mirrors(rows, s)
      modifies this
      ensures Mirrors(rows, WithoutPools(s, ts))
    {
      assert WithoutPools(s, ts[..0]) == s;
      for i := 0 to |ts|
        invariant Mirrors(rows, WithoutPools(s, ts[..i]))
      {
        DeletePoolMirrors(rows, s, ts, i);
        rows := rows - {KeyText(PoolKey(ts[i]))};
      }
      assert ts[..|ts|] == ts;
    }

    method PutPools(ts: seq<Token>, ghost s: State)
      requires Mirrors(rows, s)
      modifies this
      ensures Mirrors(rows, WithPools(s, ts))
    {
      assert WithPools(s, ts[..0]) == s;
      for i := 0 to |ts|
        invariant Mirrors(rows, WithPools(s, ts[..i]))
      {
        PutPoolMirrors(rows, s, ts, i);
        rows := rows[KeyText(PoolKey(ts[i])) := ""];
      }
      assert ts[..|ts|] == ts;
    }

    method PersistObservation(h: TxHash, e: Entry, ghost s: State)
      requires Mirrors(rows, s)
      modifies this
      ensures Mirrors(rows, Observe(s, h, e))
    {
      ghost var t := s;
      DeleteInputs(e.consumed, t);
      t := WithoutInputs(t, e.consumed);
      PutInputs(e.produced, t);
      t := WithInputs(t, e.produced);
      PutPools(e.graduated, t);
      t := WithPools(t, e.graduated);
      var record := EncodeJournalEntry(e);
      PutJournalMirrors(rows, t, h, e);
      rows := rows[KeyText(JournalKey(h)) := record];
    }

    method PersistRollback(h: TxHash, e: Entry, ghost s: State)
      requires Mirrors(rows, s)
      modifies this
      ensures Mirrors(rows, Revert(s, h, e))
    {
      ghost var t := s;
      DeletePools(e.graduated, t);
      t := WithoutPools(t, e.graduated);
      DeleteInputs(e.produced, t);
      t := WithoutInputs(t, e.produced);
      PutInputs(e.consumed, t);
      t := WithInputs(t, e.consumed);
      DeleteJournalMirrors(rows, t, h);
      rows := rows - {KeyText(JournalKey(h))};
    }

    /** Reads every row, in any order, into a new store and tracker. Stops at the first unreadable row. */
    method LoadState(ghost s: State)
        returns (fault: Option<Fault>, store: GraduatedSplashPoolStore, tracker: SnekPoolInputTracker)
      ensures fresh(store) && fresh(tracker)
      ensures fault == None <==> forall x :: x in rows ==> Readable(x, rows[x])
      ensures Mirrors(rows, s) ==> fault == None && StateOf(store, tracker) == s
    {
      store := new GraduatedSplashPoolStore();
      tracker := new SnekPoolInputTracker();
      fault := None;
      var pending := rows.Keys;
      ghost var done: set<string> := {};
      while pending != {}
        invariant fresh(store) && fresh(tracker) && fault == None
        invariant Loading(rows, s, StateOf(store, tracker), pending, done)
        decreases |pending|
      {
        var x :| x in pending;
        LoadStep(rows, s, StateOf(store, tracker), pending, done, x);
        fault := LoadRow(store, tracker, x, rows[x]);
        if fault.Some? { return; }
        pending, done := pending - {x}, done + {x};
      }
      LoadDone(rows, s, StateOf(store, tracker), done);
    }
  }

  /** What loading makes of one readable row. */
  function Loaded(acc: State, key: string, value: string): State
    requires Readable(key, value)
  {
    if POOL_PREFIX <= key then
      acc.(graduated := acc.graduated + {ParseToken(key[|POOL_PREFIX|..]).value})
    else if INPUT_PREFIX <= key then
      acc.(tracker := acc.tracker[ParseRef(key[|INPUT_PREFIX|..]).value := ParseToken(value).value])
    else if JOURNAL_PREFIX <= key then
      acc.(journal := acc.journal[ParseHash(key[|JOURNAL_PREFIX|..]).value := ParsedEntry(value).value])
    else acc
  }

  method LoadRow(store: GraduatedSplashPoolStore, tracker: SnekPoolInputTracker, key: string, value: string)
      returns (fault: Option<Fault>)
    modifies store, tracker
    ensures fault.None? <==> Readable(key, value)
    ensures Readable(key, value) ==> StateOf(store, tracker) == Loaded(old(StateOf(store, tracker)), key, value)
    ensures !Readable(key, value) ==> StateOf(store, tracker) == old(StateOf(store, tracker))
  {
    fault := None;
    if POOL_PREFIX <= key {
      var pool := ParseToken(key[|POOL_PREFIX|..]);
      if pool.None? { return Some(BadToken); }
      store.Insert(pool.value);
    } else if INPUT_PREFIX <= key {
      var ref := ParseRef(key[|INPUT_PREFIX|..]);
      if ref.None? { return Some(BadOutputRef); }
      var pool := ParseToken(value);
      if pool.None? { return Some(BadToken); }
      tracker.Insert(ref.value, pool.value);
    } else if JOURNAL_PREFIX <= key {
      var txHash := ParseHash(key[|JOURNAL_PREFIX|..]);
      if txHash.None? { return Some(BadHash); }
      var e := ParseJournalEntry(value);
      if e.Err? { return Some(e.fault); }
      store.JournalApplied(txHash.value, e.value);
    }
  }

  lemma LoadKey(acc: State, s: State, k: Key)
    requires Row(s, k).Some?
    ensures Readable(KeyText(k), Row(s, k).value)
    ensures Loaded(acc, KeyText(k), Row(s, k).value) ==
            match k {
              case PoolKey(pool) => acc.(graduated := acc.graduated + {pool})
              case InputKey(ref) => acc.(tracker := acc.tracker[ref := s.tracker[ref]])
              case JournalKey(h) => acc.(journal := acc.journal[h := s.journal[h]])
            }
  {
    KeyTextParts(k);
    match k
    case PoolKey(pool) => TokenRoundTrip(pool);
    case InputKey(ref) => RefRoundTrip(ref); TokenRoundTrip(s.tracker[ref]);
    case JournalKey(h) => HashRoundTrip(h); EntryRoundTrip(s.journal[h]);
  }

  lemma LoadedRowAt(acc: State, s: State, k: Key, l: Key)
    requires Row(s, k).Some? && Readable(KeyText(k), Row(s, k).value)
    ensures Row(Loaded(acc, KeyText(k), Row(s, k).value), l) == if l == k then Row(s, k) else Row(acc, l)
  {
    LoadKey(acc, s, k);
  }

  lemma LoadMirroredRow(rows: map<string, string>, s: State, acc: State, x: string, done: set<string>)
    requires Mirrors(rows, s) && Part(acc, s, done) && x in rows
    ensures Readable(x, rows[x]) && Part(Loaded(acc, x, rows[x]), s, done + {x})
  {
    var k :| KeyText(k) == x;
    assert Get(rows, KeyText(k)) == Row(s, k);
    LoadKey(acc, s, k);
    var next := Loaded(acc, x, rows[x]);
    forall l ensures Row(next, l) == if KeyText(l) in done + {x} then Row(s, l) else None {
      KeyTextInjective(k, l);
      LoadedRowAt(acc, s, k, l);
      assert Row(acc, l) == if KeyText(l) in done then Row(s, l) else None;
    }
  }

  /** Where loading stands: the rows in `done` have been read into `acc`. */
  ghost predicate Loading(rows: map<string, string>, s: State, acc: State, pending: set<string>, done: set<string>) {
    && rows.Keys == pending + done
    && (forall x :: x in done ==> Readable(x, rows[x]))
    && (Mirrors(rows, s) ==> Part(acc, s, done))
  }

  lemma LoadStep(rows: map<string, string>, s: State, acc: State, pending: set<string>, done: set<string>, x: string)
    requires Loading(rows, s, acc, pending, done) && x in pending
    ensures Mirrors(rows, s) ==> Readable(x, rows[x])
    ensures Readable(x, rows[x]) ==> Loading(rows, s, Loaded(acc, x, rows[x]), pending - {x}, done + {x})
  {
    if Mirrors(rows, s) { LoadMirroredRow(rows, s, acc, x, done); }
  }

  lemma LoadDone(rows: map<string, string>, s: State, acc: State, done: set<string>)
    requires Loading(rows, s, acc, {}, done)
    ensures forall x :: x in rows ==> Readable(x, rows[x])
    ensures Mirrors(rows, s) ==> acc == s
  {
    assert rows.Keys == done;
    if Mirrors(rows, s) { PartOfAll(rows, s, acc); }
  }

  lemma PartOfAll(rows: map<string, string>, s: State, acc: State)
    requires Mirrors(rows, s) && Part(acc, s, rows.Keys)
    ensures acc == s
  {
    forall k ensures Row(acc, k) == Row(s, k) {
      assert Get(rows, KeyText(k)) == Row(s, k);
    }
    RowsDetermineState(acc, s);
  }

  // ---- Whole runs ---------------------------------------------------------

  datatype Step = Seen(txHash: TxHash, entry: Entry) | RolledBack(rolled: TxHash) | Restarted

  /** What a step does to the state; a restart is meant to change nothing. */
  function Next(s: State, step: Step): State {
    match step
    case Seen(h, e) => Observe(s, h, e)
    case RolledBack(h) => Undo(s, h)
    case Restarted => s
  }

  function After(s: State, steps: seq<Step>): State {
    if steps == [] then s else Next(After(s, steps[..|steps| - 1]), steps[|steps| - 1])
  }

  class HandlerContext {
    var store: GraduatedSplashPoolStore
    var tracker: SnekPoolInputTracker
    const db: GraduationStateRocksDb

    constructor ()
      ensures Mirrored() && Current() == EMPTY
      ensures fresh(store) && fresh(tracker) && fresh(db)
    {
      store := new GraduatedSplashPoolStore();
      tracker := new SnekPoolInputTracker();
      db := new GraduationStateRocksDb();
    }

    function Current(): State
      reads this, store, tracker
    {
      StateOf(store, tracker)
    }

    ghost predicate Mirrored()
      reads this, store, tracker, db
    {
      Mirrors(db.rows, Current())
    }

    method JournalGraduatedSplashPools(h: TxHash, e: Entry)
      requires Mirrored()
      modifies store, tracker, db
      ensures Mirrored() && Current() == Observe(old(Current()), h, e)
    {
      ghost var before := Current();
      store.ApplyObservationEntry(h, tracker, e);
      db.PersistObservation(h, e, before);
    }

    method RollbackGraduation(h: TxHash)
      requires Mirrored()
      modifies store, tracker, db
      ensures Mirrored() && Current() == Undo(old(Current()), h)
    {
      ghost var before := Current();
      var e := store.RollbackTx(h, tracker);
      if e.Some? { db.PersistRollback(h, e.value, before); }
    }

    method Restart()
      requires Mirrored()
      modifies this
      ensures Mirrored() && Current() == old(Current())
      ensures fresh(store) && fresh(tracker)
    {
      var fault, loadedStore, loadedTracker := db.LoadState(Current());
      store, tracker := loadedStore, loadedTracker;
    }

    /** The store mirrors the memory throughout, and loading it back at any time is not noticed. */
    method Run(steps: seq<Step>)
      requires Mirrored()
      modifies this, store, tracker, db
      ensures Mirrored() && Current() == After(old(Current()), steps)
    {
      for i := 0 to |steps|
        invariant Mirrored() && Current() == After(old(Current()), steps[..i])
        invariant store == old(store) || fresh(store)
        invariant tracker == old(tracker) || fresh(tracker)
      {
        assert steps[..i + 1][..i] == steps[..i];
        match steps[i]
        case Seen(h, e) => JournalGraduatedSplashPools(h, e);
        case RolledBack(h) => RollbackGraduation(h);
        case Restarted => Restart();
      }
      assert steps[..|steps|] == steps;
    }
  }

  // ---- Undoing whole runs -------------------------------------------------

  datatype Observation = Observation(txHash: TxHash, entry: Entry)

  function Forth(obs: seq<Observation>): seq<Step> {
    if obs == [] then [] else [Seen(obs[0].txHash, obs[0].entry)] + Forth(obs[1..])
  }

  /** The rollbacks of the same observations, latest first. */
  function Back(obs: seq<Observation>): seq<Step> {
    if obs == [] then [] else Back(obs[1..]) + [RolledBack(obs[0].txHash)]
  }

  predicate AllReversible(s: State, obs: seq<Observation>)
    decreases |obs|
  {
    obs == [] ||
    (Reversible(s, obs[0].txHash, obs[0].entry) && AllReversible(Observe(s, obs[0].txHash, obs[0].entry), obs[1..]))
  }

  function WithoutRestarts(steps: seq<Step>): seq<Step> {
    if steps == [] then [] else
    var front, last := WithoutRestarts(steps[..|steps| - 1]), steps[|steps| - 1];
    if last.Restarted? then front else front + [last]
  }

  lemma {:induction false} RestartsDoNotMatter(s: State, steps: seq<Step>)
    ensures After(s, steps) == After(s, WithoutRestarts(steps))
  {
    if steps != [] {
      var front, last := steps[..|steps| - 1], steps[|steps| - 1];
      RestartsDoNotMatter(s, front);
      var kept := WithoutRestarts(front) + [last];
      assert kept[..|kept| - 1] == WithoutRestarts(front);
    }
  }

  lemma {:induction false} AfterConcat(s: State, a: seq<Step>, b: seq<Step>)
    ensures After(s, a + b) == After(After(s, a), b)
    decreases |b|
  {
    if b == [] {
      assert a + b == a;
    } else {
      var front := b[..|b| - 1];
      assert (a + b)[..|a + b| - 1] == a + front;
      AfterConcat(s, a, front);
    }
  }

  lemma {:induction false} ForthAndBack(s: State, obs: seq<Observation>)
    requires AllReversible(s, obs)
    ensures After(s, Forth(obs) + Back(obs)) == s
    decreases |obs|
  {
    if obs != [] {
      var seen, rolled := [Seen(obs[0].txHash, obs[0].entry)], [RolledBack(obs[0].txHash)];
      var rest := obs[1..];
      var middle := Forth(rest) + Back(rest);
      var observed := Observe(s, obs[0].txHash, obs[0].entry);
      assert Forth(obs) + Back(obs) == seen + middle + rolled;
      AfterConcat(s, seen + middle, rolled);
      AfterConcat(s, seen, middle);
      assert seen[..0] == [] && rolled[..0] == [];
      assert After(s, seen) == observed;
      ForthAndBack(observed, rest);
      UndoObserve(s, obs[0].txHash, obs[0].entry);
    }
  }

  /** Rolling back fresh, consistent observations latest first restores the state, wherever
      restarts fall. */
  lemma ReverseRollbackRestores(s: State, obs: seq<Observation>, steps: seq<Step>)
    requires AllReversible(s, obs) && WithoutRestarts(steps) == Forth(obs) + Back(obs)
    ensures After(s, steps) == s
  {
    RestartsDoNotMatter(s, steps);
    ForthAndBack(s, obs);
  }

  // ---- What the handler observes ------------------------------------------

  /** The tracked ones among the outputs a transaction consumes. */
  function ConsumedSnekRefs(tracker: map<Ref, Token>, refs: seq<Ref>): seq<Live> {
    if refs == [] then [] else
    var front, last := ConsumedSnekRefs(tracker, refs[..|refs| - 1]), refs[|refs| - 1];
    if last in tracker then front + [Live(last, tracker[last])] else front
  }

  lemma {:induction false} ConsumedAreTracked(tracker: map<Ref, Token>, refs: seq<Ref>, r: Ref)
    ensures r in Overlay(ConsumedSnekRefs(tracker, refs)) <==> r in refs && r in tracker
    ensures r in Overlay(ConsumedSnekRefs(tracker, refs)) ==> Overlay(ConsumedSnekRefs(tracker, refs))[r] == tracker[r]
  {
    if refs != [] {
      var front, last := refs[..|refs| - 1], refs[|refs| - 1];
      ConsumedAreTracked(tracker, front, r);
      assert refs == front + [last];
      var ls := ConsumedSnekRefs(tracker, refs);
      if last in tracker { assert ls[..|ls| - 1] == ConsumedSnekRefs(tracker, front); }
    }
  }

  /** An observation as the handler builds it is reversible when its transaction, its produced
      outputs and its graduated pools are new. */
  lemma HandlerObservesReversibly(s: State, h: TxHash, refs: seq<Ref>, produced: seq<Live>, graduated: seq<Token>)
    requires h !in s.journal && s.graduated !! Members(graduated)
    requires forall r :: r in Overlay(produced) ==> r !in s.tracker
    ensures Reversible(s, h, Entry(ConsumedSnekRefs(s.tracker, refs), produced, graduated))
  {
    forall r | r in Overlay(ConsumedSnekRefs(s.tracker, refs))
      ensures r in s.tracker && s.tracker[r] == Overlay(ConsumedSnekRefs(s.tracker, refs))[r]
    {
      ConsumedAreTracked(s.tracker, refs, r);
    }
  }
}
