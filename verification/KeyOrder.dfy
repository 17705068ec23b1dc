/** Byte keys of the chain cache and of the credential indexes, and the order in
    which RocksDB scans them. Models the key builders and `get_range_iterator` of
    cardano-utxo-monitor/src/index.rs and `point_key` and `replay` of
    cardano-chain-sync/src/cache.rs. */
module KeyOrder {
  import opened Ledger
  import opened ChainCache
  import opened ByteOrder
  import opened UtxoIndex

  // ---- Scans --------------------------------------------------------------

  ghost predicate Sorted(keys: seq<Key>) {
    forall i, j :: 0 <= i < j < |keys| ==> Less(keys[i], keys[j])
  }

  /** What a forward iterator from `from`, limited to keys starting with `prefix`, yields. */
  ghost predicate IsScan(table: set<Key>, prefix: Key, from: Key, keys: seq<Key>) {
    && Sorted(keys)
    && forall k :: k in keys <==> k in table && prefix <= k && AtMost(from, k)
  }

  lemma SortedTail(a: seq<Key>, k: Key)
    requires Sorted(a) && a != []
    ensures k in a[1..] <==> k in a && k != a[0]
  {
    LessIrreflexive(a[0]);
    if k in a && k != a[0] {
      var m :| 0 <= m < |a| && a[m] == k;
      assert a[1..][m - 1] == k;
    }
  }

  lemma HasMember(b: seq<Key>)
    ensures b == [] || exists k :: k in b
  {
    if b != [] { assert b[0] in b; }
  }

  /** Two sorted listings of the same keys are the same listing. */
  lemma {:induction false} SortedUnique(a: seq<Key>, b: seq<Key>)
    requires Sorted(a) && Sorted(b) && forall k :: k in a <==> k in b
    ensures a == b
    decreases |a|
  {
    if a == [] {
      HasMember(b);
    } else {
      assert a[0] in a;
      assert a[0] in b;
      assert b[0] in b;
      var i :| 0 <= i < |b| && b[i] == a[0];
      var j :| 0 <= j < |a| && a[j] == b[0];
      if i > 0 && j > 0 {
        LessTransitive(a[0], a[j], b[i]);
        LessIrreflexive(a[0]);
      }
      assert a[0] == b[0];
      forall k ensures k in a[1..] <==> k in b[1..] {
        SortedTail(a, k);
        SortedTail(b, k);
      }
      SortedUnique(a[1..], b[1..]);
      assert a == [a[0]] + a[1..] && b == [b[0]] + b[1..];
    }
  }

  // ---- Credential indexes -------------------------------------------------

  ghost predicate ValidCredential(c: Credential) {
    |c.hash| == 28
  }

  function CredentialPrefix(c: Credential): Key {
    [if c.PubKey? then 0 else 1] + c.hash
  }

  /** An output that has not settled sorts as the largest slot. */
  function SlotOrMax(slot: Option<Slot>): Slot {
    if slot.Some? then slot.value else SLOT_MAX
  }

  ghost predicate ValidSlot(slot: Option<Slot>) {
    slot.Some? ==> slot.value <= 0xFFFF_FFFF_FFFF_FFFF
  }

  /** `slot` is at or after `least`. Outputs that have not settled come last, along with the largest slot there is. */
  ghost predicate AtOrAfter(slot: Option<Slot>, least: Option<Slot>) {
    match (slot, least)
    case (None, _) => true
    case (Some(s), None) => s == 0xFFFF_FFFF_FFFF_FFFF
    case (Some(s), Some(l)) => l <= s
  }

  lemma SettlementOrder(slot: Option<Slot>, least: Option<Slot>)
    requires ValidSlot(slot) && ValidSlot(least)
    ensures AtOrAfter(slot, least) <==> SlotOrMax(least) <= SlotOrMax(slot)
    ensures SlotOrMax(slot) <= SLOT_MAX && SlotOrMax(least) <= SLOT_MAX
  {
  }

  function SettledAtKey(slot: Option<Slot>): Key {
    BigEndian(SlotOrMax(slot), SLOT_WIDTH)
  }

  /** Credential, slot and the serialized output reference. */
  datatype Entry = Entry(credential: Credential, slot: Option<Slot>, refKey: Key)

  ghost predicate ValidEntry(e: Entry) {
    ValidCredential(e.credential) && ValidSlot(e.slot)
  }

  function EntryKey(e: Entry): Key {
    CredentialPrefix(e.credential) + SettledAtKey(e.slot) + e.refKey
  }

  lemma PrefixIsCredential(c: Credential, e: Entry)
    requires ValidCredential(c) && ValidEntry(e)
    ensures CredentialPrefix(c) <= EntryKey(e) <==> c == e.credential
  {
    var p, q, k := CredentialPrefix(c), CredentialPrefix(e.credential), EntryKey(e);
    assert k[..|q|] == q;
    assert p <= k <==> p == k[..|p|];
    assert p[0] == (if c.PubKey? then 0 else 1) && p[1..] == c.hash;
    assert q[0] == (if e.credential.PubKey? then 0 else 1) && q[1..] == e.credential.hash;
  }

  /** Under one credential, the scan starts exactly at the least slot. */
  lemma FromLeastSlot(e: Entry, least: Option<Slot>)
    requires ValidEntry(e) && ValidSlot(least)
    ensures AtMost(CredentialPrefix(e.credential) + SettledAtKey(least), EntryKey(e)) <==> AtOrAfter(e.slot, least)
  {
    SettlementOrder(e.slot, least);
    var p, a, b := CredentialPrefix(e.credential), SettledAtKey(least), SettledAtKey(e.slot);
    assert EntryKey(e) == p + (b + e.refKey);
    LessAfterPrefix(p, a, b + e.refKey);
    SlotOrder(SlotOrMax(least), SlotOrMax(e.slot));
    if SlotOrMax(least) < SlotOrMax(e.slot) {
      LessBeforeSuffix(a, b, [], e.refKey);
      assert a + [] == a;
    } else if SlotOrMax(least) == SlotOrMax(e.slot) {
      if e.refKey == [] {
        assert b + e.refKey == a;
      } else {
        LessAfterPrefix(a, [], e.refKey);
        assert a + [] == a;
      }
    } else {
      SlotOrder(SlotOrMax(e.slot), SlotOrMax(least));
      LessBeforeSuffix(b, a, e.refKey, []);
      assert a + [] == a;
      if Less(a, b + e.refKey) { LessTransitive(a, b + e.refKey, a); }
      LessIrreflexive(a);
      assert (p + a)[|p|..] == a && (p + (b + e.refKey))[|p|..] == b + e.refKey;
    }
  }

  lemma EntryOrder(e: Entry, f: Entry)
    requires ValidEntry(e) && ValidEntry(f) && e.credential == f.credential
    requires Less(EntryKey(e), EntryKey(f))
    ensures AtOrAfter(f.slot, e.slot)
  {
    SettlementOrder(f.slot, e.slot);
    if SlotOrMax(f.slot) < SlotOrMax(e.slot) {
      var p := CredentialPrefix(e.credential);
      SlotOrder(SlotOrMax(f.slot), SlotOrMax(e.slot));
      LessBeforeSuffix(SettledAtKey(f.slot), SettledAtKey(e.slot), f.refKey, e.refKey);
      LessAfterPrefix(p, SettledAtKey(f.slot) + f.refKey, SettledAtKey(e.slot) + e.refKey);
      assert EntryKey(e) == p + (SettledAtKey(e.slot) + e.refKey);
      assert EntryKey(f) == p + (SettledAtKey(f.slot) + f.refKey);
      LessTransitive(EntryKey(e), EntryKey(f), EntryKey(e));
      LessIrreflexive(EntryKey(e));
    }
  }

  /** The keys of `e` and `f` stand in the listing at `i` and later at `j`. */
  ghost predicate InScanOrder(entries: set<Entry>, keys: seq<Key>, i: nat, j: nat, e: Entry, f: Entry) {
    i < j < |keys| && e in entries && f in entries && keys[i] == EntryKey(e) && keys[j] == EntryKey(f)
  }

  /** A credential query from a least slot scans exactly the entries of that credential
      from that slot on, in slot order, with unsettled ones last. */
  lemma CredentialScan(entries: set<Entry>, c: Credential, least: Option<Slot>, keys: seq<Key>)
    requires ValidCredential(c) && ValidSlot(least)
    requires forall e :: e in entries ==> ValidEntry(e)
    requires IsScan(set e | e in entries :: EntryKey(e), CredentialPrefix(c),
                    CredentialPrefix(c) + SettledAtKey(least), keys)
    ensures forall e :: e in entries ==>
      (EntryKey(e) in keys <==> e.credential == c && AtOrAfter(e.slot, least))
    ensures forall k :: k in keys ==> exists e :: e in entries && k == EntryKey(e) && e.credential == c
    ensures forall i, j, e, f :: InScanOrder(entries, keys, i, j, e, f) ==> AtOrAfter(f.slot, e.slot)
  {
    forall e | e in entries
      ensures EntryKey(e) in keys <==> e.credential == c && AtOrAfter(e.slot, least)
    {
      PrefixIsCredential(c, e);
      if e.credential == c { FromLeastSlot(e, least); }
    }
    forall k | k in keys ensures exists e :: e in entries && k == EntryKey(e) && e.credential == c {
      var e :| e in entries && k == EntryKey(e);
      PrefixIsCredential(c, e);
    }
    forall i: nat, j: nat, e, f | InScanOrder(entries, keys, i, j, e, f)
      ensures AtOrAfter(f.slot, e.slot)
    {
      assert keys[i] in keys && keys[j] in keys;
      PrefixIsCredential(c, e);
      PrefixIsCredential(c, f);
      EntryOrder(e, f);
    }
  }

  /** The keys of the unspent index of one kind. */
  ghost function UnspentKeys(unspent: set<UnspentKey>, kind: Kind, refKey: OutputRef -> Key): set<Key> {
    set u | u in unspent && u.kind == kind :: CredentialPrefix(u.credential) + refKey(u.oref)
  }

  lemma UnspentKeySplit(c: Credential, d: Credential, x: Key, y: Key)
    requires ValidCredential(c) && ValidCredential(d)
    ensures CredentialPrefix(c) <= CredentialPrefix(d) + y <==> c == d
    ensures CredentialPrefix(c) + x == CredentialPrefix(d) + y <==> c == d && x == y
  {
    var p, q := CredentialPrefix(c), CredentialPrefix(d);
    assert p[0] == (if c.PubKey? then 0 else 1) && p[1..] == c.hash;
    assert q[0] == (if d.PubKey? then 0 else 1) && q[1..] == d.hash;
    assert (q + y)[..|q|] == q && (q + y)[|q|..] == y;
    assert (p + x)[..|p|] == p && (p + x)[|p|..] == x;
  }

  lemma FromPrefix(p: Key, x: Key)
    ensures AtMost(p, p + x)
  {
    assert p + [] == p;
    if x == [] {
      assert p + x == p;
    } else {
      LessAfterPrefix(p, [], x);
    }
  }

  /** An unspent query scans each unspent output of its credential once, and no other:
      output references are serialized injectively, and `scan` is what their keys stand for. */
  lemma UnspentScan(unspent: set<UnspentKey>, kind: Kind, c: Credential, refKey: OutputRef -> Key, keys: seq<Key>,
                    scan: seq<OutputRef>)
    requires ValidCredential(c) && forall u :: u in unspent ==> ValidCredential(u.credential)
    requires forall r, s :: refKey(r) == refKey(s) ==> r == s
    requires IsScan(UnspentKeys(unspent, kind, refKey), CredentialPrefix(c), CredentialPrefix(c), keys)
    requires |scan| == |keys|
    requires forall i :: 0 <= i < |keys| ==>
               |CredentialPrefix(c)| <= |keys[i]| && keys[i][|CredentialPrefix(c)|..] == refKey(scan[i])
    ensures ScansUnspent(scan, unspent, kind, c)
  {
    forall i | 0 <= i < |keys|
      ensures keys[i] == CredentialPrefix(c) + refKey(scan[i]) && UnspentKey(kind, c, scan[i]) in unspent
    {
      assert keys[i] in keys;
      var u :| u in unspent && u.kind == kind && keys[i] == CredentialPrefix(u.credential) + refKey(u.oref);
      UnspentKeySplit(c, u.credential, refKey(scan[i]), refKey(u.oref));
      assert keys[i][|CredentialPrefix(c)|..] == refKey(u.oref);
    }
    forall r | UnspentKey(kind, c, r) in unspent ensures r in scan {
      var u := UnspentKey(kind, c, r);
      var k := CredentialPrefix(c) + refKey(r);
      FromPrefix(CredentialPrefix(c), refKey(r));
      assert CredentialPrefix(u.credential) + refKey(u.oref) in UnspentKeys(unspent, kind, refKey);
      assert k in keys;
      var i :| 0 <= i < |keys| && keys[i] == k;
      UnspentKeySplit(c, c, refKey(scan[i]), refKey(r));
      assert scan[i] == r;
    }
    forall i, j | 0 <= i < j < |scan| ensures scan[i] != scan[j] {
      LessIrreflexive(keys[i]);
    }
  }

  /** The entries of the event index of one kind. */
  ghost function EventEntries(events: set<EventKey>, kind: Kind, refKey: OutputRef -> Key): set<Entry> {
    set e | e in events && e.kind == kind :: Entry(e.credential, e.slot, refKey(e.oref))
  }

  /** A query for all outputs from a least slot misses no unspent output of its credential that settled at or after
      that slot or has not settled: `scan` is what the scanned keys stand for. */
  lemma AllQueryIsComplete(index: Index, kind: Kind, c: Credential, least: Option<Slot>, refKey: OutputRef -> Key,
                           keys: seq<Key>, scan: seq<OutputRef>, r: OutputRef)
    requires index.Valid() && ValidCredential(c) && ValidSlot(least)
    requires forall e :: e in EventEntries(index.events, kind, refKey) ==> ValidEntry(e)
    requires forall p, s :: refKey(p) == refKey(s) ==> p == s
    requires IsScan(set e | e in EventEntries(index.events, kind, refKey) :: EntryKey(e), CredentialPrefix(c),
                    CredentialPrefix(c) + SettledAtKey(least), keys)
    requires |scan| == |keys|
    requires forall i :: 0 <= i < |keys| ==>
      |CredentialPrefix(c)| + SLOT_WIDTH <= |keys[i]|
      && keys[i][|CredentialPrefix(c)| + SLOT_WIDTH..] == refKey(scan[i])
    requires r in index.txo && !index.txo[r].spent
    requires Carries(index.txo[r].output.address, kind, c)
    requires AtOrAfter(index.txo[r].settledAt, least)
    ensures r in scan && Found(r, index.txo[r]) in Matching(scan, index.txo)
  {
    var t := index.txo[r];
    var event := EventKey(kind, c, t.settledAt, r);
    assert Covered(index.events, kind, c, r, t);
    var e := Entry(event.credential, event.slot, refKey(event.oref));
    assert e in EventEntries(index.events, kind, refKey);
    CredentialScan(EventEntries(index.events, kind, refKey), c, least, keys);
    var i :| 0 <= i < |keys| && keys[i] == EntryKey(e);
    EntryKeyTail(e);
    assert scan[i] == r;
    MatchingHolds(scan, index.txo, r);
  }

  lemma EntryKeyTail(e: Entry)
    requires ValidEntry(e)
    ensures EntryKey(e)[|CredentialPrefix(e.credential)| + SLOT_WIDTH..] == e.refKey
  {
  }

  lemma {:induction false} MatchingHolds(scan: seq<OutputRef>, txo: Table, r: OutputRef)
    requires r in scan && r in txo
    ensures Found(r, txo[r]) in Matching(scan, txo)
    decreases |scan|
  {
    var front, last := scan[..|scan| - 1], scan[|scan| - 1];
    if r != last {
      assert scan == front + [last];
      MatchingHolds(front, txo, r);
    }
  }

  // ---- Replay of the chain cache ------------------------------------------

  const TIP_KEY: Key := [97, 58]       // "a:"
  const POINT_PREFIX: Key := [98, 58]  // "b:"

  function PointKey(p: Point): Key {
    POINT_PREFIX + BigEndian(p.GetSlot(), SLOT_WIDTH) + if p.Specific? then p.hash else []
  }

  ghost predicate ValidPoint(p: Point) {
    p.GetSlot() <= SLOT_MAX && (p.Specific? ==> |p.hash| == 32)
  }

  /** Distinct points have distinct keys, and no point has the key of the tip. */
  lemma PointKeyInjective(p: Point, q: Point)
    requires ValidPoint(p) && ValidPoint(q)
    ensures PointKey(p) == PointKey(q) <==> p == q
    ensures PointKey(p) != TIP_KEY
  {
    var a, b := PointKey(p), PointKey(q);
    assert a[2..10] == BigEndian(p.GetSlot(), SLOT_WIDTH) && b[2..10] == BigEndian(q.GetSlot(), SLOT_WIDTH);
    assert p.Specific? ==> a[10..] == p.hash;
    assert q.Specific? ==> b[10..] == q.hash;
    SlotOrder(p.GetSlot(), q.GetSlot());
    assert a[0] == 98;
  }

  lemma PrefixedOrder(prefix: Key, a: Key, b: Key, x: Key, y: Key)
    requires |a| == |b| && Less(a, b)
    ensures Less(prefix + a + x, prefix + b + y)
  {
    LessBeforeSuffix(a, b, x, y);
    LessAfterPrefix(prefix, a + x, b + y);
    assert prefix + a + x == prefix + (a + x) && prefix + b + y == prefix + (b + y);
  }

  lemma PointKeyOrder(p: Point, q: Point)
    requires ValidPoint(p) && ValidPoint(q) && p.GetSlot() < q.GetSlot()
    ensures Less(PointKey(p), PointKey(q))
  {
    var hp, hq: Key := if p.Specific? then p.hash else [], if q.Specific? then q.hash else [];
    SlotOrder(p.GetSlot(), q.GetSlot());
    PrefixedOrder(POINT_PREFIX, BigEndian(p.GetSlot(), SLOT_WIDTH), BigEndian(q.GetSlot(), SLOT_WIDTH), hp, hq);
  }

  /** The keys of the database behind a cache. */
  ghost function StoredKeys(tip: Option<Point>, blocks: map<Point, LinkedBlock>): set<Key> {
    (if tip.Some? then {TIP_KEY} else {}) + set p | p in blocks :: PointKey(p)
  }

  ghost predicate ValidChain(chain: Chain) {
    Increasing(chain) && forall k :: 0 <= k < |chain| ==> ValidPoint(PointOf(chain[k]))
  }

  function ChainKeys(chain: Chain, from: nat): (r: seq<Key>)
    requires from <= |chain|
    ensures |r| == |chain| - from
  {
    seq(|chain| - from, k requires 0 <= k < |chain| - from => PointKey(PointOf(chain[from + k])))
  }

  lemma {:induction false} CachedPoints(chain: Chain, after: int, p: Point)
    requires Increasing(chain)
    ensures p in CachedBlocks(chain, after) <==>
      exists k :: 0 <= k < |chain| && chain[k].slot > after && PointOf(chain[k]) == p
    decreases |chain|
  {
    CachedKeysAreOnChain(chain, after, p);
    if exists k :: 0 <= k < |chain| && chain[k].slot > after && PointOf(chain[k]) == p {
      var k :| 0 <= k < |chain| && chain[k].slot > after && PointOf(chain[k]) == p;
      if k < |chain| - 1 {
        assert Front(chain)[k] == chain[k];
        CachedPoints(Front(chain), after, p);
      }
    }
  }

  lemma ChainKeyOrder(chain: Chain, i: nat, j: nat)
    requires ValidChain(chain) && i < |chain| && j < |chain|
    ensures AtMost(PointKey(PointOf(chain[i])), PointKey(PointOf(chain[j]))) <==> i <= j
  {
    var a, b := PointKey(PointOf(chain[i])), PointKey(PointOf(chain[j]));
    LessIrreflexive(a);
    if i < j { PointKeyOrder(PointOf(chain[i]), PointOf(chain[j])); }
    if j < i {
      PointKeyOrder(PointOf(chain[j]), PointOf(chain[i]));
      if Less(a, b) { LessTransitive(a, b, a); }
    }
  }

  lemma TipKeyBelow(p: Point)
    ensures !AtMost(PointKey(p), TIP_KEY)
  {
    assert PointKey(p)[0] == 98 && TIP_KEY[0] == 97;
  }

  /** What replay from the chain's block `from` scans. */
  ghost predicate Replayed(tip: Option<Point>, blocks: map<Point, LinkedBlock>, chain: Chain, from: nat, keys: seq<Key>)
    requires from < |chain|
  {
    IsScan(StoredKeys(tip, blocks), [], PointKey(PointOf(chain[from])), keys)
  }

  lemma ScannedPoint(tip: Option<Point>, blocks: map<Point, LinkedBlock>, from: Point, k: Key) returns (p: Point)
    requires k in StoredKeys(tip, blocks) && AtMost(PointKey(from), k)
    ensures p in blocks && k == PointKey(p)
  {
    TipKeyBelow(from);
    p :| p in blocks && k == PointKey(p);
  }

  lemma ChainKeyAt(chain: Chain, from: nat, i: nat)
    requires from <= i < |chain|
    ensures PointKey(PointOf(chain[i])) in ChainKeys(chain, from)
  {
    assert ChainKeys(chain, from)[i - from] == PointKey(PointOf(chain[i]));
  }

  lemma ReplayedIsOnChain(tip: Option<Point>, blocks: map<Point, LinkedBlock>, chain: Chain, after: int, from: nat,
                          keys: seq<Key>, k: Key)
    requires ValidChain(chain) && blocks == CachedBlocks(chain, after) && from < |chain|
    requires Replayed(tip, blocks, chain, from, keys) && k in keys
    ensures k in ChainKeys(chain, from)
  {
    var p := ScannedPoint(tip, blocks, PointOf(chain[from]), k);
    CachedPoints(chain, after, p);
    var i :| 0 <= i < |chain| && chain[i].slot > after && PointOf(chain[i]) == p;
    ChainKeyOrder(chain, from, i);
    ChainKeyAt(chain, from, i);
  }

  lemma ChainIsReplayed(tip: Option<Point>, blocks: map<Point, LinkedBlock>, chain: Chain, after: int, from: nat,
                        keys: seq<Key>, i: nat)
    requires ValidChain(chain) && blocks == CachedBlocks(chain, after) && from <= i < |chain|
    requires chain[from].slot > after
    requires Replayed(tip, blocks, chain, from, keys)
    ensures PointKey(PointOf(chain[i])) in keys
  {
    var k := PointKey(PointOf(chain[i]));
    CachedPoints(chain, after, PointOf(chain[i]));
    ChainKeyOrder(chain, from, i);
    assert k in StoredKeys(tip, blocks);
    assert [] <= k;
  }

  lemma ChainKeyLess(chain: Chain, from: nat, i: nat, j: nat)
    requires ValidChain(chain) && from <= |chain| && i < j < |chain| - from
    ensures Less(ChainKeys(chain, from)[i], ChainKeys(chain, from)[j])
  {
    var p, q := PointOf(chain[from + i]), PointOf(chain[from + j]);
    PointKeyOrder(p, q);
    assert ChainKeys(chain, from)[i] == PointKey(p);
    assert ChainKeys(chain, from)[j] == PointKey(q);
  }

  lemma ChainKeysSorted(chain: Chain, from: nat)
    requires ValidChain(chain) && from <= |chain|
    ensures Sorted(ChainKeys(chain, from))
  {
    var keys := ChainKeys(chain, from);
    forall i, j | 0 <= i < j < |keys| ensures Less(keys[i], keys[j]) {
      ChainKeyLess(chain, from, i, j);
    }
  }

  /** The scan lists the keys of the chain from that block on, oldest first. */
  lemma ReplayIsSuffix(tip: Option<Point>, blocks: map<Point, LinkedBlock>, chain: Chain, after: int, from: nat,
                       keys: seq<Key>)
    requires Represents(tip, blocks, chain, after) && ValidChain(chain)
    requires from < |chain| && chain[from].slot > after
    requires Replayed(tip, blocks, chain, from, keys)
    ensures keys == ChainKeys(chain, from)
  {
    var expected := ChainKeys(chain, from);
    ChainKeysSorted(chain, from);
    forall k ensures k in keys <==> k in expected {
      if k in keys { ReplayedIsOnChain(tip, blocks, chain, after, from, keys, k); }
      if k in expected {
        var i :| 0 <= i < |expected| && expected[i] == k;
        ChainIsReplayed(tip, blocks, chain, after, from, keys, from + i);
      }
    }
    SortedUnique(keys, expected);
  }

  lemma {:induction false} CachedBlockAt(chain: Chain, after: int, k: nat)
    requires Increasing(chain) && k < |chain| && chain[k].slot > after
    ensures PointOf(chain[k]) in CachedBlocks(chain, after)
    ensures CachedBlocks(chain, after)[PointOf(chain[k])] == LinkedBlock(chain[k], TipPoint(chain[..k]))
    decreases |chain|
  {
    if k < |chain| - 1 {
      assert Front(chain)[k] == chain[k] && Front(chain)[..k] == chain[..k];
      CachedBlockAt(Front(chain), after, k);
    }
  }

  datatype Record = TipRecord(point: Point) | BlockRecord(linked: LinkedBlock)

  ghost predicate IsRecord(tip: Option<Point>, blocks: map<Point, LinkedBlock>, key: Key, record: Record) {
    match record
    case TipRecord(point) => key == TIP_KEY && tip == Some(point)
    case BlockRecord(linked) => exists p :: p in blocks && key == PointKey(p) && linked == blocks[p]
  }

  /** What the database iterates over, starting at the chain's block `from`. */
  ghost predicate Iterates(tip: Option<Point>, blocks: map<Point, LinkedBlock>, chain: Chain, from: nat,
                           keys: seq<Key>, records: seq<Record>)
    requires from < |chain|
  {
    && Replayed(tip, blocks, chain, from, keys)
    && |records| == |keys|
    && forall i :: 0 <= i < |keys| ==> IsRecord(tip, blocks, keys[i], records[i])
  }

  lemma ReplayedRecord(tip: Option<Point>, blocks: map<Point, LinkedBlock>, chain: Chain, after: int, from: nat,
                       i: nat, record: Record)
    requires Represents(tip, blocks, chain, after) && ValidChain(chain)
    requires from + i < |chain| && chain[from].slot > after
    requires IsRecord(tip, blocks, PointKey(PointOf(chain[from + i])), record)
    ensures record == BlockRecord(LinkedBlock(chain[from + i], TipPoint(chain[..from + i])))
  {
    var q := PointOf(chain[from + i]);
    PointKeyInjective(q, q);
    CachedBlockAt(chain, after, from + i);
    var p :| p in blocks && PointKey(q) == PointKey(p) && record.linked == blocks[p];
    CachedPoints(chain, after, p);
    PointKeyInjective(p, q);
  }

  /** What replay emits for the chain's block `k`. */
  ghost predicate IsLinkedAt(linked: LinkedBlock, chain: Chain, k: nat) {
    k < |chain| && linked == LinkedBlock(chain[k], TipPoint(chain[..k]))
  }

  lemma ReplayedAt(tip: Option<Point>, blocks: map<Point, LinkedBlock>, chain: Chain, after: int, from: nat,
                   keys: seq<Key>, records: seq<Record>, n: nat)
    requires Represents(tip, blocks, chain, after) && ValidChain(chain)
    requires from < |chain| && chain[from].slot > after && n < |records|
    requires Iterates(tip, blocks, chain, from, keys, records) && keys == ChainKeys(chain, from)
    ensures records[n].BlockRecord? && IsLinkedAt(records[n].linked, chain, from + n)
  {
    assert keys[n] == PointKey(PointOf(chain[from + n]));
    ReplayedRecord(tip, blocks, chain, after, from, n, records[n]);
  }

  /** Replay from a cached point emits the blocks of the chain from that point on, oldest first,
      each linked to the point before it. */
  method Replay(ghost tip: Option<Point>, ghost blocks: map<Point, LinkedBlock>, ghost chain: Chain, ghost after: int,
                ghost from: nat, ghost keys: seq<Key>, records: seq<Record>)
    returns (emitted: seq<LinkedBlock>, counter: nat)
    requires Represents(tip, blocks, chain, after) && ValidChain(chain)
    requires from < |chain| && chain[from].slot > after
    requires Iterates(tip, blocks, chain, from, keys, records)
    ensures counter == |emitted| == |chain| - from
    ensures forall i :: 0 <= i < |emitted| ==> IsLinkedAt(emitted[i], chain, from + i)
  {
    ReplayIsSuffix(tip, blocks, chain, after, from, keys);
    forall n | 0 <= n < |records| ensures records[n].BlockRecord? && IsLinkedAt(records[n].linked, chain, from + n) {
      ReplayedAt(tip, blocks, chain, after, from, keys, records, n);
    }
    emitted, counter := EmitBlocks(records, chain, from);
  }

  /** The loop of the source: it skips what is not a block. */
  method EmitBlocks(records: seq<Record>, ghost chain: Chain, ghost from: nat)
      returns (emitted: seq<LinkedBlock>, counter: nat)
    requires forall n :: 0 <= n < |records| ==>
      records[n].BlockRecord? && IsLinkedAt(records[n].linked, chain, from + n)
    ensures counter == |emitted| == |records|
    ensures forall i :: 0 <= i < |emitted| ==> IsLinkedAt(emitted[i], chain, from + i)
  {
    emitted, counter := [], 0;
    for n := 0 to |records|
      invariant counter == |emitted| == n
      invariant forall i :: 0 <= i < n ==> IsLinkedAt(emitted[i], chain, from + i)
    {
      if records[n].BlockRecord? {
        counter := counter + 1;
        emitted := emitted + [records[n].linked];
      }
    }
  }
}
