/** Byte strings under the order in which RocksDB keeps its keys, and the fixed-width
    big-endian form of unsigned numbers. */
module ByteOrder {
  import opened Ledger

  type Key = seq<Byte>

  // ---- Lexicographic order ------------------------------------------------

  predicate Less(a: Key, b: Key) {
    b != [] && (a == [] || a[0] < b[0] || (a[0] == b[0] && Less(a[1..], b[1..])))
  }

  predicate AtMost(a: Key, b: Key) {
    a == b || Less(a, b)
  }

  lemma {:induction false} LessIrreflexive(a: Key)
    ensures !Less(a, a)
  {
    if a != [] { LessIrreflexive(a[1..]); }
  }

  lemma {:induction false} LessTransitive(a: Key, b: Key, c: Key)
    requires Less(a, b) && Less(b, c)
    ensures Less(a, c)
  {
    if a != [] && a[0] == b[0] == c[0] { LessTransitive(a[1..], b[1..], c[1..]); }
  }

  /** A common prefix does not matter for the order. */
  lemma {:induction false} LessAfterPrefix(p: Key, a: Key, b: Key)
    ensures Less(p + a, p + b) <==> Less(a, b)
  {
    if p == [] {
      assert p + a == a && p + b == b;
    } else {
      assert (p + a)[1..] == p[1..] + a && (p + b)[1..] == p[1..] + b;
      LessAfterPrefix(p[1..], a, b);
    }
  }

  /** Order decided within two parts of equal length is not changed by what follows. */
  lemma {:induction false} LessBeforeSuffix(a: Key, b: Key, x: Key, y: Key)
    requires |a| == |b| && Less(a, b)
    ensures Less(a + x, b + y)
  {
    assert (a + x)[1..] == a[1..] + x && (b + y)[1..] == b[1..] + y;
    if a[0] == b[0] { LessBeforeSuffix(a[1..], b[1..], x, y); }
  }

  // ---- Big-endian numbers -------------------------------------------------

  function BigEndian(v: nat, width: nat): (r: Key)
    ensures |r| == width
  {
    if width == 0 then [] else BigEndian(v / 256, width - 1) + [(v % 256) as Byte]
  }

  function Range(width: nat): nat {
    if width == 0 then 1 else 256 * Range(width - 1)
  }

  /** The number that big-endian bytes stand for. */
  function Value(b: Key): (v: nat)
    ensures v < Range(|b|)
  {
    if b == [] then 0 else 256 * Value(b[..|b| - 1]) + b[|b| - 1] as nat
  }

  lemma {:induction false} ValueOfBigEndian(v: nat, width: nat)
    requires v < Range(width)
    ensures Value(BigEndian(v, width)) == v
  {
    if width > 0 {
      ValueOfBigEndian(v / 256, width - 1);
      assert BigEndian(v, width)[..width - 1] == BigEndian(v / 256, width - 1);
    }
  }

  lemma DivideDigit(v: nat, digit: nat)
    requires digit < 256
    ensures (256 * v + digit) / 256 == v && (256 * v + digit) % 256 == digit
  {
  }

  lemma {:induction false} BigEndianOfValue(b: Key)
    ensures BigEndian(Value(b), |b|) == b
  {
    if b != [] {
      var front, last := b[..|b| - 1], b[|b| - 1];
      BigEndianOfValue(front);
      DivideDigit(Value(front), last as nat);
      assert b == front + [last];
    }
  }

  /** Big-endian bytes are ordered as the numbers they stand for. */
  lemma {:induction false} BigEndianOrder(v: nat, w: nat, width: nat)
    requires v < w < Range(width)
    ensures Less(BigEndian(v, width), BigEndian(w, width))
  {
    var hv, hw := BigEndian(v / 256, width - 1), BigEndian(w / 256, width - 1);
    if v / 256 < w / 256 {
      BigEndianOrder(v / 256, w / 256, width - 1);
      LessBeforeSuffix(hv, hw, [(v % 256) as Byte], [(w % 256) as Byte]);
    } else {
      LessAfterPrefix(hv, [(v % 256) as Byte], [(w % 256) as Byte]);
    }
  }

  const SLOT_WIDTH: nat := 8
  const SLOT_MAX: nat := 0xFFFF_FFFF_FFFF_FFFF

  lemma SlotRange()
    ensures Range(SLOT_WIDTH) == SLOT_MAX + 1
  {
    assert Range(1) == 256;
    assert Range(2) == 256 * Range(1);
    assert Range(3) == 256 * Range(2);
    assert Range(4) == 256 * Range(3);
    assert Range(5) == 256 * Range(4);
    assert Range(6) == 256 * Range(5);
    assert Range(7) == 256 * Range(6);
  }

  lemma SlotOrder(v: Slot, w: Slot)
    requires v <= SLOT_MAX && w <= SLOT_MAX
    ensures v < w <==> Less(BigEndian(v, SLOT_WIDTH), BigEndian(w, SLOT_WIDTH))
    ensures v == w <==> BigEndian(v, SLOT_WIDTH) == BigEndian(w, SLOT_WIDTH)
  {
    SlotRange();
    var a, b := BigEndian(v, SLOT_WIDTH), BigEndian(w, SLOT_WIDTH);
    LessIrreflexive(a);
    if v < w { BigEndianOrder(v, w, SLOT_WIDTH); }
    if w < v {
      BigEndianOrder(w, v, SLOT_WIDTH);
      if Less(a, b) { LessTransitive(a, b, a); }
    }
  }
}
