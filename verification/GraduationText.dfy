/** Printed forms of hashes, tokens and output references, and the splitting of text they
    are read back with. Models the text forms in spectrum-cardano-lib/src/lib.rs and the
    token, output reference and hash parsers of bloom-offchain-cardano/src/graduation.rs. */
module GraduationText {
  import opened Ledger

  const HASH_WIDTH: nat := 32
  const POLICY_WIDTH: nat := 28
  const NAME_LIMIT: nat := 32
  const U64_MAX: nat := 0xFFFF_FFFF_FFFF_FFFF

  type TxHash = h: seq<Byte> | |h| == 32 witness seq(32, _ => 0)
  type PolicyId = p: seq<Byte> | |p| == 28 witness seq(28, _ => 0)
  type AssetName = n: seq<Byte> | |n| <= 32 witness []
  type U64 = n: nat | n <= 0xFFFF_FFFF_FFFF_FFFF witness 0

  datatype Token = Token(policy: PolicyId, name: AssetName)
  datatype Ref = Ref(txHash: TxHash, index: U64)

  // ---- Splitting ----------------------------------------------------------

  /** The place of the first `c`, or the end. */
  function Find(s: string, c: char): (i: nat)
    ensures i <= |s| && c !in s[..i] && (i < |s| ==> s[i] == c)
  {
    if s == [] || s[0] == c then 0 else
    var rest := Find(s[1..], c);
    assert s[..1 + rest] == [s[0]] + s[1..][..rest];
    1 + rest
  }

  lemma FindAt(a: string, c: char, b: string)
    requires c !in a
    ensures Find(a + [c] + b, c) == |a|
  {
    var s := a + [c] + b;
    assert s[|a|] == c && s[..|a|] == a;
  }

  lemma FindNone(a: string, c: char)
    requires c !in a
    ensures Find(a, c) == |a|
  {
  }

  function SplitOnce(s: string, c: char): Option<(string, string)> {
    var i := Find(s, c);
    if i == |s| then None else Some((s[..i], s[i + 1..]))
  }

  lemma SplitOnceAt(a: string, c: char, b: string)
    requires c !in a
    ensures SplitOnce(a + [c] + b, c) == Some((a, b))
  {
    FindAt(a, c, b);
    var s := a + [c] + b;
    assert s[..|a|] == a && s[|a| + 1..] == b;
  }

  function Split(s: string, c: char): (parts: seq<string>)
    ensures parts != []
    decreases |s|
  {
    var i := Find(s, c);
    if i == |s| then [s] else [s[..i]] + Split(s[i + 1..], c)
  }

  lemma SplitAt(a: string, c: char, b: string)
    requires c !in a
    ensures Split(a + [c] + b, c) == [a] + Split(b, c)
  {
    FindAt(a, c, b);
    var s := a + [c] + b;
    assert s[..|a|] == a && s[|a| + 1..] == b;
  }

  /** `s` is `first`, the separator `c` and `tail`. */
  ghost predicate Begins(s: string, first: string, c: char, tail: string) {
    |first| < |s| && s[..|first|] == first && s[|first|] == c && s[|first| + 1..] == tail
  }

  lemma BeginsExactly(s: string, first: string, c: char, tail: string)
    ensures Begins(s, first, c, tail) <==> s == first + [c] + tail
  {
  }

  lemma SplitHead(s: string, c: char, first: string, rest: seq<string>)
    requires rest != []
    ensures Split(s, c) == [first] + rest <==>
      c !in first && |first| < |s| && Begins(s, first, c, s[|first| + 1..]) && Split(s[|first| + 1..], c) == rest
  {
    if Split(s, c) == [first] + rest {
      assert Split(s, c)[0] == first && Split(s, c)[1..] == rest;
    }
    if c !in first && |first| < |s| && Begins(s, first, c, s[|first| + 1..]) {
      var tail := s[|first| + 1..];
      BeginsExactly(s, first, c, tail);
      SplitAt(first, c, tail);
      assert ([first] + Split(tail, c))[1..] == Split(tail, c);
      assert ([first] + rest)[1..] == rest;
    }
  }

  lemma SplitSingle(s: string, c: char, a: string)
    ensures Split(s, c) == [a] <==> s == a && c !in a
  {
    if c in s { assert |Split(s, c)| >= 2; } else { FindNone(s, c); }
  }

  /** A line feed ends a line, together with a carriage return right before it. */
  function StripReturn(line: string): string {
    if line != [] && line[|line| - 1] == '\r' then line[..|line| - 1] else line
  }

  function Lines(s: string): seq<string>
    decreases |s|
  {
    if s == [] then [] else
    var i := Find(s, '\n');
    if i == |s| then [s] else [StripReturn(s[..i])] + Lines(s[i + 1..])
  }

  lemma LinesAt(line: string, rest: string)
    requires '\n' !in line && '\r' !in line
    ensures Lines(line + "\n" + rest) == [line] + Lines(rest)
  {
    FindAt(line, '\n', rest);
    var s := line + "\n" + rest;
    assert s[..|line|] == line && s[|line| + 1..] == rest;
  }

  // ---- Hexadecimal --------------------------------------------------------

  predicate IsHex(c: char) {
    '0' <= c <= '9' || 'a' <= c <= 'f'
  }

  function HexChar(n: nat): (c: char)
    requires n < 16
    ensures IsHex(c)
  {
    if n < 10 then ('0' as int + n) as char else ('a' as int + n - 10) as char
  }

  function HexValue(c: char): (v: Option<nat>)
    ensures v.Some? ==> v.value < 16
  {
    if '0' <= c <= '9' then Some(c as int - '0' as int)
    else if 'a' <= c <= 'f' then Some(c as int - 'a' as int + 10)
    else if 'A' <= c <= 'F' then Some(c as int - 'A' as int + 10)
    else None
  }

  function Hex(b: seq<Byte>): (s: string)
    ensures |s| == 2 * |b| && forall c :: c in s ==> IsHex(c)
  {
    if b == [] then [] else [HexChar(b[0] as nat / 16), HexChar(b[0] as nat % 16)] + Hex(b[1..])
  }

  /** Either case is read; an odd number of digits is not. */
  function HexDecode(s: string): Option<seq<Byte>> {
    if s == [] then Some([]) else
    if |s| == 1 then None else
    var hi, lo := HexValue(s[0]), HexValue(s[1]);
    var rest := HexDecode(s[2..]);
    if hi.None? || lo.None? || rest.None? then None
    else Some([(16 * hi.value + lo.value) as Byte] + rest.value)
  }

  lemma {:induction false} HexRoundTrip(b: seq<Byte>)
    ensures HexDecode(Hex(b)) == Some(b)
  {
    if b != [] {
      HexRoundTrip(b[1..]);
      assert Hex(b)[2..] == Hex(b[1..]);
      assert b == [b[0]] + b[1..];
    }
  }

  function Lower(c: char): char {
    if 'A' <= c <= 'F' then (c as int - 'A' as int + 'a' as int) as char else c
  }

  function Lowered(s: string): (r: string)
    ensures |r| == |s|
  {
    seq(|s|, k requires 0 <= k < |s| => Lower(s[k]))
  }

  lemma HexValueExactly(c: char, n: nat)
    requires n < 16
    ensures HexValue(c) == Some(n) <==> Lower(c) == HexChar(n)
  {
  }

  lemma HexDecodeStep(x: char, y: char, tail: string, h: Byte, rest: seq<Byte>)
    ensures HexDecode([x, y] + tail) == Some([h] + rest) <==>
      && Lower(x) == HexChar(h as nat / 16) && Lower(y) == HexChar(h as nat % 16)
      && HexDecode(tail) == Some(rest)
  {
    var s := [x, y] + tail;
    assert s[2..] == tail;
    HexValueExactly(x, h as nat / 16);
    HexValueExactly(y, h as nat % 16);
    var decoded := HexDecode(s);
    if decoded == Some([h] + rest) {
      assert decoded.value[0] == h && decoded.value[1..] == HexDecode(tail).value;
      assert ([h] + rest)[1..] == rest;
    }
  }

  lemma LoweredStep(x: char, y: char, tail: string, h: Byte, rest: seq<Byte>)
    ensures Lowered([x, y] + tail) == Hex([h] + rest) <==>
      && Lower(x) == HexChar(h as nat / 16) && Lower(y) == HexChar(h as nat % 16)
      && Lowered(tail) == Hex(rest)
  {
    assert ([h] + rest)[1..] == rest;
    var l, r := Lowered([x, y] + tail), Hex([h] + rest);
    assert l == [Lower(x), Lower(y)] + Lowered(tail);
    assert l[2..] == Lowered(tail) && r[2..] == Hex(rest);
  }

  /** Exactly the printed digits, in either case, are read as those bytes. */
  lemma {:induction false} HexExactly(s: string, b: seq<Byte>)
    ensures HexDecode(s) == Some(b) <==> Lowered(s) == Hex(b)
    decreases |s|
  {
    if |s| >= 2 && b != [] {
      assert s == [s[0], s[1]] + s[2..] && b == [b[0]] + b[1..];
      HexExactly(s[2..], b[1..]);
      HexDecodeStep(s[0], s[1], s[2..], b[0], b[1..]);
      LoweredStep(s[0], s[1], s[2..], b[0], b[1..]);
    }
  }

  function ParseHash(s: string): Option<TxHash> {
    var b := HexDecode(s);
    if b.Some? && |b.value| == HASH_WIDTH then Some(b.value) else None
  }

  // ---- Decimal ------------------------------------------------------------

  predicate IsDigit(c: char) {
    '0' <= c <= '9'
  }

  function Digit(d: nat): char
    requires d < 10
  {
    ('0' as int + d) as char
  }

  function Decimal(n: nat): (s: string)
    ensures s != [] && forall c :: c in s ==> IsDigit(c)
  {
    var last := [Digit(n % 10)];
    if n < 10 then last else Decimal(n / 10) + last
  }

  function DigitsValue(s: string): Option<nat> {
    if s == [] then Some(0) else
    var front, last := DigitsValue(s[..|s| - 1]), s[|s| - 1];
    if front.None? || !IsDigit(last) then None else Some(10 * front.value + (last as int - '0' as int))
  }

  lemma {:induction false} OnlyDigits(s: string)
    requires DigitsValue(s).Some?
    ensures forall c :: c in s ==> IsDigit(c)
  {
    if s != [] {
      OnlyDigits(s[..|s| - 1]);
      assert s == s[..|s| - 1] + [s[|s| - 1]];
    }
  }

  lemma {:induction false} DecimalRoundTrip(n: nat)
    ensures DigitsValue(Decimal(n)) == Some(n)
  {
    var s := Decimal(n);
    if n < 10 {
      assert s[..|s| - 1] == [];
    } else {
      DecimalRoundTrip(n / 10);
      assert s[..|s| - 1] == Decimal(n / 10);
    }
  }

  /** A leading plus sign is read, the empty number and one past 64 bits are not. */
  function ParseU64(s: string): Option<U64> {
    var digits := if s != [] && s[0] == '+' then s[1..] else s;
    if digits == [] then None else
    var v := DigitsValue(digits);
    if v.None? || v.value > U64_MAX then None else Some(v.value)
  }

  lemma U64RoundTrip(n: U64)
    ensures ParseU64(Decimal(n)) == Some(n)
  {
    DecimalRoundTrip(n);
    assert Decimal(n)[0] in Decimal(n);
  }

  ghost predicate AllZeros(s: string) {
    forall k :: 0 <= k < |s| ==> s[k] == '0'
  }

  /** The digits of a number, with any number of zeros before them. */
  ghost predicate Spells(s: string, n: nat) {
    exists z: nat :: z <= |s| && AllZeros(s[..z]) && s[z..] == Decimal(n)
  }

  lemma DecimalMore(m: nat, d: nat)
    requires d < 10
    ensures Decimal(10 * m + d) == if m == 0 then [Digit(d)] else Decimal(m) + [Digit(d)]
  {
    assert (10 * m + d) / 10 == m && (10 * m + d) % 10 == d;
  }

  lemma ZerosAndZero(s: string, z: nat)
    requires z <= |s| && AllZeros(s[..z]) && s[z..] == "0"
    ensures AllZeros(s)
  {
    forall k | 0 <= k < |s| ensures s[k] == '0' {
      if k < z { assert s[..z][k] == '0'; } else { assert s[z..][k - z] == s[k]; }
    }
  }

  lemma SpellsMore(s: string, m: nat, d: nat)
    requires Spells(s, m) && d < 10
    ensures Spells(s + [Digit(d)], 10 * m + d)
  {
    var all := s + [Digit(d)];
    var z: nat :| z <= |s| && AllZeros(s[..z]) && s[z..] == Decimal(m);
    DecimalMore(m, d);
    if m == 0 {
      ZerosAndZero(s, z);
      assert all[..|s|] == s && all[|s|..] == [Digit(d)];
    } else {
      assert all[..z] == s[..z] && all[z..] == s[z..] + [Digit(d)];
    }
  }

  lemma SpellsLess(s: string, n: nat)
    requires |s| >= 2 && Spells(s, n)
    ensures Spells(s[..|s| - 1], n / 10) && s[|s| - 1] == Digit(n % 10)
  {
    var front := s[..|s| - 1];
    var z: nat :| z <= |s| && AllZeros(s[..z]) && s[z..] == Decimal(n);
    assert s[|s| - 1] == s[z..][|s[z..]| - 1];
    if n < 10 {
      assert z == |s| - 1 && AllZeros(front[..z - 1]);
      assert front[z - 1..] == Decimal(0);
    } else {
      assert front[..z] == s[..z];
      assert front[z..] == s[z..][..|s[z..]| - 1] == Decimal(n / 10);
    }
  }

  lemma DigitValue(c: char)
    ensures DigitsValue([c]) == if IsDigit(c) then Some(c as int - '0' as int) else None
  {
    assert [c][..0] == [];
  }

  lemma ShortDecimal(c: char, n: nat)
    ensures [c] == Decimal(n) <==> n < 10 && c == Digit(n)
  {
    DecimalMore(n / 10, n % 10);
  }

  lemma SpellsOne(c: char, n: nat)
    ensures Spells([c], n) <==> [c] == Decimal(n)
  {
    var s := [c];
    assert s[..0] == [] && s[0..] == s && s[1..] == [];
    if Spells(s, n) {
      var z: nat :| z <= |s| && AllZeros(s[..z]) && s[z..] == Decimal(n);
      assert z == 0;
    }
  }

  lemma OneDigit(c: char, n: nat)
    ensures DigitsValue([c]) == Some(n) <==> Spells([c], n)
  {
    DigitValue(c);
    ShortDecimal(c, n);
    SpellsOne(c, n);
  }

  lemma {:induction false} DigitsExactly(s: string, n: nat)
    requires s != []
    ensures DigitsValue(s) == Some(n) <==> Spells(s, n)
    decreases |s|
  {
    var front, last := s[..|s| - 1], s[|s| - 1];
    assert s == front + [last];
    if front == [] {
      OneDigit(last, n);
    } else {
      if DigitsValue(s) == Some(n) {
        var m, d := DigitsValue(front).value, last as int - '0' as int;
        DigitsExactly(front, m);
        SpellsMore(front, m, d);
      }
      if Spells(s, n) {
        SpellsLess(s, n);
        DigitsExactly(front, n / 10);
      }
    }
  }

  /** Exactly the digits of a number are read as it, with any zeros and one plus sign before them. */
  lemma U64Exactly(s: string, n: U64)
    ensures ParseU64(s) == Some(n) <==> Spells(if s != [] && s[0] == '+' then s[1..] else s, n)
  {
    var digits := if s != [] && s[0] == '+' then s[1..] else s;
    if digits != [] { DigitsExactly(digits, n); }
  }

  // ---- Tokens and output references ---------------------------------------

  function TokenText(t: Token): string {
    Hex(t.policy) + "." + Hex(t.name)
  }

  function ParseToken(s: string): Option<Token> {
    var parts := SplitOnce(s, '.');
    if parts.None? then None else
    var policy, name := HexDecode(parts.value.0), HexDecode(parts.value.1);
    if policy.Some? && |policy.value| == POLICY_WIDTH && name.Some? && |name.value| <= NAME_LIMIT
    then Some(Token(policy.value, name.value))
    else None
  }

  lemma TokenRoundTrip(t: Token)
    ensures ParseToken(TokenText(t)) == Some(t)
  {
    SplitOnceAt(Hex(t.policy), '.', Hex(t.name));
    HexRoundTrip(t.policy);
    HexRoundTrip(t.name);
  }

  lemma LoweredAt(s: string, i: nat)
    requires i < |s|
    ensures Lowered(s) == Lowered(s[..i]) + [Lower(s[i])] + Lowered(s[i + 1..])
  {
  }

  lemma HexKeepsOut(s: string, b: seq<Byte>, c: char)
    requires Lowered(s) == Hex(b) && !IsHex(Lower(c))
    ensures c !in s
  {
    forall k | 0 <= k < |s| ensures s[k] != c { assert Lowered(s)[k] in Hex(b); }
  }

  /** Exactly the printed form, in either case, is read as a token. */
  lemma TokenExactly(s: string, t: Token)
    ensures ParseToken(s) == Some(t) <==> Lowered(s) == TokenText(t)
  {
    if ParseToken(s) == Some(t) {
      var i := Find(s, '.');
      LoweredAt(s, i);
      HexExactly(s[..i], t.policy);
      HexExactly(s[i + 1..], t.name);
    }
    if Lowered(s) == TokenText(t) {
      var i := |Hex(t.policy)|;
      var a, b := s[..i], s[i + 1..];
      assert Lowered(s)[i] == '.';
      LoweredAt(s, i);
      assert Lowered(a) == Lowered(s)[..i] == Hex(t.policy);
      assert Lowered(b) == Lowered(s)[i + 1..] == Hex(t.name);
      HexKeepsOut(a, t.policy, '.');
      assert s == a + ['.'] + b;
      SplitOnceAt(a, '.', b);
      HexExactly(a, t.policy);
      HexExactly(b, t.name);
    }
  }

  function RefText(r: Ref): string {
    Hex(r.txHash) + "#" + Decimal(r.index)
  }

  function ParseRef(s: string): Option<Ref> {
    var parts := SplitOnce(s, '#');
    if parts.None? then None else
    var hash, index := ParseHash(parts.value.0), ParseU64(parts.value.1);
    if hash.Some? && index.Some? then Some(Ref(hash.value, index.value)) else None
  }

  lemma RefRoundTrip(r: Ref)
    ensures ParseRef(RefText(r)) == Some(r)
  {
    SplitOnceAt(Hex(r.txHash), '#', Decimal(r.index));
    HexRoundTrip(r.txHash);
    U64RoundTrip(r.index);
  }

  lemma HashRoundTrip(h: TxHash)
    ensures ParseHash(Hex(h)) == Some(h)
  {
    HexRoundTrip(h);
  }

  /** Exactly the printed form is read as a hash, in either case. */
  lemma HashExactly(s: string, h: TxHash)
    ensures ParseHash(s) == Some(h) <==> Lowered(s) == Hex(h)
  {
    HexExactly(s, h);
  }

  /** A hash in either case, a number sign, and the digits of the index. */
  ghost predicate IsRefText(s: string, i: nat, r: Ref) {
    && i < |s| && s[i] == '#' && Lowered(s[..i]) == Hex(r.txHash)
    && ParseU64(s[i + 1..]) == Some(r.index)
  }

  lemma RefExactly(s: string, r: Ref)
    ensures ParseRef(s) == Some(r) <==> exists i: nat :: IsRefText(s, i, r)
  {
    if ParseRef(s) == Some(r) {
      var i := Find(s, '#');
      HashExactly(s[..i], r.txHash);
      assert IsRefText(s, i, r);
    }
    if i: nat :| IsRefText(s, i, r) {
      HexKeepsOut(s[..i], r.txHash, '#');
      assert s == s[..i] + ['#'] + s[i + 1..];
      SplitOnceAt(s[..i], '#', s[i + 1..]);
      HashExactly(s[..i], r.txHash);
    }
  }

  /** Text that holds no separator of journal records. */
  ghost predicate Plain(s: string) {
    ' ' !in s && '\n' !in s && '\r' !in s
  }

  lemma TokenTextPlain(t: Token)
    ensures Plain(TokenText(t))
  {
  }

  lemma RefTextPlain(r: Ref)
    ensures Plain(RefText(r))
  {
  }
}
