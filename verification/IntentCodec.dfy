/** The wire form of authenticated intents: four fields, each after its length, then a
    fixed-size credential. Models intent-relay/src/intent.rs. */
module IntentCodec {
  import opened Ledger
  import opened ByteOrder

  const U32: nat := 0x1_0000_0000
  const CREDENTIAL_WIDTH: nat := 32

  type Bytes = seq<Byte>
  type KeyBytes = c: Bytes | |c| == 32 witness seq(32, _ => 0)

  datatype AuthedIntent =
    AuthedIntent(intent: Bytes, prefix: Bytes, postfix: Bytes, signature: Bytes, credential: KeyBytes)

  datatype Error = UnexpectedEnd | IncompleteCredential

  datatype Result<T> = Ok(value: T) | Err(error: Error)

  // ---- The wire form ------------------------------------------------------

  /** A length is cut to 32 bits before it is written. */
  function Field(v: Bytes): Bytes {
    BigEndian(|v| % U32, 4) + v
  }

  function Fields(x: AuthedIntent): Bytes {
    Field(x.intent) + (Field(x.prefix) + (Field(x.postfix) + Field(x.signature)))
  }

  function Encoding(x: AuthedIntent): Bytes {
    Fields(x) + x.credential
  }

  predicate Fits(x: AuthedIntent) {
    |x.intent| < U32 && |x.prefix| < U32 && |x.postfix| < U32 && |x.signature| < U32
  }

  method WriteField(buffer: Bytes, v: Bytes) returns (extended: Bytes)
    ensures extended == buffer + Field(v)
  {
    extended := buffer + BigEndian(|v| % U32, 4);
    extended := extended + v;
    assert extended == buffer + (BigEndian(|v| % U32, 4) + v);
  }

  lemma FourFields(a: Bytes, b: Bytes, c: Bytes, d: Bytes)
    ensures [] + a + b + c + d == a + (b + (c + d))
  {
    assert [] + a == a;
    Associative(a, b, c);
    Associative(a, b + c, d);
    Associative(b, c, d);
  }

  method Encode(x: AuthedIntent) returns (encoded: Bytes)
    ensures encoded == Encoding(x)
  {
    ghost var b, c, d := Field(x.prefix), Field(x.postfix), Field(x.signature);
    encoded := WriteField([], x.intent);
    encoded := WriteField(encoded, x.prefix);
    encoded := WriteField(encoded, x.postfix);
    encoded := WriteField(encoded, x.signature);
    FourFields(Field(x.intent), b, c, d);
    encoded := encoded + x.credential;
  }

  // ---- Reading ------------------------------------------------------------

  lemma U32Range()
    ensures Range(4) == U32
  {
    assert Range(1) == 256;
    assert Range(2) == 256 * Range(1);
    assert Range(3) == 256 * Range(2);
  }

  datatype Taken = Short | Taken(field: Bytes, rest: Bytes)

  /** The first length-prefixed field of `data` and what follows it. */
  function Take(data: Bytes): (t: Taken)
    ensures t.Taken? ==> |t.rest| < |data|
  {
    if |data| < 4 then Short else
    var len := Value(data[..4]);
    if 4 + len > |data| then Short else Taken(data[4..4 + len], data[4 + len..])
  }

  datatype Parsed = Lacking | Parsed(intent: Bytes, prefix: Bytes, postfix: Bytes, signature: Bytes, rest: Bytes)

  function Parse(data: Bytes): Parsed {
    var a := Take(data);
    if a.Short? then Lacking else
    var b := Take(a.rest);
    if b.Short? then Lacking else
    var c := Take(b.rest);
    if c.Short? then Lacking else
    var d := Take(c.rest);
    if d.Short? then Lacking else
    Parsed(a.field, b.field, c.field, d.field, d.rest)
  }

  function Decoded(data: Bytes): Result<AuthedIntent> {
    match Parse(data)
    case Lacking => Err(UnexpectedEnd)
    case Parsed(a, b, c, d, rest) =>
      if |rest| < CREDENTIAL_WIDTH
      then Err(IncompleteCredential)
      else Ok(AuthedIntent(a, b, c, d, rest[..CREDENTIAL_WIDTH]))
  }

  method ReadU32(data: Bytes, cursor: nat) returns (r: Result<nat>, next: nat)
    requires cursor <= |data|
    ensures r.Err? <==> |data| - cursor < 4
    ensures r.Err? ==> r.error == UnexpectedEnd && next == cursor
    ensures r.Ok? ==> next == cursor + 4 && r.value < U32 && data[cursor..next] == BigEndian(r.value, 4)
  {
    next := cursor;
    if cursor + 4 > |data| { return Err(UnexpectedEnd), next; }
    var value := Value(data[cursor..cursor + 4]);
    BigEndianOfValue(data[cursor..cursor + 4]);
    U32Range();
    next := next + 4;
    r := Ok(value);
  }

  method ReadVec(data: Bytes, len: nat, cursor: nat) returns (r: Result<Bytes>, next: nat)
    requires cursor <= |data|
    ensures r.Err? <==> |data| - cursor < len
    ensures r.Err? ==> r.error == UnexpectedEnd && next == cursor
    ensures r.Ok? ==> next == cursor + len && data[cursor..] == r.value + data[next..]
  {
    next := cursor;
    if cursor + len > |data| { return Err(UnexpectedEnd), next; }
    r := Ok(data[cursor..cursor + len]);
    next := next + len;
  }

  /** One length and the bytes it announces. */
  method ReadField(data: Bytes, cursor: nat) returns (r: Result<Bytes>, next: nat)
    requires cursor <= |data|
    ensures next <= |data|
    ensures Take(data[cursor..]).Short? ==> r == Err(UnexpectedEnd)
    ensures Take(data[cursor..]).Taken? ==>
      Take(data[cursor..]) == Taken(if r.Ok? then r.value else [], data[next..]) && r.Ok?
  {
    ghost var tail := data[cursor..];
    var len, afterLen := ReadU32(data, cursor);
    if len.Err? { return Err(len.error), afterLen; }
    assert tail[..4] == data[cursor..afterLen];
    U32Range();
    ValueOfBigEndian(len.value, 4);
    r, next := ReadVec(data, len.value, afterLen);
    assert tail[4..] == data[afterLen..];
    if r.Ok? {
      assert data[afterLen..][..len.value] == r.value;
      assert tail[4 + len.value..] == data[next..];
    }
  }

  method Decode(encoded: Bytes) returns (r: Result<AuthedIntent>)
    ensures r == Decoded(encoded)
  {
    assert encoded[0..] == encoded;
    var intent, c1 := ReadField(encoded, 0);
    if intent.Err? { return Err(intent.error); }
    var prefix, c2 := ReadField(encoded, c1);
    if prefix.Err? { return Err(prefix.error); }
    var postfix, c3 := ReadField(encoded, c2);
    if postfix.Err? { return Err(postfix.error); }
    var signature, c4 := ReadField(encoded, c3);
    if signature.Err? { return Err(signature.error); }
    if c4 + CREDENTIAL_WIDTH > |encoded| { return Err(IncompleteCredential); }
    var credential := encoded[c4..c4 + CREDENTIAL_WIDTH];
    assert credential == encoded[c4..][..CREDENTIAL_WIDTH];
    r := Ok(AuthedIntent(intent.value, prefix.value, postfix.value, signature.value, credential));
  }

  // ---- Decoding is the inverse of encoding --------------------------------

  lemma Parts(h: Bytes, v: Bytes, rest: Bytes)
    ensures (h + v + rest)[..|h|] == h && (h + v + rest)[|h|..|h| + |v|] == v && (h + v + rest)[|h| + |v|..] == rest
  {
  }

  lemma TakeParts(h: Bytes, v: Bytes, rest: Bytes)
    requires |h| == 4 && Value(h) == |v|
    ensures Take(h + v + rest) == Taken(v, rest)
  {
    Parts(h, v, rest);
  }

  lemma TakeField(v: Bytes, rest: Bytes)
    requires |v| < U32
    ensures Take(Field(v) + rest) == Taken(v, rest)
  {
    U32Range();
    ValueOfBigEndian(|v|, 4);
    TakeParts(BigEndian(|v|, 4), v, rest);
  }

  lemma Cut(data: Bytes, i: nat, j: nat)
    requires i <= j <= |data|
    ensures data == data[..i] + data[i..j] + data[j..]
  {
  }

  lemma TakenField(data: Bytes)
    requires Take(data).Taken?
    ensures |Take(data).field| < U32 && data == Field(Take(data).field) + Take(data).rest
  {
    U32Range();
    var h := data[..4];
    BigEndianOfValue(h);
    Cut(data, 4, 4 + Value(h));
  }

  lemma ParseFields(x: AuthedIntent, rest: Bytes)
    requires Fits(x)
    ensures Parse(Fields(x) + rest) == Parsed(x.intent, x.prefix, x.postfix, x.signature, rest)
  {
    var b, c, d := Field(x.prefix), Field(x.postfix), Field(x.signature);
    Associative(Field(x.intent), b + (c + d), rest);
    TakeField(x.intent, b + (c + d) + rest);
    Associative(b, c + d, rest);
    TakeField(x.prefix, c + d + rest);
    Associative(c, d, rest);
    TakeField(x.postfix, d + rest);
    TakeField(x.signature, rest);
  }

  lemma ParsedFields(data: Bytes, credential: KeyBytes) returns (x: AuthedIntent)
    requires Parse(data).Parsed?
    ensures var p := Parse(data); x == AuthedIntent(p.intent, p.prefix, p.postfix, p.signature, credential)
    ensures Fits(x) && data == Fields(x) + Parse(data).rest
  {
    var p := Parse(data);
    x := AuthedIntent(p.intent, p.prefix, p.postfix, p.signature, credential);
    var a := Take(data);
    var b := Take(a.rest);
    var c := Take(b.rest);
    TakenField(data);
    TakenField(a.rest);
    TakenField(b.rest);
    TakenField(c.rest);
    var fb, fc, fd := Field(x.prefix), Field(x.postfix), Field(x.signature);
    Associative(fc, fd, p.rest);
    Associative(fb, fc + fd, p.rest);
    Associative(Field(x.intent), fb + (fc + fd), p.rest);
  }

  lemma EncodingStarts(data: Bytes, x: AuthedIntent, tail: Bytes)
    requires data == Fields(x) + tail && |tail| >= CREDENTIAL_WIDTH && x.credential == tail[..CREDENTIAL_WIDTH]
    ensures Encoding(x) <= data
  {
    var rest := tail[CREDENTIAL_WIDTH..];
    assert tail == x.credential + rest;
    Associative(Fields(x), x.credential, rest);
  }

  lemma DecodedStartsData(data: Bytes)
    requires Decoded(data).Ok?
    ensures Fits(Decoded(data).value) && Encoding(Decoded(data).value) <= data
  {
    var tail := Parse(data).rest;
    var x := ParsedFields(data, tail[..CREDENTIAL_WIDTH]);
    EncodingStarts(data, x, tail);
  }

  /** Data decodes to an intent exactly when it starts with the encoding of that intent. */
  lemma DecodesExactly(data: Bytes, x: AuthedIntent)
    ensures Decoded(data) == Ok(x) <==> Fits(x) && Encoding(x) <= data
  {
    if Decoded(data) == Ok(x) { DecodedStartsData(data); }
    if Fits(x) && Encoding(x) <= data {
      var rest := data[|Encoding(x)|..];
      assert data == Encoding(x) + rest;
      Associative(Fields(x), x.credential, rest);
      ParseFields(x, x.credential + rest);
      assert (x.credential + rest)[..CREDENTIAL_WIDTH] == x.credential;
    }
  }

  /** Only the credential is missed exactly when the data holds four fields and less than a credential more. */
  lemma IncompleteExactly(data: Bytes)
    ensures Decoded(data) == Err(IncompleteCredential) <==>
            exists x :: Fits(x) && Fields(x) <= data && |data| < |Fields(x)| + CREDENTIAL_WIDTH
  {
    if Decoded(data) == Err(IncompleteCredential) {
      var x := ParsedFields(data, seq(CREDENTIAL_WIDTH, _ => 0));
    }
    if x :| Fits(x) && Fields(x) <= data && |data| < |Fields(x)| + CREDENTIAL_WIDTH {
      var rest := data[|Fields(x)|..];
      assert data == Fields(x) + rest;
      ParseFields(x, rest);
    }
  }

  /** Decoding what was encoded gives it back exactly when no length was cut. */
  lemma RoundTrip(x: AuthedIntent, rest: Bytes)
    ensures Decoded(Encoding(x) + rest) == Ok(x) <==> Fits(x)
  {
    DecodesExactly(Encoding(x) + rest, x);
  }

  /** A field of 2^32 zero bytes is announced as empty, and its intent is lost. */
  lemma LongFieldLost(x: AuthedIntent)
    requires x.intent == seq(U32, _ => 0)
    ensures Field(x.intent)[..4] == [0, 0, 0, 0]
    ensures Decoded(Encoding(x)) != Ok(x)
  {
    assert BigEndian(0, 3) == [0, 0, 0] by { assert BigEndian(0, 1) == [0] && BigEndian(0, 2) == [0, 0]; }
    assert |x.intent| % U32 == 0;
    DecodesExactly(Encoding(x), x);
  }

  lemma StrictPrefixRejected(x: AuthedIntent, p: Bytes)
    requires Fits(x) && p < Encoding(x)
    ensures Decoded(p).Err?
  {
    if Decoded(p).Ok? {
      var y := Decoded(p).value;
      DecodesExactly(p, y);
      DecodesExactly(Encoding(x), y);
      DecodesExactly(Encoding(x), x);
    }
  }

  // ---- Streams of intents -------------------------------------------------

  function Stream(xs: seq<AuthedIntent>): Bytes {
    if xs == [] then [] else Encoding(xs[0]) + Stream(xs[1..])
  }

  lemma StreamHead(xs: seq<AuthedIntent>)
    requires xs != []
    ensures Encoding(xs[0]) <= Stream(xs) && Stream(xs)[|Encoding(xs[0])|..] == Stream(xs[1..])
  {
  }

  /** What starts with two encodings starts with one intent. */
  lemma SameHead(data: Bytes, x: AuthedIntent, y: AuthedIntent)
    requires Fits(x) && Fits(y) && Encoding(x) <= data && Encoding(y) <= data
    ensures x == y
  {
    DecodesExactly(data, x);
    DecodesExactly(data, y);
  }

  /** A stream of encodings stands for one sequence of intents only. */
  lemma {:induction false} StreamInjective(xs: seq<AuthedIntent>, ys: seq<AuthedIntent>)
    requires forall k :: 0 <= k < |xs| ==> Fits(xs[k])
    requires forall k :: 0 <= k < |ys| ==> Fits(ys[k])
    requires Stream(xs) == Stream(ys)
    ensures xs == ys
    decreases |xs|
  {
    if xs != [] { StreamHead(xs); }
    if ys != [] { StreamHead(ys); }
    if xs != [] && ys != [] {
      SameHead(Stream(xs), xs[0], ys[0]);
      StreamInjective(xs[1..], ys[1..]);
      assert xs == [xs[0]] + xs[1..] && ys == [ys[0]] + ys[1..];
    }
  }
}
