/** The journal records of the graduation state: one line for each consumed or produced pool
    output and for each graduated pool. Models `encode_journal_entry` and
    `parse_journal_entry` of bloom-offchain-cardano/src/graduation.rs. */
module GraduationJournal {
  import opened Ledger
  import opened GraduationText

  /** A live pool output and the pool it belongs to. */
  datatype Live = Live(ref: Ref, pool: Token)

  datatype Entry = Entry(consumed: seq<Live>, produced: seq<Live>, graduated: seq<Token>)

  datatype Fault = MissingOutputRef | MissingPool | BadOutputRef | BadToken | BadHash | BadRecord

  datatype Result<T> = Ok(value: T) | Err(fault: Fault)

  // ---- Printing -----------------------------------------------------------

  function LiveLine(tag: string, l: Live): string {
    tag + " " + (RefText(l.ref) + " " + TokenText(l.pool))
  }

  function LiveText(tag: string, ls: seq<Live>): string {
    if ls == [] then [] else LiveLine(tag, ls[0]) + "\n" + LiveText(tag, ls[1..])
  }

  function GraduatedLine(t: Token): string {
    "G" + " " + TokenText(t)
  }

  function GraduatedText(ts: seq<Token>): string {
    if ts == [] then [] else GraduatedLine(ts[0]) + "\n" + GraduatedText(ts[1..])
  }

  function EntryText(e: Entry): string {
    LiveText("C", e.consumed) + (LiveText("P", e.produced) + GraduatedText(e.graduated))
  }

  method PushLive(out: string, tag: string, l: Live) returns (pushed: string)
    ensures pushed == out + (LiveLine(tag, l) + "\n")
  {
    pushed := out + tag + " ";
    pushed := pushed + RefText(l.ref) + " ";
    pushed := pushed + TokenText(l.pool) + "\n";
  }

  lemma LiveTextFrom(tag: string, ls: seq<Live>, i: nat, before: string)
    requires i < |ls|
    ensures before + LiveText(tag, ls[i..]) == before + (LiveLine(tag, ls[i]) + "\n") + LiveText(tag, ls[i + 1..])
  {
    assert ls[i..][1..] == ls[i + 1..];
    Associative(before, LiveLine(tag, ls[i]) + "\n", LiveText(tag, ls[i + 1..]));
  }

  method PrintLive(tag: string, ls: seq<Live>, out: string) returns (printed: string)
    ensures printed == out + LiveText(tag, ls)
  {
    printed := out;
    ghost var whole := out + LiveText(tag, ls);
    assert ls[0..] == ls;
    for i := 0 to |ls|
      invariant printed + LiveText(tag, ls[i..]) == whole
    {
      LiveTextFrom(tag, ls, i, printed);
      printed := PushLive(printed, tag, ls[i]);
    }
    assert LiveText(tag, ls[|ls|..]) == [];
  }

  method PushGraduated(out: string, t: Token) returns (pushed: string)
    ensures pushed == out + (GraduatedLine(t) + "\n")
  {
    pushed := out + "G ";
    pushed := pushed + TokenText(t) + "\n";
  }

  lemma GraduatedTextFrom(ts: seq<Token>, i: nat, before: string)
    requires i < |ts|
    ensures before + GraduatedText(ts[i..]) == before + (GraduatedLine(ts[i]) + "\n") + GraduatedText(ts[i + 1..])
  {
    assert ts[i..][1..] == ts[i + 1..];
    Associative(before, GraduatedLine(ts[i]) + "\n", GraduatedText(ts[i + 1..]));
  }

  method PrintGraduated(ts: seq<Token>, out: string) returns (printed: string)
    ensures printed == out + GraduatedText(ts)
  {
    printed := out;
    ghost var whole := out + GraduatedText(ts);
    assert ts[0..] == ts;
    for i := 0 to |ts|
      invariant printed + GraduatedText(ts[i..]) == whole
    {
      GraduatedTextFrom(ts, i, printed);
      printed := PushGraduated(printed, ts[i]);
    }
    assert GraduatedText(ts[|ts|..]) == [];
  }

  method EncodeJournalEntry(e: Entry) returns (out: string)
    ensures out == EntryText(e)
  {
    Associative(LiveText("C", e.consumed), LiveText("P", e.produced), GraduatedText(e.graduated));
    out := PrintLive("C", e.consumed, "");
    out := PrintLive("P", e.produced, out);
    out := PrintGraduated(e.graduated, out);
  }

  // ---- Parsing ------------------------------------------------------------

  function ParseLive(parts: seq<string>): Result<Live>
    requires parts != []
  {
    if |parts| < 2 then Err(MissingOutputRef) else
    var ref := ParseRef(parts[1]);
    if ref.None? then Err(BadOutputRef) else
    if |parts| < 3 then Err(MissingPool) else
    var pool := ParseToken(parts[2]);
    if pool.None? then Err(BadToken) else
    if |parts| > 3 then Err(BadRecord) else Ok(Live(ref.value, pool.value))
  }

  function ParseGraduated(parts: seq<string>): Result<Token>
    requires parts != []
  {
    if |parts| < 2 then Err(MissingPool) else
    var pool := ParseToken(parts[1]);
    if pool.None? then Err(BadToken) else
    if |parts| > 2 then Err(BadRecord) else Ok(pool.value)
  }

  function ParseLine(e: Entry, line: string): Result<Entry> {
    var parts := Split(line, ' ');
    if parts[0] == "C" || parts[0] == "P" then
      var live := ParseLive(parts);
      if live.Err? then Err(live.fault)
      else if parts[0] == "C" then Ok(e.(consumed := e.consumed + [live.value]))
      else Ok(e.(produced := e.produced + [live.value]))
    else if parts[0] == "G" then
      var pool := ParseGraduated(parts);
      if pool.Err? then Err(pool.fault) else Ok(e.(graduated := e.graduated + [pool.value]))
    else Err(BadRecord)
  }

  function ParseLines(e: Entry, lines: seq<string>): Result<Entry>
    decreases |lines|
  {
    if lines == [] then Ok(e) else
    var next := ParseLine(e, lines[0]);
    if next.Err? then next else ParseLines(next.value, lines[1..])
  }

  // ---- Which lines are records --------------------------------------------

  lemma TokenPlain(s: string)
    requires ParseToken(s).Some?
    ensures ' ' !in s
  {
    var t := ParseToken(s).value;
    TokenExactly(s, t);
    TokenTextPlain(t);
    forall k | 0 <= k < |s| ensures s[k] != ' ' { assert Lowered(s)[k] in TokenText(t); }
  }

  lemma RefPlain(s: string)
    requires ParseRef(s).Some?
    ensures ' ' !in s
  {
    var r := ParseRef(s).value;
    RefExactly(s, r);
    var i: nat :| IsRefText(s, i, r);
    HexKeepsOut(s[..i], r.txHash, ' ');
    U64Plain(s[i + 1..]);
    assert s == s[..i] + [s[i]] + s[i + 1..];
  }

  lemma U64Plain(s: string)
    requires ParseU64(s).Some?
    ensures ' ' !in s
  {
    if s[0] == '+' {
      OnlyDigits(s[1..]);
      assert s == [s[0]] + s[1..];
    } else {
      OnlyDigits(s);
    }
  }

  /** Three words, one space apart. */
  function Words(tag: string, a: string, b: string): string {
    tag + [' '] + (a + [' '] + b)
  }

  lemma SplitTwo(line: string, tag: string, a: string)
    ensures Split(line, ' ') == [tag, a] <==> Begins(line, tag, ' ', a) && ' ' !in tag && ' ' !in a
  {
    assert [tag, a] == [tag] + [a];
    SplitHead(line, ' ', tag, [a]);
    if |tag| < |line| { SplitSingle(line[|tag| + 1..], ' ', a); }
  }

  lemma SplitThree(line: string, tag: string, a: string, b: string)
    ensures Split(line, ' ') == [tag, a, b] <==>
      line == Words(tag, a, b) && ' ' !in tag && ' ' !in a && ' ' !in b
  {
    assert [tag, a, b] == [tag] + [a, b];
    SplitHead(line, ' ', tag, [a, b]);
    BeginsExactly(line, tag, ' ', a + [' '] + b);
    if |tag| < |line| {
      SplitTwo(line[|tag| + 1..], a, b);
      BeginsExactly(line[|tag| + 1..], a, ' ', b);
    }
  }

  /** A line that names a live input: a tag, an output reference and a token. */
  ghost predicate IsLiveRecord(line: string, tag: string, l: Live) {
    exists a, b :: line == Words(tag, a, b) && ParseRef(a) == Some(l.ref) && ParseToken(b) == Some(l.pool)
  }

  /** A line that names a graduated pool. */
  ghost predicate IsGraduatedRecord(line: string, t: Token) {
    exists a :: ParseToken(a) == Some(t) && line == "G" + [' '] + a
  }

  lemma LiveExactly(line: string, tag: string, l: Live)
    requires ' ' !in tag
    ensures Split(line, ' ')[0] == tag && ParseLive(Split(line, ' ')) == Ok(l) <==> IsLiveRecord(line, tag, l)
  {
    var parts := Split(line, ' ');
    if parts[0] == tag && ParseLive(parts) == Ok(l) {
      assert parts == [tag, parts[1], parts[2]];
      SplitThree(line, tag, parts[1], parts[2]);
    }
    if IsLiveRecord(line, tag, l) {
      var a, b :| line == Words(tag, a, b) && ParseRef(a) == Some(l.ref) && ParseToken(b) == Some(l.pool);
      RefPlain(a);
      TokenPlain(b);
      SplitThree(line, tag, a, b);
    }
  }

  lemma GraduatedExactly(line: string, t: Token)
    ensures Split(line, ' ')[0] == "G" && ParseGraduated(Split(line, ' ')) == Ok(t) <==> IsGraduatedRecord(line, t)
  {
    var parts := Split(line, ' ');
    if parts[0] == "G" && ParseGraduated(parts) == Ok(t) {
      assert parts == ["G", parts[1]];
      SplitTwo(line, "G", parts[1]);
      BeginsExactly(line, "G", ' ', parts[1]);
    }
    if IsGraduatedRecord(line, t) {
      var a :| ParseToken(a) == Some(t) && line == "G" + [' '] + a;
      TokenPlain(a);
      BeginsExactly(line, "G", ' ', a);
      SplitTwo(line, "G", a);
    }
  }

  /** A line is read exactly if it is one of the three records, and adds what it names to the list of its tag. */
  lemma LineExactly(e: Entry, line: string, e': Entry)
    ensures ParseLine(e, line) == Ok(e') <==>
      || (exists l :: IsLiveRecord(line, "C", l) && e' == e.(consumed := e.consumed + [l]))
      || (exists l :: IsLiveRecord(line, "P", l) && e' == e.(produced := e.produced + [l]))
      || (exists t :: IsGraduatedRecord(line, t) && e' == e.(graduated := e.graduated + [t]))
  {
    var parts := Split(line, ' ');
    forall l ensures parts[0] == "C" && ParseLive(parts) == Ok(l) <==> IsLiveRecord(line, "C", l) {
      LiveExactly(line, "C", l);
    }
    forall l ensures parts[0] == "P" && ParseLive(parts) == Ok(l) <==> IsLiveRecord(line, "P", l) {
      LiveExactly(line, "P", l);
    }
    forall t ensures parts[0] == "G" && ParseGraduated(parts) == Ok(t) <==> IsGraduatedRecord(line, t) {
      GraduatedExactly(line, t);
    }
  }

  function ParsedEntry(raw: string): Result<Entry> {
    ParseLines(Entry([], [], []), Lines(raw))
  }

  method ParseJournalEntry(raw: string) returns (r: Result<Entry>)
    ensures r == ParsedEntry(raw)
  {
    var consumed, produced, graduated := [], [], [];
    var lines := Lines(raw);
    for i := 0 to |lines|
      invariant ParseLines(Entry(consumed, produced, graduated), lines[i..]) == ParsedEntry(raw)
    {
      var parts := Split(lines[i], ' ');
      assert lines[i..][0] == lines[i] && lines[i..][1..] == lines[i + 1..];
      match parts[0]
      case "C" =>
        var live := ParseLive(parts);
        if live.Err? { return Err(live.fault); }
        consumed := consumed + [live.value];
      case "P" =>
        var live := ParseLive(parts);
        if live.Err? { return Err(live.fault); }
        produced := produced + [live.value];
      case "G" =>
        var pool := ParseGraduated(parts);
        if pool.Err? { return Err(pool.fault); }
        graduated := graduated + [pool.value];
      case _ =>
        return Err(BadRecord);
    }
    r := Ok(Entry(consumed, produced, graduated));
  }

  // ---- What was printed parses back ---------------------------------------

  lemma SplitPlain(s: string)
    requires Plain(s)
    ensures Split(s, ' ') == [s]
  {
    FindNone(s, ' ');
  }

  lemma SplitLive(tag: string, l: Live)
    requires Plain(tag)
    ensures Split(LiveLine(tag, l), ' ') == [tag, RefText(l.ref), TokenText(l.pool)]
  {
    RefTextPlain(l.ref);
    TokenTextPlain(l.pool);
    SplitThree(LiveLine(tag, l), tag, RefText(l.ref), TokenText(l.pool));
  }

  lemma ParseLiveLine(tag: string, l: Live)
    requires Plain(tag)
    ensures ParseLive(Split(LiveLine(tag, l), ' ')) == Ok(l) && Split(LiveLine(tag, l), ' ')[0] == tag
  {
    SplitLive(tag, l);
    RefRoundTrip(l.ref);
    TokenRoundTrip(l.pool);
  }

  lemma ParseGraduatedLine(t: Token)
    ensures ParseGraduated(Split(GraduatedLine(t), ' ')) == Ok(t) && Split(GraduatedLine(t), ' ')[0] == "G"
  {
    TokenTextPlain(t);
    SplitAt("G", ' ', TokenText(t));
    SplitPlain(TokenText(t));
    TokenRoundTrip(t);
  }

  function WithLive(e: Entry, tag: string, ls: seq<Live>): Entry {
    if tag == "C" then e.(consumed := e.consumed + ls) else e.(produced := e.produced + ls)
  }

  lemma LiveLineReads(e: Entry, tag: string, l: Live)
    requires tag == "C" || tag == "P"
    ensures ParseLine(e, LiveLine(tag, l)) == Ok(WithLive(e, tag, [l]))
    ensures '\n' !in LiveLine(tag, l) && '\r' !in LiveLine(tag, l)
  {
    ParseLiveLine(tag, l);
    LiveLineIsOneLine(tag, l);
  }

  lemma LiveLineIsOneLine(tag: string, l: Live)
    requires tag == "C" || tag == "P"
    ensures '\n' !in LiveLine(tag, l) && '\r' !in LiveLine(tag, l)
  {
    RefTextPlain(l.ref);
    TokenTextPlain(l.pool);
  }

  lemma GraduatedLineReads(e: Entry, t: Token)
    ensures ParseLine(e, GraduatedLine(t)) == Ok(WithGraduated(e, [t]))
    ensures '\n' !in GraduatedLine(t) && '\r' !in GraduatedLine(t)
  {
    ParseGraduatedLine(t);
    TokenTextPlain(t);
  }

  lemma ParseStep(e: Entry, line: string, tail: string, next: Entry)
    requires '\n' !in line && '\r' !in line && ParseLine(e, line) == Ok(next)
    ensures ParseLines(e, Lines(line + "\n" + tail)) == ParseLines(next, Lines(tail))
  {
    LinesAt(line, tail);
    var lines := [line] + Lines(tail);
    assert lines[0] == line && lines[1..] == Lines(tail);
  }

  lemma {:induction false} ParseLiveText(e: Entry, tag: string, ls: seq<Live>, rest: string)
    requires tag == "C" || tag == "P"
    ensures ParseLines(e, Lines(LiveText(tag, ls) + rest)) == ParseLines(WithLive(e, tag, ls), Lines(rest))
    decreases |ls|
  {
    if ls == [] {
      assert LiveText(tag, ls) + rest == rest;
      assert WithLive(e, tag, ls) == e;
    } else {
      var line, tail := LiveLine(tag, ls[0]), LiveText(tag, ls[1..]);
      var next := WithLive(e, tag, [ls[0]]);
      LiveLineReads(e, tag, ls[0]);
      ParseStep(e, line, tail + rest, next);
      assert line + "\n" + tail + rest == line + "\n" + (tail + rest);
      ParseLiveText(next, tag, ls[1..], rest);
      WithLiveSplit(e, tag, ls);
    }
  }

  lemma WithLiveSplit(e: Entry, tag: string, ls: seq<Live>)
    requires ls != []
    ensures WithLive(WithLive(e, tag, [ls[0]]), tag, ls[1..]) == WithLive(e, tag, ls)
  {
    assert e.consumed + [ls[0]] + ls[1..] == e.consumed + ls;
    assert e.produced + [ls[0]] + ls[1..] == e.produced + ls;
  }

  function WithGraduated(e: Entry, ts: seq<Token>): Entry {
    e.(graduated := e.graduated + ts)
  }

  lemma WithGraduatedSplit(e: Entry, ts: seq<Token>)
    requires ts != []
    ensures WithGraduated(WithGraduated(e, [ts[0]]), ts[1..]) == WithGraduated(e, ts)
  {
    assert e.graduated + [ts[0]] + ts[1..] == e.graduated + ts;
  }

  lemma {:induction false} ParseGraduatedText(e: Entry, ts: seq<Token>)
    ensures ParseLines(e, Lines(GraduatedText(ts))) == Ok(WithGraduated(e, ts))
    decreases |ts|
  {
    if ts == [] {
      assert e.graduated + ts == e.graduated;
    } else {
      GraduatedLineReads(e, ts[0]);
      ParseStep(e, GraduatedLine(ts[0]), GraduatedText(ts[1..]), WithGraduated(e, [ts[0]]));
      ParseGraduatedText(WithGraduated(e, [ts[0]]), ts[1..]);
      WithGraduatedSplit(e, ts);
    }
  }

  /** A journal entry is read back exactly as it was written. */
  lemma EntryRoundTrip(e: Entry)
    ensures ParsedEntry(EntryText(e)) == Ok(e)
  {
    var empty := Entry([], [], []);
    ParseLiveText(empty, "C", e.consumed, LiveText("P", e.produced) + GraduatedText(e.graduated));
    var withConsumed := WithLive(empty, "C", e.consumed);
    ParseLiveText(withConsumed, "P", e.produced, GraduatedText(e.graduated));
    var withProduced := WithLive(withConsumed, "P", e.produced);
    ParseGraduatedText(withProduced, e.graduated);
    assert WithGraduated(withProduced, e.graduated) == e;
  }
}
