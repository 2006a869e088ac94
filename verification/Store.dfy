/** `src/contract/store.rs`: the key-value store of the contract and the metadata it keeps per height. */
module Store {
  import opened Outcomes
  import opened Bytes
  import opened Ibc

  datatype KeyPrefix = EmptyPrefix | SubjectPrefix | SubstitutePrefix {
    function Text(): string {
      match this
      case EmptyPrefix => ""
      case SubjectPrefix => "subject/"
      case SubstitutePrefix => "substitute/"
    }
  }

  datatype KeyKind = ConsensusStateKey | ProcessedTimeKey | ProcessedHeightKey {
    function Suffix(): string {
      match this
      case ConsensusStateKey => ""
      case ProcessedTimeKey => "/processedTime"
      case ProcessedHeightKey => "/processedHeight"
    }
  }

  /** Decimal digits, as `{}` prints an unsigned integer. */
  function Decimal(n: nat): string {
    if n < 10 then [Digit(n)] else Decimal(n / 10) + [Digit(n % 10)]
  }

  function Digit(d: nat): char
    requires d < 10
  {
    "0123456789"[d]
  }

  predicate IsDigit(c: char) {
    '0' <= c <= '9'
  }

  /** The three key builders, which differ in what follows the height. */
  function Key(kind: KeyKind, prefix: KeyPrefix, height: Height): string {
    prefix.Text() + "consensusStates/" + HeightText(height) + kind.Suffix()
  }

  function HeightText(height: Height): string {
    Decimal(height.revisionNumber) + ("-" + Decimal(height.revisionHeight))
  }

  // ---------- keys never collide ----------

  function ParseDecimal(s: string): nat {
    if s == [] then 0
    else
      var d := s[|s| - 1];
      ParseDecimal(s[..|s| - 1]) * 10 + (if IsDigit(d) then d as nat - '0' as nat else 0)
  }

  lemma DigitValue(d: nat)
    requires d < 10
    ensures IsDigit(Digit(d)) && Digit(d) as nat - '0' as nat == d
  {
  }

  lemma {:induction false} DecimalRoundTrip(n: nat)
    ensures ParseDecimal(Decimal(n)) == n && Decimal(n) != []
    ensures forall c :: c in Decimal(n) ==> IsDigit(c)
  {
    if n < 10 {
      DigitValue(n);
      assert [Digit(n)][..0] == [];
    } else {
      DecimalRoundTrip(n / 10);
      DigitValue(n % 10);
      assert Decimal(n)[..|Decimal(n)| - 1] == Decimal(n / 10);
    }
  }

  /** Length of the run of digits a text starts with. */
  function DigitRun(s: string): nat {
    if s == [] || !IsDigit(s[0]) then 0 else 1 + DigitRun(s[1..])
  }

  lemma {:induction false} DigitRunOfDigits(x: string, p: string)
    requires forall c :: c in x ==> IsDigit(c)
    requires p != [] ==> !IsDigit(p[0])
    ensures DigitRun(x + p) == |x|
  {
    if x == [] {
      assert x + p == p;
    } else {
      DigitRunOfDigits(x[1..], p);
      assert (x + p)[1..] == x[1..] + p;
    }
  }

  /** Digits and what follows them can be told apart if no digit follows. */
  lemma DigitsEndWhereTailStarts(x: string, p: string, y: string, q: string)
    requires forall c :: c in x ==> IsDigit(c)
    requires forall c :: c in y ==> IsDigit(c)
    requires (p != [] ==> !IsDigit(p[0])) && (q != [] ==> !IsDigit(q[0]))
    requires x + p == y + q
    ensures x == y && p == q
  {
    DigitRunOfDigits(x, p);
    DigitRunOfDigits(y, q);
    assert x == (x + p)[..|x|] && y == (y + q)[..|y|];
    assert p == (x + p)[|x|..] && q == (y + q)[|y|..];
  }

  lemma DecimalPrefixInjective(m: nat, p: string, n: nat, q: string)
    requires (p != [] ==> !IsDigit(p[0])) && (q != [] ==> !IsDigit(q[0]))
    requires Decimal(m) + p == Decimal(n) + q
    ensures m == n && p == q
  {
    DecimalRoundTrip(m);
    DecimalRoundTrip(n);
    hide Decimal;
    DigitsEndWhereTailStarts(Decimal(m), p, Decimal(n), q);
  }

  lemma HeightTextInjective(g: Height, p: string, h: Height, q: string)
    requires (p != [] ==> !IsDigit(p[0])) && (q != [] ==> !IsDigit(q[0]))
    requires HeightText(g) + p == HeightText(h) + q
    ensures g == h && p == q
  {
    hide Decimal;
    var restG := "-" + (Decimal(g.revisionHeight) + p);
    var restH := "-" + (Decimal(h.revisionHeight) + q);
    assert HeightText(g) + p == Decimal(g.revisionNumber) + restG;
    assert HeightText(h) + q == Decimal(h.revisionNumber) + restH;
    DecimalPrefixInjective(g.revisionNumber, restG, h.revisionNumber, restH);
    assert Decimal(g.revisionHeight) + p == restG[1..] && Decimal(h.revisionHeight) + q == restH[1..];
    DecimalPrefixInjective(g.revisionHeight, p, h.revisionHeight, q);
  }

  /** No prefix can be mistaken for another one: the first and fifth characters tell. */
  lemma PrefixesTellApart(p: KeyPrefix, x: string, q: KeyPrefix, y: string)
    requires p.Text() + ("consensusStates/" + x) == q.Text() + ("consensusStates/" + y)
    ensures p == q && x == y
  {
    KeyStart(p, x);
    KeyStart(q, y);
  }

  lemma KeyStart(p: KeyPrefix, x: string)
    ensures var a := p.Text() + ("consensusStates/" + x);
      && a[0] == (if p.EmptyPrefix? then 'c' else 's')
      && a[4] == (if p.SubstitutePrefix? then 't' else 'e')
      && x == a[|p.Text()| + 16..]
  {
  }

  lemma SuffixesTellApart(k: KeyKind, l: KeyKind)
    ensures k.Suffix() != [] ==> !IsDigit(k.Suffix()[0])
    ensures k.Suffix() == l.Suffix() ==> k == l
  {
    assert |ConsensusStateKey.Suffix()| == 0;
    assert |ProcessedTimeKey.Suffix()| == 14;
    assert |ProcessedHeightKey.Suffix()| == 16;
  }

  /** Distinct kind, prefix or height means a distinct key. */
  lemma KeysInjective(k: KeyKind, p: KeyPrefix, g: Height, l: KeyKind, q: KeyPrefix, h: Height)
    requires Key(k, p, g) == Key(l, q, h)
    ensures k == l && p == q && g == h
  {
    SuffixesTellApart(k, l);
    SuffixesTellApart(l, k);
    KeySplits(k, p, g);
    KeySplits(l, q, h);
    PrefixesTellApart(p, HeightText(g) + k.Suffix(), q, HeightText(h) + l.Suffix());
    hide HeightText, Key;
    HeightTextInjective(g, k.Suffix(), h, l.Suffix());
  }

  lemma KeySplits(k: KeyKind, p: KeyPrefix, h: Height)
    ensures Key(k, p, h) == p.Text() + ("consensusStates/" + (HeightText(h) + k.Suffix()))
  {
    hide HeightText;
    var path, text, suffix := "consensusStates/", HeightText(h), k.Suffix();
    assert p.Text() + path + text + suffix == p.Text() + (path + (text + suffix));
  }

  /** The keys as text: the revision number comes before the revision height. */
  lemma KeyText(k: KeyKind, p: KeyPrefix, h: Height)
    ensures Key(k, p, h)
         == (match p case EmptyPrefix => "" case SubjectPrefix => "subject/" case SubstitutePrefix => "substitute/")
          + "consensusStates/" + (Decimal(h.revisionNumber) + ("-" + Decimal(h.revisionHeight)))
          + (match k
             case ConsensusStateKey => ""
             case ProcessedTimeKey => "/processedTime"
             case ProcessedHeightKey => "/processedHeight")
  {
    hide Decimal;
  }

  // ---------- the store ----------

  type Data = map<string, Bytes>

  /** The JSON forms of the two kinds of metadata. */
  datatype Json = Json(
    putTime: u64 -> Bytes,
    getTime: Bytes -> Option<u64>,
    putHeight: Height -> Bytes,
    getHeight: Bytes -> Option<Height>)

  ghost predicate JsonRoundTrips(json: Json) {
    && (forall t: u64 :: json.getTime(json.putTime(t)) == Some(t))
    && (forall h: Height :: json.getHeight(json.putHeight(h)) == Some(h))
  }

  function GetSelfHeight(blockHeight: u64): Height {
    Height(0, blockHeight)
  }

  function GetProcessedTime(json: Json, data: Data, prefix: KeyPrefix, height: Height): Outcome<u64, StdError> {
    var key := Key(ProcessedTimeKey, prefix, height);
    if key !in data then Err(NotFound)
    else
      match json.getTime(data[key])
      case Some(t) => Ok(t)
      case None => Err(ParseErr)
  }

  function GetProcessedHeight(json: Json, data: Data, prefix: KeyPrefix, height: Height): Outcome<Height, StdError> {
    var key := Key(ProcessedHeightKey, prefix, height);
    if key !in data then Err(NotFound)
    else
      match json.getHeight(data[key])
      case Some(h) => Ok(h)
      case None => Err(ParseErr)
  }

  /** The block the contract runs in. */
  datatype Block = Block(height: u64, time: u64)

  function WithConsensusMeta(json: Json, data: Data, block: Block, prefix: KeyPrefix, height: Height): Data {
    data[Key(ProcessedTimeKey, prefix, height) := json.putTime(block.time)]
        [Key(ProcessedHeightKey, prefix, height) := json.putHeight(GetSelfHeight(block.height))]
  }

  /** Metadata that is not there is not found, and metadata that is no JSON does not parse; the two kinds are read
      from their own keys. */
  lemma MetaIsRead(json: Json, data: Data, prefix: KeyPrefix, height: Height)
    ensures var key := Key(ProcessedTimeKey, prefix, height);
      GetProcessedTime(json, data, prefix, height) ==
        if key in data && json.getTime(data[key]).Some? then Ok(json.getTime(data[key]).value)
        else Err(if key in data then ParseErr else NotFound)
    ensures var key := Key(ProcessedHeightKey, prefix, height);
      GetProcessedHeight(json, data, prefix, height) ==
        if key in data && json.getHeight(data[key]).Some? then Ok(json.getHeight(data[key]).value)
        else Err(if key in data then ParseErr else NotFound)
  {
    hide Key;
  }

  /** The contract's storage; `set` overwrites. */
  class Storage {
    var data: Data
    const json: Json

    constructor (json: Json)
      ensures this.json == json && data == map[]
    {
      this.json := json;
      data := map[];
    }

    method SetProcessedTime(prefix: KeyPrefix, height: Height, time: u64)
      modifies this
      ensures data == old(data)[Key(ProcessedTimeKey, prefix, height) := json.putTime(time)]
    {
      data := data[Key(ProcessedTimeKey, prefix, height) := json.putTime(time)];
    }

    method SetProcessedHeight(prefix: KeyPrefix, height: Height, processed: Height)
      modifies this
      ensures data == old(data)[Key(ProcessedHeightKey, prefix, height) := json.putHeight(processed)]
    {
      data := data[Key(ProcessedHeightKey, prefix, height) := json.putHeight(processed)];
    }

    method SetConsensusMeta(block: Block, prefix: KeyPrefix, height: Height)
      modifies this
      ensures data == WithConsensusMeta(json, old(data), block, prefix, height)
    {
      SetProcessedTime(prefix, height, block.time);
      SetProcessedHeight(prefix, height, GetSelfHeight(block.height));
    }
  }

  /** Metadata reads back, and writing it disturbs no other height, prefix or kind of entry. */
  lemma MetaReadsBack(json: Json, data: Data, block: Block, prefix: KeyPrefix, height: Height)
    requires JsonRoundTrips(json)
    ensures var data' := WithConsensusMeta(json, data, block, prefix, height);
      && GetProcessedTime(json, data', prefix, height) == Ok(block.time)
      && GetProcessedHeight(json, data', prefix, height) == Ok(Height(0, block.height))
      && forall p: KeyPrefix, h: Height :: p != prefix || h != height ==>
           && GetProcessedTime(json, data', p, h) == GetProcessedTime(json, data, p, h)
           && GetProcessedHeight(json, data', p, h) == GetProcessedHeight(json, data, p, h)
  {
    hide Key;
    var data' := WithConsensusMeta(json, data, block, prefix, height);
    var timeKey, heightKey := Key(ProcessedTimeKey, prefix, height), Key(ProcessedHeightKey, prefix, height);
    if timeKey == heightKey { KeysInjective(ProcessedTimeKey, prefix, height, ProcessedHeightKey, prefix, height); }
    forall p: KeyPrefix, h: Height | p != prefix || h != height
      ensures GetProcessedTime(json, data', p, h) == GetProcessedTime(json, data, p, h)
      ensures GetProcessedHeight(json, data', p, h) == GetProcessedHeight(json, data, p, h)
    {
      OtherKeyUntouched(ProcessedTimeKey, p, h, prefix, height);
      OtherKeyUntouched(ProcessedHeightKey, p, h, prefix, height);
    }
  }

  lemma OtherKeyUntouched(k: KeyKind, p: KeyPrefix, h: Height, prefix: KeyPrefix, height: Height)
    requires p != prefix || h != height
    ensures forall l: KeyKind :: Key(k, p, h) != Key(l, prefix, height)
  {
    hide Key;
    forall l: KeyKind ensures Key(k, p, h) != Key(l, prefix, height) {
      if Key(k, p, h) == Key(l, prefix, height) { KeysInjective(k, p, h, l, prefix, height); }
    }
  }
}
