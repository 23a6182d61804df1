/** The option grammar of the README, and the proof that the parser reads back
    what is written in it. */
module OptionGrammar {
  import opened Common
  import opened Tokens
  import opened OptionParser

  datatype NameValue = NameValue(name: string, value: string)

  /** A general attribute, or a key type with the attributes that belong to it. */
  datatype Attr = General(nv: NameValue) | KeyGroup(alias: string, attrs: seq<NameValue>)

  /* ---- printing ---- */

  function PrintPair(nv: NameValue): string { nv.name + ['='] + nv.value }

  function PrintPairs(attrs: seq<NameValue>): seq<string> {
    if attrs == [] then [] else [PrintPair(attrs[0])] + PrintPairs(attrs[1..])
  }

  function PrintAttr(a: Attr): string {
    match a
    case General(nv) => PrintPair(nv)
    case KeyGroup(alias, attrs) => Join(PrintPairs([NameValue("key", alias)] + attrs), ':')
  }

  function PrintAttrs(attrs: seq<Attr>): seq<string> {
    if attrs == [] then [] else [PrintAttr(attrs[0])] + PrintAttrs(attrs[1..])
  }

  function Print(attrs: seq<Attr>): string {
    if attrs == [] then [] else Join(PrintAttrs(attrs), ',')
  }

  /* ---- the pairs meant and the pairs read ---- */

  /** The names and values of an attribute, a key type first. */
  function Written(a: Attr): seq<NameValue> {
    match a
    case General(nv) => [nv]
    case KeyGroup(alias, attrs) => [NameValue("key", alias)] + attrs
  }

  function WrittenAll(attrs: seq<Attr>): seq<NameValue> {
    if attrs == [] then [] else Written(attrs[0]) + WrittenAll(attrs[1..])
  }

  function PairFor(nv: NameValue): Pair { Pair(Some(nv.name), if nv.value == [] then None else Some(nv.value), false) }

  /** The flattened pairs that a list means. */
  function PairsFor(nvs: seq<NameValue>): (r: seq<Pair>)
    ensures |r| == |nvs| && forall k :: 0 <= k < |nvs| ==> r[k] == PairFor(nvs[k])
  {
    seq(|nvs|, k requires 0 <= k < |nvs| => PairFor(nvs[k]))
  }

  /** The pairs that the parser makes of them. */
  function PairsRead(nvs: seq<NameValue>): (r: seq<Pair>)
    ensures |r| == |nvs| && forall k :: 0 <= k < |nvs| ==> r[k] == PairOf(PrintPair(nvs[k]))
  {
    seq(|nvs|, k requires 0 <= k < |nvs| => PairOf(PrintPair(nvs[k])))
  }

  /* ---- well-formed attributes ---- */

  ghost predicate IsName(s: string) { s != [] && Free(s, {',', '\n', ':', '='}) }

  /** A value may hold anything but the outer separators. */
  ghost predicate IsValue(s: string) { Free(s, {',', '\n'}) }

  ghost predicate GroupPair(nv: NameValue) { IsName(nv.name) && IsValue(nv.value) && ':' !in nv.value }

  /** A general attribute called "key" must not look like a key group. */
  ghost predicate WellFormed(a: Attr) {
    && |PrintAttr(a)| < MAX_TOK_LEN
    && match a
       case General(nv) => IsName(nv.name) && IsValue(nv.value) && (nv.name == "key" ==> ':' !in nv.value)
       case KeyGroup(alias, attrs) =>
         && IsValue(alias) && ':' !in alias
         && (forall k :: 0 <= k < |attrs| ==> GroupPair(attrs[k]))
  }

  /* ---- one pair ---- */

  lemma LastEqualsIs(tok: string, j: nat)
    requires j < |tok| && tok[j] == '=' && forall k :: j < k < |tok| ==> tok[k] != '='
    ensures LastEquals(tok, |tok|) == j
  {
  }

  /** A pair is read back exactly when its value holds no '=': the name is taken
      up to the last one. */
  lemma PairReadBackIff(nv: NameValue)
    requires |PrintPair(nv)| < MAX_TOK_LEN
    ensures PairOf(PrintPair(nv)) == PairFor(nv) <==> '=' !in nv.value
  {
    var tok, n := PrintPair(nv), |nv.name|;
    assert tok[n] == '=' && tok[..n] == nv.name && tok[n + 1..] == nv.value;
    var j := LastEquals(tok, |tok|);
    assert j >= n;
    if '=' in nv.value {
      var k :| 0 <= k < |nv.value| && nv.value[k] == '=';
      assert tok[n + 1 + k] == '=';
      assert j > n && |tok[..j]| != |nv.name|;
    } else {
      forall k | n < k < |tok|
        ensures tok[k] != '='
      {
        assert tok[k] == nv.value[k - n - 1];
      }
      LastEqualsIs(tok, n);
    }
  }

  lemma PairIsNoGroup(nv: NameValue)
    requires IsName(nv.name) && IsValue(nv.value) && (nv.name == "key" ==> ':' !in nv.value)
    ensures !IsKeyGroup(PrintPair(nv))
  {
    var tok, n := PrintPair(nv), |nv.name|;
    assert tok[n] == '=' && forall k :: 0 <= k < n ==> tok[k] == nv.name[k];
    if |tok| > 4 && tok[..4] == "key=" {
      assert tok[3] == tok[..4][3] == '=';
      assert tok[0] == tok[..4][0] == 'k' && tok[1] == tok[..4][1] == 'e' && tok[2] == tok[..4][2] == 'y';
      assert n == 3 && nv.name == tok[..3] == "key" && tok[4..] == nv.value;
    }
  }

  lemma PairIsProcessed(nv: NameValue)
    requires |PrintPair(nv)| < MAX_TOK_LEN
    requires IsName(nv.name) && IsValue(nv.value) && (nv.name == "key" ==> ':' !in nv.value)
    ensures ProcessToken(PrintPair(nv)) == Parsed([PairOf(PrintPair(nv))], 0)
  {
    var tok := PrintPair(nv);
    assert tok[0] == nv.name[0];
    PairIsNoGroup(nv);
  }

  lemma PrintedPairFree(nv: NameValue, seps: set<char>)
    requires Free(nv.name, seps) && Free(nv.value, seps) && '=' !in seps
    ensures Free(PrintPair(nv), seps)
  {
  }

  /* ---- a key group ---- */

  lemma {:induction false} PrintedPairs(attrs: seq<NameValue>)
    requires forall k :: 0 <= k < |attrs| ==> GroupPair(attrs[k])
    ensures |PrintPairs(attrs)| == |attrs| && AllFree(PrintPairs(attrs), {':'})
    ensures forall k :: 0 <= k < |attrs| ==> Free(PrintPairs(attrs)[k], COMMA_SEPS)
  {
    if attrs != [] {
      PrintedPairs(attrs[1..]);
      var nv := attrs[0];
      assert GroupPair(nv) && Free(nv.value, {':'});
      PrintedPairFree(nv, {':'});
      PrintedPairFree(nv, COMMA_SEPS);
    }
  }

  lemma {:induction false} PartsAreProcessed(attrs: seq<NameValue>)
    requires forall k :: 0 <= k < |attrs| ==> GroupPair(attrs[k]) && |PrintPair(attrs[k])| < MAX_TOK_LEN
    requires forall k :: 0 <= k < |PrintPairs(attrs)| ==> Colons(PrintPairs(attrs)[k]) <= 0
    ensures ProcessParts(PrintPairs(attrs), 0) == Parsed(PairsRead(attrs), 0)
  {
    hide PairOf, ProcessToken, Colons;
    if attrs != [] {
      var toks := PrintPairs(attrs);
      assert toks[0] == PrintPair(attrs[0]) && toks[1..] == PrintPairs(attrs[1..]);
      assert GroupPair(attrs[0]);
      PairIsProcessed(attrs[0]);
      PartsAreProcessed(attrs[1..]);
      PartsStep(toks);
      assert PairsRead(attrs) == [PairOf(toks[0])] + PairsRead(attrs[1..]);
    }
  }

  lemma {:induction false} JoinLonger(toks: seq<string>, sep: char, k: nat)
    requires k < |toks|
    ensures |toks[k]| <= |Join(toks, sep)|
    decreases k
  {
    if k > 0 { JoinLonger(toks[1..], sep, k - 1); }
  }

  lemma {:induction false} PrintPairsAt(attrs: seq<NameValue>, k: nat)
    requires k < |attrs|
    ensures |PrintPairs(attrs)| == |attrs| && PrintPairs(attrs)[k] == PrintPair(attrs[k])
    decreases |attrs|
  {
    if |attrs| > 1 { PrintPairsAt(attrs[1..], if k > 0 then k - 1 else 0); }
  }

  /** The parts of a short text are short. */
  lemma PartsAreShort(attrs: seq<NameValue>)
    requires attrs != [] && |PrintPairs(attrs)| == |attrs| && |Join(PrintPairs(attrs), ':')| < MAX_TOK_LEN
    ensures forall k :: 0 <= k < |attrs| ==> |PrintPair(attrs[k])| < MAX_TOK_LEN
  {
    forall k | 0 <= k < |attrs|
      ensures |PrintPair(attrs[k])| < MAX_TOK_LEN
    {
      PrintPairsAt(attrs, k);
      JoinLonger(PrintPairs(attrs), ':', k);
    }
  }

  lemma WrittenIsShort(a: Attr)
    requires WellFormed(a)
    ensures forall k :: 0 <= k < |Written(a)| ==> |PrintPair(Written(a)[k])| < MAX_TOK_LEN
  {
    match a
    case General(_) =>
    case KeyGroup(alias, attrs) =>
      var all := [NameValue("key", alias)] + attrs;
      PrintPairsAt(all, 0);
      PartsAreShort(all);
  }

  lemma {:induction false} WrittenAllIsShort(attrs: seq<Attr>)
    requires forall k :: 0 <= k < |attrs| ==> WellFormed(attrs[k])
    ensures forall k :: 0 <= k < |WrittenAll(attrs)| ==> |PrintPair(WrittenAll(attrs)[k])| < MAX_TOK_LEN
  {
    hide WellFormed, Written, PrintPair;
    if attrs != [] {
      WrittenIsShort(attrs[0]);
      WrittenAllIsShort(attrs[1..]);
    }
  }

  lemma GroupIsProcessed(alias: string, attrs: seq<NameValue>)
    requires WellFormed(KeyGroup(alias, attrs))
    ensures ProcessToken(PrintAttr(KeyGroup(alias, attrs))) == Parsed(PairsRead(Written(KeyGroup(alias, attrs))), 0)
  {
    var all := [NameValue("key", alias)] + attrs;
    var toks := PrintPairs(all);
    var tok := PrintAttr(KeyGroup(alias, attrs));
    assert forall k :: 0 <= k < |all| ==> GroupPair(all[k]);
    PrintedPairs(all);
    PartsAreShort(all);
    assert toks[0] == "key" + ['='] + alias && toks[1..] == PrintPairs(attrs);
    if attrs == [] {
      PairIsProcessed(NameValue("key", alias));
      assert all == [NameValue("key", alias)];
    } else {
      SplitOfJoin(toks, ':', {':'});
      GroupLooksLikeOne(alias, Join(toks[1..], ':'));
      GroupIsParts(tok);
      PartsAreProcessed(all);
    }
  }

  lemma GroupLooksLikeOne(alias: string, rest: string)
    ensures IsKeyGroup("key" + ['='] + alias + [':'] + rest)
  {
    var tok := "key" + ['='] + alias + [':'] + rest;
    assert tok[..4] == "key=";
    assert tok[4..][|alias|] == ':';
  }

  /* ---- the whole string ---- */

  lemma AttrIsProcessed(a: Attr)
    requires WellFormed(a)
    ensures ProcessToken(PrintAttr(a)) == Parsed(PairsRead(Written(a)), 0)
  {
    match a
    case General(nv) => PairIsProcessed(nv);
    case KeyGroup(alias, attrs) => GroupIsProcessed(alias, attrs);
  }

  lemma {:induction false} JoinFree(toks: seq<string>, sep: char, seps: set<char>)
    requires toks != [] && sep !in seps && AllFree(toks, seps)
    ensures Free(Join(toks, sep), seps)
    decreases |toks|
  {
    assert Free(toks[0], seps);
    if |toks| > 1 { JoinFree(toks[1..], sep, seps); }
  }

  lemma AttrIsFree(a: Attr)
    requires WellFormed(a)
    ensures Free(PrintAttr(a), COMMA_SEPS)
  {
    match a
    case General(nv) => PrintedPairFree(nv, COMMA_SEPS);
    case KeyGroup(alias, attrs) =>
      var all := [NameValue("key", alias)] + attrs;
      assert forall k :: 0 <= k < |all| ==> GroupPair(all[k]);
      PrintedPairs(all);
      JoinFree(PrintPairs(all), ':', COMMA_SEPS);
  }

  lemma {:induction false} AttrsAreProcessed(attrs: seq<Attr>)
    requires forall k :: 0 <= k < |attrs| ==> WellFormed(attrs[k])
    ensures |PrintAttrs(attrs)| == |attrs| && AllFree(PrintAttrs(attrs), COMMA_SEPS)
    ensures ProcessTokens(PrintAttrs(attrs)) == Parsed(PairsRead(WrittenAll(attrs)), 0)
  {
    hide WellFormed, ProcessToken, PrintAttr, Written, PairOf;
    if attrs != [] {
      var toks := PrintAttrs(attrs);
      AttrsAreProcessed(attrs[1..]);
      AttrIsProcessed(attrs[0]);
      AttrIsFree(attrs[0]);
      AttrIsShort(attrs[0]);
      assert toks[0] == PrintAttr(attrs[0]) && toks[1..] == PrintAttrs(attrs[1..]);
      TokensStep(toks);
      assert PairsRead(WrittenAll(attrs)) == PairsRead(Written(attrs[0])) + PairsRead(WrittenAll(attrs[1..]));
    }
  }

  lemma AttrIsShort(a: Attr)
    requires WellFormed(a)
    ensures |PrintAttr(a)| < MAX_TOK_LEN
  {
  }

  /** Parsing the printed form of any well-formed attribute list returns its
      pairs, key groups flattened, in order, if and only if no value in it holds
      an '='; in any case it returns one pair each, split at the last '='. */
  lemma ParseOfPrint(attrs: seq<Attr>)
    requires forall k :: 0 <= k < |attrs| ==> WellFormed(attrs[k])
    ensures Parse(Print(attrs)) == Parsed(PairsRead(WrittenAll(attrs)), 0)
    ensures var nvs := WrittenAll(attrs);
      Parse(Print(attrs)) == Parsed(PairsFor(nvs), 0) <==> forall k :: 0 <= k < |nvs| ==> '=' !in nvs[k].value
  {
    hide WellFormed, ProcessToken, PrintAttr, Written, PairOf;
    AttrsAreProcessed(attrs);
    if attrs == [] {
      SplitFree([], [], COMMA_SEPS);
      TokensStep([[]]);
      EmptyToken();
    } else {
      SplitOfJoin(PrintAttrs(attrs), ',', COMMA_SEPS);
    }
    WrittenAllIsShort(attrs);
    ReadAsMeantIff(WrittenAll(attrs));
  }

  lemma ReadAsMeantIff(nvs: seq<NameValue>)
    requires forall k :: 0 <= k < |nvs| ==> |PrintPair(nvs[k])| < MAX_TOK_LEN
    ensures PairsRead(nvs) == PairsFor(nvs) <==> forall k :: 0 <= k < |nvs| ==> '=' !in nvs[k].value
  {
    forall k | 0 <= k < |nvs|
      ensures PairsRead(nvs)[k] == PairsFor(nvs)[k] <==> '=' !in nvs[k].value
    {
      PairReadBackIff(nvs[k]);
    }
  }

  lemma EmptyToken()
    ensures ProcessToken([]) == Parsed([], 0) && ProcessTokens([[]][1..]) == Parsed([], 0)
  {
  }

  /* ---- beyond the grammar ---- */

  /** A word without '=' is read as that name, without a value. */
  lemma WordIsRead(word: string)
    requires word != [] && |word| < MAX_TOK_LEN && '=' !in word && word[0] != ':'
    ensures ProcessToken(word) == Parsed([Pair(Some(word), None, false)], 0)
  {
    var j := LastEquals(word, |word|);
    assert |word| >= 4 ==> word[..4][3] == word[3];
  }

  /** Tokens of bearable length that are processed without an error come first. */
  lemma {:induction false} ProcessedFirst(a: seq<string>, b: seq<string>)
    requires (forall k :: 0 <= k < |a| ==> |a[k]| < MAX_TOK_LEN) && ProcessTokens(a).rc == 0
    ensures ProcessTokens(a + b) == After(ProcessTokens(a).pairs, ProcessTokens(b))
    decreases |a|
  {
    if a == [] {
      assert a + b == b;
    } else {
      hide ProcessToken, ProcessTokens;
      TokensStep(a);
      ProcessedFirst(a[1..], b);
      assert (a + b)[0] == a[0] && (a + b)[1..] == a[1..] + b;
      TokensStep(a + b);
      AfterTwice(ProcessToken(a[0]).pairs, ProcessTokens(a[1..]).pairs, ProcessTokens(b));
    }
  }

  /** Behind a well-formed list, a token that starts with '=' or ':' ends the parse
      with -EINVAL and one of 128 characters or more ends it silently; what was read
      before stays, and what follows is not read. */
  lemma ParseStops(attrs: seq<Attr>, bad: string, rest: seq<string>)
    requires forall k :: 0 <= k < |attrs| ==> WellFormed(attrs[k])
    requires bad != [] && AllFree([bad] + rest, COMMA_SEPS)
    requires |bad| >= 128 || bad[0] == '=' || bad[0] == ':'
    ensures Parse(Join(PrintAttrs(attrs) + [bad] + rest, ','))
         == Parsed(PairsRead(WrittenAll(attrs)), if |bad| >= 128 then 0 else -22)
  {
    hide WellFormed, PrintAttr, Written, PairOf;
    AttrsAreProcessed(attrs);
    AttrsAreShort(attrs);
    var good, toks := PrintAttrs(attrs), PrintAttrs(attrs) + [bad] + rest;
    assert toks == good + ([bad] + rest);
    assert AllFree(toks, COMMA_SEPS) by {
      assert forall k :: 0 <= k < |toks| ==> toks[k] == if k < |good| then good[k] else ([bad] + rest)[k - |good|];
    }
    SplitOfJoin(toks, ',', COMMA_SEPS);
    ProcessedFirst(good, [bad] + rest);
    assert ([bad] + rest)[0] == bad;
  }

  lemma {:induction false} AttrsAreShort(attrs: seq<Attr>)
    requires forall k :: 0 <= k < |attrs| ==> WellFormed(attrs[k])
    ensures forall k :: 0 <= k < |PrintAttrs(attrs)| ==> |PrintAttrs(attrs)[k]| < MAX_TOK_LEN
  {
    hide WellFormed, PrintAttr;
    if attrs != [] {
      AttrIsShort(attrs[0]);
      AttrsAreShort(attrs[1..]);
    }
  }
}
