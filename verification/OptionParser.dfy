/** The parser for mount option strings and rc files
    (src/libecryptfs/cmd_ln_parser.c). */
module OptionParser {
  import opened Common
  import opened Tokens

  const MAX_TOK_LEN := 128

  /** The pairs a call appends to the list, and its return code. */
  datatype Parsed = Parsed(pairs: seq<Pair>, rc: int)

  /** The position of the last '=' among the first i characters; -1 if there is none. */
  function LastEquals(tok: string, i: nat): (j: int)
    requires i <= |tok|
    ensures -1 <= j < i
    ensures j >= 0 ==> tok[j] == '=' && forall k :: j < k < i ==> tok[k] != '='
    ensures j == -1 ==> forall k :: 0 <= k < i ==> tok[k] != '='
  {
    if i == 0 then -1 else if tok[i - 1] == '=' then i - 1 else LastEquals(tok, i - 1)
  }

  /** What snprintf leaves of a token in a buffer of MAX_TOK_LEN. */
  function Cut(tok: string): string {
    if |tok| < MAX_TOK_LEN then tok else tok[..MAX_TOK_LEN - 1]
  }

  /** One name=value pair: the name reaches up to the last '='. An empty value is
      missing; one that was cut off is not. */
  function PairOf(tok: string): Pair {
    var sub := Cut(tok);
    var j := LastEquals(sub, |sub|);
    if j == -1 then Pair(Some(sub), None, false)
    else Pair(Some(sub[..j]), if |tok| - j > 1 then Some(sub[j + 1..]) else None, false)
  }

  /** "key=" followed, somewhere, by a colon. */
  predicate IsKeyGroup(tok: string) {
    |tok| > 4 && tok[..4] == "key=" && ':' in tok[4..]
  }

  function Colons(s: string): nat {
    if s == [] then 0 else (if s[0] == ':' then 1 else 0) + Colons(s[1..])
  }

  lemma {:induction false} ColonCounts(s: string)
    ensures Colons(s) == 0 <==> ':' !in s
  {
    if s != [] {
      ColonCounts(s[1..]);
      assert s == [s[0]] + s[1..];
    }
  }

  /** process_comma_tok; the recursion on the parts of a key group ends because they hold no colon. */
  function ProcessToken(tok: string): Parsed
    decreases Colons(tok), 0
  {
    if tok == [] then Parsed([], 0)
    else if |tok| > MAX_TOK_LEN then Parsed([], -EINVAL)
    else if tok[0] == '=' || tok[0] == ':' then Parsed([], -EINVAL)
    else if IsKeyGroup(tok) then
      PartsHaveNoColon(tok);
      ProcessParts(Split(tok, {':'}), 0)
    else Parsed([PairOf(tok)], 0)
  }

  /** Tokens in order, up to the first error. */
  function ProcessParts(toks: seq<string>, colons: nat): Parsed
    requires forall k :: 0 <= k < |toks| ==> Colons(toks[k]) <= colons
    decreases colons, |toks|
  {
    if toks == [] then Parsed([], 0)
    else
      var first := ProcessToken(toks[0]);
      if first.rc != 0 then first
      else
        var rest := ProcessParts(toks[1..], colons);
        Parsed(first.pairs + rest.pairs, rest.rc)
  }

  lemma PartsHaveNoColon(tok: string)
    ensures var parts := Split(tok, {':'}); forall k :: 0 <= k < |parts| ==> Colons(parts[k]) == 0
    ensures IsKeyGroup(tok) ==> Colons(tok) > 0
  {
    ColonCounts(tok);
    JoinOfSplit([], tok, ':');
    var parts := Split(tok, {':'});
    forall k | 0 <= k < |parts|
      ensures Colons(parts[k]) == 0
    {
      assert Free(parts[k], {':'});
      ColonCounts(parts[k]);
    }
    if IsKeyGroup(tok) {
      var k :| 0 <= k < |tok[4..]| && tok[4..][k] == ':';
      assert tok[4 + k] == ':';
    }
  }

  const COMMA_SEPS: set<char> := {',', '\n'}

  /** The tokens of a whole string: a token that does not fit the buffer ends
      the parse silently, an error ends it with its code. */
  function ProcessTokens(toks: seq<string>): Parsed {
    if toks == [] || |toks[0]| >= MAX_TOK_LEN then Parsed([], 0)
    else
      var first := ProcessToken(toks[0]);
      if first.rc != 0 then first
      else
        var rest := ProcessTokens(toks[1..]);
        Parsed(first.pairs + rest.pairs, rest.rc)
  }

  /** generate_nv_list */
  function Parse(buf: string): Parsed {
    ProcessTokens(Split(buf, COMMA_SEPS))
  }

  lemma GroupIsParts(tok: string)
    requires IsKeyGroup(tok) && |tok| <= MAX_TOK_LEN
    ensures forall k :: 0 <= k < |Split(tok, {':'})| ==> Colons(Split(tok, {':'})[k]) <= 0
    ensures ProcessToken(tok) == ProcessParts(Split(tok, {':'}), 0)
  {
    PartsHaveNoColon(tok);
    assert tok[0] == tok[..4][0] == 'k';
  }

  /** What was appended before, and then p. */
  function After(before: seq<Pair>, p: Parsed): Parsed { Parsed(before + p.pairs, p.rc) }

  lemma AfterTwice(a: seq<Pair>, b: seq<Pair>, p: Parsed)
    ensures After(a + b, p) == After(a, After(b, p))
  {
    assert (a + b) + p.pairs == a + (b + p.pairs);
  }

  lemma TokensStep(toks: seq<string>)
    requires toks != [] && |toks[0]| < MAX_TOK_LEN
    ensures var first := ProcessToken(toks[0]);
      ProcessTokens(toks) == if first.rc != 0 then first else After(first.pairs, ProcessTokens(toks[1..]))
  {
    hide ProcessToken;
  }

  lemma PartsStep(toks: seq<string>)
    requires toks != [] && forall k :: 0 <= k < |toks| ==> Colons(toks[k]) <= 0
    ensures var first := ProcessToken(toks[0]);
      ProcessParts(toks, 0) == if first.rc != 0 then first else After(first.pairs, ProcessParts(toks[1..], 0))
  {
    hide ProcessToken;
  }

  /** One character of a split. */
  lemma SplitStep(acc: string, s: string, i: nat, seps: set<char>)
    requires i < |s|
    ensures SplitFrom(acc, s[i..], seps) ==
      if s[i] in seps then [acc] + SplitFrom([], s[i + 1..], seps) else SplitFrom(acc + [s[i]], s[i + 1..], seps)
  {
    assert s[i..][0] == s[i] && s[i..][1..] == s[i + 1..];
  }

  /* ---- the loops of the source ---- */

  class PairList {
    var items: seq<Pair>

    constructor ()
      ensures items == []
    {
      items := [];
    }

    /** The scan for '=': every one found replaces the name. The scan runs over
        the length of the token, even where the copy was cut. */
    method AppendPair(tok: string)
      requires |tok| <= MAX_TOK_LEN
      modifies this
      ensures items == old(items) + [PairOf(tok)]
    {
      var sub := Cut(tok);
      var name: Option<string> := None;
      var value: Option<string> := None;
      var j := 0;
      var i := 0;
      while i < |tok|
        invariant 0 <= i <= |tok|
        invariant var n := if i < |sub| then i else |sub|;
          && (name.None? <==> LastEquals(sub, n) == -1)
          && (name.Some? ==> j == LastEquals(sub, n) && name.value == sub[..j])
      {
        if i < |sub| && sub[i] == '=' {
          name := Some(sub[..i]);
          j := i;
        }
        i := i + 1;
      }
      if name.None? {
        name := Some(sub);
      } else if i - j > 1 {
        value := Some(sub[j + 1..]);
      }
      items := items + [Pair(name, value, false)];
    }

    method ProcessCommaTok(tok: string) returns (rc: int)
      modifies this
      ensures rc == ProcessToken(tok).rc && items == old(items) + ProcessToken(tok).pairs
      decreases Colons(tok)
    {
      if tok == [] {
        return 0;
      }
      if |tok| > MAX_TOK_LEN {
        return -EINVAL;
      }
      if tok[0] == '=' || tok[0] == ':' {
        return -EINVAL;
      }
      if |tok| > 4 && tok[..4] == "key=" {
        var i := 4;
        while i < |tok|
          invariant 4 <= i <= |tok| && ':' !in tok[4..i]
        {
          if tok[i] == ':' {
            assert tok[4..][i - 4] == ':';
            rc := ProcessColonList(tok);
            return;
          }
          i := i + 1;
        }
        assert tok[4..i] == tok[4..];
      }
      AppendPair(tok);
      rc := 0;
    }

    /** Cuts the token at its colons and processes the parts as they come up. */
    method ProcessColonList(tok: string) returns (rc: int)
      requires |tok| <= MAX_TOK_LEN && IsKeyGroup(tok)
      modifies this
      ensures rc == ProcessToken(tok).rc && items == old(items) + ProcessToken(tok).pairs
      decreases Colons(tok), 0
    {
      PartsHaveNoColon(tok);
      GroupIsParts(tok);
      var sub := "";
      var i := 0;
      ghost var done: seq<Pair> := [];
      ghost var all := ProcessToken(tok);
      assert tok[0..] == tok && all == After(done, all);
      hide IsKeyGroup, ProcessParts, ProcessToken, Colons, After, PartsLeft;
      PartsStart(tok);
      while i < |tok|
        invariant 0 <= i <= |tok| && |sub| <= i && NoColons(PartsLeft(sub, tok, i))
        invariant items == old(items) + done && all == After(done, ProcessParts(PartsLeft(sub, tok, i), 0))
      {
        NextPartChar(sub, tok, i);
        if tok[i] == ':' {
          PartDone(done, PartsLeft(sub, tok, i), all);
          Associative(old(items), done, ProcessToken(sub).pairs);
          rc := ProcessCommaTok(sub);
          done := done + ProcessToken(sub).pairs;
          if rc != 0 {
            return;
          }
          sub := "";
        } else {
          sub := sub + [tok[i]];
        }
        i := i + 1;
      }
      LastPartLeft(sub, tok);
      PartDone(done, [sub], all);
      Associative(old(items), done, ProcessToken(sub).pairs);
      NothingAfter(done + ProcessToken(sub).pairs);
      rc := ProcessCommaTok(sub);
    }

    /** generate_nv_list: collects a token character by character and gives up
        when the buffer is full. */
    method GenerateNvList(buf: string) returns (rc: int)
      modifies this
      ensures rc == Parse(buf).rc && items == old(items) + Parse(buf).pairs
    {
      var tok := "";
      var i := 0;
      rc := 0;
      ghost var done: seq<Pair> := [];
      ghost var all := Parse(buf);
      assert buf[0..] == buf && all == After(done, ProcessTokens(TokensLeft(tok, buf, 0)));
      hide ProcessToken, ProcessTokens, TokensLeft, Parse, After;
      while i < |buf|
        invariant 0 <= i <= |buf| && |tok| < MAX_TOK_LEN && rc == 0
        invariant items == old(items) + done && all == After(done, ProcessTokens(TokensLeft(tok, buf, i)))
      {
        NextChar(tok, buf, i);
        if buf[i] == ',' || buf[i] == '\n' {
          TokenDone(done, TokensLeft(tok, buf, i), all);
          Associative(old(items), done, ProcessToken(tok).pairs);
          rc := ProcessCommaTok(tok);
          done := done + ProcessToken(tok).pairs;
          if rc != 0 {
            return;
          }
          tok := "";
        } else {
          tok := tok + [buf[i]];
        }
        i := i + 1;
        if |tok| == MAX_TOK_LEN {
          TooLong(tok, buf, i);
          NothingAfter(done);
          return;
        }
      }
      LastTokenLeft(tok, buf);
      TokenDone(done, [tok], all);
      Associative(old(items), done, ProcessToken(tok).pairs);
      NothingAfter(done + ProcessToken(tok).pairs);
      rc := ProcessCommaTok(tok);
    }
  }

  lemma Associative(a: seq<Pair>, b: seq<Pair>, c: seq<Pair>)
    ensures (a + b) + c == a + (b + c)
  {
  }

  lemma NothingAfter(done: seq<Pair>)
    ensures After(done, Parsed([], 0)) == Parsed(done, 0)
  {
  }

  ghost predicate NoColons(toks: seq<string>) {
    forall k :: 0 <= k < |toks| ==> Colons(toks[k]) <= 0
  }

  /** The parts of a key group still to come when sub has been collected up to i. */
  ghost function PartsLeft(sub: string, tok: string, i: nat): (left: seq<string>)
    requires i <= |tok|
    ensures left != []
  {
    SplitFrom(sub, tok[i..], {':'})
  }

  lemma PartsStart(tok: string)
    requires forall k :: 0 <= k < |Split(tok, {':'})| ==> Colons(Split(tok, {':'})[k]) <= 0
    ensures PartsLeft("", tok, 0) == Split(tok, {':'}) && NoColons(PartsLeft("", tok, 0))
  {
    assert tok[0..] == tok;
  }

  lemma NextPartChar(sub: string, tok: string, i: nat)
    requires i < |tok| && NoColons(PartsLeft(sub, tok, i))
    ensures var left := PartsLeft(sub, tok, i);
      if tok[i] == ':' then left[0] == sub && left[1..] == PartsLeft("", tok, i + 1)
      else left == PartsLeft(sub + [tok[i]], tok, i + 1)
    ensures tok[i] == ':' ==> NoColons(PartsLeft("", tok, i + 1))
  {
    hide Colons;
    SplitStep(sub, tok, i, {':'});
  }

  lemma LastPartLeft(sub: string, tok: string)
    ensures PartsLeft(sub, tok, |tok|) == [sub] && ProcessParts([sub][1..], 0) == Parsed([], 0)
  {
    LastToken(sub, {':'});
    assert tok[|tok|..] == [];
  }

  /** After the next part: the group has ended with its error, or goes on. */
  lemma PartDone(done: seq<Pair>, left: seq<string>, all: Parsed)
    requires left != [] && NoColons(left) && all == After(done, ProcessParts(left, 0))
    ensures Colons(left[0]) == 0 && NoColons(left[1..])
    ensures var first := ProcessToken(left[0]);
      all == if first.rc != 0 then Parsed(done + first.pairs, first.rc)
             else After(done + first.pairs, ProcessParts(left[1..], 0))
  {
    hide ProcessToken, ProcessParts, Colons;
    PartsStep(left);
    AfterTwice(done, ProcessToken(left[0]).pairs, ProcessParts(left[1..], 0));
  }

  /** The tokens still to come when tok has been collected up to position i. */
  ghost function TokensLeft(tok: string, buf: string, i: nat): (left: seq<string>)
    requires i <= |buf|
    ensures left != []
  {
    SplitFrom(tok, buf[i..], COMMA_SEPS)
  }

  lemma NextChar(tok: string, buf: string, i: nat)
    requires i < |buf|
    ensures var left := TokensLeft(tok, buf, i);
      if buf[i] == ',' || buf[i] == '\n' then left[0] == tok && left[1..] == TokensLeft("", buf, i + 1)
      else left == TokensLeft(tok + [buf[i]], buf, i + 1)
  {
    SplitStep(tok, buf, i, COMMA_SEPS);
  }

  lemma LastTokenLeft(tok: string, buf: string)
    ensures TokensLeft(tok, buf, |buf|) == [tok] && ProcessTokens([tok][1..]) == Parsed([], 0)
  {
    LastToken(tok, COMMA_SEPS);
    assert buf[|buf|..] == [];
  }

  /** After the next token: the parse has ended with its error, or goes on. */
  lemma TokenDone(done: seq<Pair>, left: seq<string>, all: Parsed)
    requires left != [] && |left[0]| < MAX_TOK_LEN && all == After(done, ProcessTokens(left))
    ensures var first := ProcessToken(left[0]);
      all == if first.rc != 0 then Parsed(done + first.pairs, first.rc)
             else After(done + first.pairs, ProcessTokens(left[1..]))
  {
    hide ProcessToken, ProcessTokens;
    TokensStep(left);
    AfterTwice(done, ProcessToken(left[0]).pairs, ProcessTokens(left[1..]));
  }

  lemma TooLong(tok: string, buf: string, i: nat)
    requires i <= |buf| && |tok| >= MAX_TOK_LEN
    ensures ProcessTokens(TokensLeft(tok, buf, i)) == Parsed([], 0)
  {
    FirstTokenGrows(tok, buf[i..], COMMA_SEPS);
  }

  lemma LastToken(tok: string, seps: set<char>)
    ensures SplitFrom(tok, [], seps) == [tok]
    ensures ProcessTokens([tok][1..]) == Parsed([], 0) && ProcessParts([tok][1..], 0) == Parsed([], 0)
  {
  }
}
