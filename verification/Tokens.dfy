/** Splitting text at separators and joining it again. */
module Tokens {

  /** The tokens of s, of which the first continues acc. */
  function SplitFrom(acc: string, s: string, seps: set<char>): (toks: seq<string>)
    ensures |toks| >= 1
    decreases |s|
  {
    if s == [] then [acc]
    else if s[0] in seps then [acc] + SplitFrom([], s[1..], seps)
    else SplitFrom(acc + [s[0]], s[1..], seps)
  }

  function Split(s: string, seps: set<char>): seq<string> {
    SplitFrom([], s, seps)
  }

  function Join(toks: seq<string>, sep: char): string
    requires toks != []
  {
    if |toks| == 1 then toks[0] else toks[0] + [sep] + Join(toks[1..], sep)
  }

  ghost predicate Free(s: string, seps: set<char>) {
    forall k :: 0 <= k < |s| ==> s[k] !in seps
  }

  ghost predicate AllFree(toks: seq<string>, seps: set<char>) {
    forall k :: 0 <= k < |toks| ==> Free(toks[k], seps)
  }

  lemma {:induction false} SplitFree(acc: string, s: string, seps: set<char>)
    requires Free(s, seps)
    ensures SplitFrom(acc, s, seps) == [acc + s]
    decreases |s|
  {
    if s == [] {
      assert acc + s == acc;
    } else {
      SplitFree(acc + [s[0]], s[1..], seps);
      assert acc + [s[0]] + s[1..] == acc + s;
    }
  }

  lemma {:induction false} SplitAtSeparator(acc: string, s: string, sep: char, rest: string, seps: set<char>)
    requires Free(s, seps) && sep in seps
    ensures SplitFrom(acc, s + [sep] + rest, seps) == [acc + s] + Split(rest, seps)
    decreases |s|
  {
    var t := s + [sep] + rest;
    if s == [] {
      assert t[0] == sep && t[1..] == rest && acc + s == acc;
    } else {
      assert t[0] == s[0] && t[1..] == s[1..] + [sep] + rest;
      SplitAtSeparator(acc + [s[0]], s[1..], sep, rest, seps);
      assert acc + [s[0]] + s[1..] == acc + s;
    }
  }

  /** Splitting what was joined returns the tokens. */
  lemma {:induction false} SplitOfJoin(toks: seq<string>, sep: char, seps: set<char>)
    requires toks != [] && sep in seps && AllFree(toks, seps)
    ensures Split(Join(toks, sep), seps) == toks
    decreases |toks|
  {
    assert Free(toks[0], seps);
    if |toks| == 1 {
      SplitFree([], toks[0], seps);
      assert [] + toks[0] == toks[0];
    } else {
      var rest := Join(toks[1..], sep);
      SplitAtSeparator([], toks[0], sep, rest, seps);
      SplitOfJoin(toks[1..], sep, seps);
      assert [] + toks[0] == toks[0] && [toks[0]] + toks[1..] == toks;
    }
  }

  /** Tokens contain no separator, and joining them restores the text. */
  lemma {:induction false} JoinOfSplit(acc: string, s: string, sep: char)
    requires Free(acc, {sep})
    ensures AllFree(SplitFrom(acc, s, {sep}), {sep})
    ensures Join(SplitFrom(acc, s, {sep}), sep) == acc + s
    decreases |s|
  {
    if s == [] {
      assert acc + s == acc;
    } else if s[0] == sep {
      JoinOfSplit([], s[1..], sep);
      var rest := SplitFrom([], s[1..], {sep});
      assert ([acc] + rest)[1..] == rest;
      assert acc + [sep] + ([] + s[1..]) == acc + s;
    } else {
      JoinOfSplit(acc + [s[0]], s[1..], sep);
      assert acc + [s[0]] + s[1..] == acc + s;
    }
  }

  /** The first token starts with what was already collected for it. */
  lemma {:induction false} FirstTokenGrows(acc: string, s: string, seps: set<char>)
    ensures |SplitFrom(acc, s, seps)[0]| >= |acc|
    decreases |s|
  {
    if s != [] && s[0] !in seps {
      FirstTokenGrows(acc + [s[0]], s[1..], seps);
    }
  }
}
