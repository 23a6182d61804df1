/** Removing the options that only the mount helper understands from the option
    string, in place (strip_userland_opts in src/utils/mount.ecryptfs.c). */
module StripOptions {
  import opened Common
  import opened Tokens

  const ParametersToScrub: seq<string> := [
    "key=", "cipher=", "passthrough", "ecryptfs_passthrough", "hmac", "ecryptfs_hmac", "xattr", "ecryptfs_xattr",
    "encrypted_view", "ecryptfs_encrypted_view", "user", "sig", "no_sig_cache", "verbose", "verbosity",
    "ecryptfs_enable_filename_crypto"]

  const ParametersToNotScrub: seq<string> := ["xattr_user"]

  /** Some prefix in the table starts s. */
  ghost predicate StartsWithAny(s: string, table: seq<string>) {
    exists k :: 0 <= k < |table| && table[k] <= s
  }

  ghost predicate Scrubbed(option: string) {
    StartsWithAny(option, ParametersToScrub) && !StartsWithAny(option, ParametersToNotScrub)
  }

  ghost function Options(s: string): seq<string> { Split(s, {','}) }

  /** The options for the kernel, in order. */
  ghost function Kept(options: seq<string>): seq<string> {
    if options == [] then []
    else (if Scrubbed(options[0]) then [] else [options[0]]) + Kept(options[1..])
  }

  ghost function JoinAny(options: seq<string>): string {
    if options == [] then [] else Join(options, ',')
  }

  ghost function Stripped(s: string): string {
    JoinAny(Kept(Options(s)))
  }

  /* ---- properties of the result ---- */

  lemma EmptyIsKept()
    ensures !Scrubbed("")
  {
    assert forall k :: 0 <= k < |ParametersToScrub| ==> |ParametersToScrub[k]| > 0;
  }

  ghost predicate NoneScrubbed(options: seq<string>) {
    forall k :: 0 <= k < |options| ==> !Scrubbed(options[k])
  }

  lemma {:induction false} KeptIsSublist(options: seq<string>)
    ensures NoneScrubbed(Kept(options)) && |Kept(options)| <= |options|
    ensures forall o :: o in Kept(options) <==> o in options && !Scrubbed(o)
    ensures Kept(options) == options <==> NoneScrubbed(options)
    ensures |Kept(options)| == |options| ==> NoneScrubbed(options)
  {
    hide Scrubbed;
    if options != [] {
      KeptIsSublist(options[1..]);
      assert options == [options[0]] + options[1..];
    }
  }

  lemma {:induction false} KeptIsFree(options: seq<string>)
    requires AllFree(options, {','})
    ensures AllFree(Kept(options), {','})
  {
    hide Free, Scrubbed;
    if options != [] { KeptIsFree(options[1..]); }
  }

  /** The characters of the options and one comma after each. */
  ghost function Size(options: seq<string>): nat {
    if options == [] then 0 else |options[0]| + 1 + Size(options[1..])
  }

  lemma {:induction false} JoinSize(options: seq<string>)
    requires options != []
    ensures |Join(options, ',')| + 1 == Size(options)
  {
    if |options| > 1 { JoinSize(options[1..]); }
  }

  lemma {:induction false} KeptSize(options: seq<string>)
    ensures Size(Kept(options)) <= Size(options)
  {
    hide Scrubbed;
    if options != [] {
      KeptSize(options[1..]);
      if Scrubbed(options[0]) {
        assert Kept(options) == Kept(options[1..]);
      } else {
        assert Kept(options)[0] == options[0] && Kept(options)[1..] == Kept(options[1..]);
      }
    }
  }

  lemma SplitParts(s: string)
    ensures var o := Options(s); AllFree(o, {','}) && Join(o, ',') == s && Size(o) == |s| + 1
  {
    JoinOfSplit([], s, ',');
    assert [] + s == s;
    JoinSize(Options(s));
  }

  /** The kernel reads exactly the options that were kept; with none left it gets
      the empty string. */
  lemma StrippedSplits(s: string)
    ensures var kept := Kept(Options(s));
      Options(Stripped(s)) == if kept == [] then [""] else kept
  {
    hide Scrubbed;
    var o := Options(s);
    SplitParts(s);
    KeptIsFree(o);
    if Kept(o) != [] {
      SplitOfJoin(Kept(o), ',', {','});
    }
  }

  lemma StrippedIsNoLonger(s: string)
    ensures |Stripped(s)| <= |s|
  {
    hide Scrubbed, Kept;
    var o := Options(s);
    SplitParts(s);
    KeptSize(o);
    if Kept(o) != [] { JoinSize(Kept(o)); }
  }

  lemma StripIsIdempotent(s: string)
    ensures Stripped(Stripped(s)) == Stripped(s)
  {
    hide Scrubbed;
    EmptyIsKept();
    StrippedSplits(s);
    KeptIsSublist(Options(s));
    KeptIsSublist(Options(Stripped(s)));
  }

  /** The string is left alone exactly when there is nothing to remove. */
  lemma StripChangesIff(s: string)
    ensures Stripped(s) == s <==> NoneScrubbed(Options(s))
  {
    hide Scrubbed;
    EmptyIsKept();
    var o := Options(s);
    SplitParts(s);
    KeptIsSublist(o);
    StrippedSplits(s);
  }

  /* ---- which options are removed ---- */

  /** o starts, character by character, with p. */
  predicate Begins(o: string, p: string) {
    |p| <= |o| && forall i :: 0 <= i < |p| ==> o[i] == p[i]
  }

  /** The options that only the mount helper understands. */
  predicate IsForHelper(o: string) {
    && !Begins(o, "xattr_user")
    && (Begins(o, "key=") || Begins(o, "cipher=") || Begins(o, "passthrough") ||
      Begins(o, "ecryptfs_passthrough") || Begins(o, "hmac") || Begins(o, "ecryptfs_hmac") ||
      Begins(o, "xattr") || Begins(o, "ecryptfs_xattr") || Begins(o, "encrypted_view") ||
      Begins(o, "ecryptfs_encrypted_view") || Begins(o, "user") || Begins(o, "sig") ||
      Begins(o, "no_sig_cache") || Begins(o, "verbose") || Begins(o, "verbosity") ||
      Begins(o, "ecryptfs_enable_filename_crypto"))
  }

  lemma BeginsIsPrefix(o: string, p: string)
    ensures Begins(o, p) <==> p <= o
  {
  }

  /** Exactly those are scrubbed. */
  lemma ScrubbedIff(o: string)
    ensures Scrubbed(o) <==> IsForHelper(o)
  {
    var t, u := ParametersToScrub, ParametersToNotScrub;
    ScrubTable(t);
    BeginsIsPrefix(o, "xattr_user");
    assert u == ["xattr_user"];
    assert StartsWithAny(o, u) <==> Begins(o, "xattr_user") by {
      if Begins(o, "xattr_user") { assert u[0] <= o; }
    }
    StartsIff(o, t);
  }

  lemma ScrubTable(t: seq<string>)
    requires t == ParametersToScrub
    ensures |t| == 16
    ensures t[0] == "key="
    ensures t[1] == "cipher="
    ensures t[2] == "passthrough"
    ensures t[3] == "ecryptfs_passthrough"
    ensures t[4] == "hmac"
    ensures t[5] == "ecryptfs_hmac"
    ensures t[6] == "xattr"
    ensures t[7] == "ecryptfs_xattr"
    ensures t[8] == "encrypted_view"
    ensures t[9] == "ecryptfs_encrypted_view"
    ensures t[10] == "user"
    ensures t[11] == "sig"
    ensures t[12] == "no_sig_cache"
    ensures t[13] == "verbose"
    ensures t[14] == "verbosity"
    ensures t[15] == "ecryptfs_enable_filename_crypto"
  {
  }

  lemma StartsIff(o: string, t: seq<string>)
    ensures StartsWithAny(o, t) <==> exists k :: 0 <= k < |t| && Begins(o, t[k])
  {
    forall k | 0 <= k < |t|
      ensures Begins(o, t[k]) <==> t[k] <= o
    {
      BeginsIsPrefix(o, t[k]);
    }
  }

  lemma BeginsAppend(p: string, rest: string)
    ensures Begins(p + rest, p)
  {
  }

  lemma Differs(o: string, p: string, i: nat)
    requires i < |p| && i < |o| && o[i] != p[i]
    ensures !Begins(o, p)
  {
  }

  /* Each listed name, with whatever follows it, is removed. */

  lemma FirstFourAreScrubbed(rest: string)
    ensures Scrubbed("key=" + rest)
    ensures Scrubbed("cipher=" + rest)
    ensures Scrubbed("passthrough" + rest)
    ensures Scrubbed("ecryptfs_passthrough" + rest)
  {
    hide Begins, Scrubbed;
    BeginsAppend("key=", rest);
    Differs("key=" + rest, "xattr_user", 0);
    ScrubbedIff("key=" + rest);
    BeginsAppend("cipher=", rest);
    Differs("cipher=" + rest, "xattr_user", 0);
    ScrubbedIff("cipher=" + rest);
    BeginsAppend("passthrough", rest);
    Differs("passthrough" + rest, "xattr_user", 0);
    ScrubbedIff("passthrough" + rest);
    BeginsAppend("ecryptfs_passthrough", rest);
    Differs("ecryptfs_passthrough" + rest, "xattr_user", 0);
    ScrubbedIff("ecryptfs_passthrough" + rest);
  }

  lemma NextFourAreScrubbed(rest: string)
    ensures Scrubbed("hmac" + rest)
    ensures Scrubbed("ecryptfs_hmac" + rest)
    ensures Scrubbed("ecryptfs_xattr" + rest)
    ensures Scrubbed("encrypted_view" + rest)
  {
    hide Begins, Scrubbed;
    BeginsAppend("hmac", rest);
    Differs("hmac" + rest, "xattr_user", 0);
    ScrubbedIff("hmac" + rest);
    BeginsAppend("ecryptfs_hmac", rest);
    Differs("ecryptfs_hmac" + rest, "xattr_user", 0);
    ScrubbedIff("ecryptfs_hmac" + rest);
    BeginsAppend("ecryptfs_xattr", rest);
    Differs("ecryptfs_xattr" + rest, "xattr_user", 0);
    ScrubbedIff("ecryptfs_xattr" + rest);
    BeginsAppend("encrypted_view", rest);
    Differs("encrypted_view" + rest, "xattr_user", 0);
    ScrubbedIff("encrypted_view" + rest);
  }

  lemma ThirdFourAreScrubbed(rest: string)
    ensures Scrubbed("ecryptfs_encrypted_view" + rest)
    ensures Scrubbed("user" + rest)
    ensures Scrubbed("sig" + rest)
    ensures Scrubbed("no_sig_cache" + rest)
  {
    hide Begins, Scrubbed;
    BeginsAppend("ecryptfs_encrypted_view", rest);
    Differs("ecryptfs_encrypted_view" + rest, "xattr_user", 0);
    ScrubbedIff("ecryptfs_encrypted_view" + rest);
    BeginsAppend("user", rest);
    Differs("user" + rest, "xattr_user", 0);
    ScrubbedIff("user" + rest);
    BeginsAppend("sig", rest);
    Differs("sig" + rest, "xattr_user", 0);
    ScrubbedIff("sig" + rest);
    BeginsAppend("no_sig_cache", rest);
    Differs("no_sig_cache" + rest, "xattr_user", 0);
    ScrubbedIff("no_sig_cache" + rest);
  }

  lemma LastThreeAreScrubbed(rest: string)
    ensures Scrubbed("verbose" + rest)
    ensures Scrubbed("verbosity" + rest)
    ensures Scrubbed("ecryptfs_enable_filename_crypto" + rest)
  {
    hide Begins, Scrubbed;
    BeginsAppend("verbose", rest);
    Differs("verbose" + rest, "xattr_user", 0);
    ScrubbedIff("verbose" + rest);
    BeginsAppend("verbosity", rest);
    Differs("verbosity" + rest, "xattr_user", 0);
    ScrubbedIff("verbosity" + rest);
    BeginsAppend("ecryptfs_enable_filename_crypto", rest);
    Differs("ecryptfs_enable_filename_crypto" + rest, "xattr_user", 0);
    ScrubbedIff("ecryptfs_enable_filename_crypto" + rest);
  }

  /** All of them; the one exception starts with "xattr" and goes on with "_user". */
  lemma ListedAreScrubbed(rest: string)
    ensures Scrubbed("key=" + rest)
    ensures Scrubbed("cipher=" + rest)
    ensures Scrubbed("passthrough" + rest)
    ensures Scrubbed("ecryptfs_passthrough" + rest)
    ensures Scrubbed("hmac" + rest)
    ensures Scrubbed("ecryptfs_hmac" + rest)
    ensures Scrubbed("ecryptfs_xattr" + rest)
    ensures Scrubbed("encrypted_view" + rest)
    ensures Scrubbed("ecryptfs_encrypted_view" + rest)
    ensures Scrubbed("user" + rest)
    ensures Scrubbed("sig" + rest)
    ensures Scrubbed("no_sig_cache" + rest)
    ensures Scrubbed("verbose" + rest)
    ensures Scrubbed("verbosity" + rest)
    ensures Scrubbed("ecryptfs_enable_filename_crypto" + rest)
    ensures Scrubbed("xattr" + rest) <==> !Begins("xattr" + rest, "xattr_user")
  {
    hide Scrubbed;
    FirstFourAreScrubbed(rest);
    NextFourAreScrubbed(rest);
    ThirdFourAreScrubbed(rest);
    LastThreeAreScrubbed(rest);
    BeginsAppend("xattr", rest);
    hide Begins;
    ScrubbedIff("xattr" + rest);
  }

  /** The protected name, the options that the library hands on, and a plain one
      are kept, with whatever follows the first three. */
  lemma OthersAreKept(rest: string)
    ensures !Scrubbed("xattr_user" + rest)
    ensures !Scrubbed("ecryptfs_sig=" + rest) && !Scrubbed("ecryptfs_cipher=" + rest)
    ensures !Scrubbed("rw")
  {
    ScrubbedIff("xattr_user" + rest);
    SigIsKept("ecryptfs_sig=" + rest);
    CipherIsKept("ecryptfs_cipher=" + rest);
    ScrubbedIff("rw");
  }

  lemma SigIsKept(o: string)
    requires Begins(o, "ecryptfs_sig=")
    ensures !Scrubbed(o)
  {
    assert |o| >= 13 && o[0] == 'e' && o[1] == 'c' && o[9] == 's';
    hide Scrubbed, Begins;
    ScrubbedIff(o);
    Differs(o, "key=", 0);
    Differs(o, "cipher=", 0);
    Differs(o, "passthrough", 0);
    Differs(o, "ecryptfs_passthrough", 9);
    Differs(o, "hmac", 0);
    Differs(o, "ecryptfs_hmac", 9);
    Differs(o, "xattr", 0);
    Differs(o, "ecryptfs_xattr", 9);
    Differs(o, "encrypted_view", 1);
    Differs(o, "ecryptfs_encrypted_view", 9);
    Differs(o, "user", 0);
    Differs(o, "sig", 0);
    Differs(o, "no_sig_cache", 0);
    Differs(o, "verbose", 0);
    Differs(o, "verbosity", 0);
    Differs(o, "ecryptfs_enable_filename_crypto", 9);
  }

  lemma CipherIsKept(o: string)
    requires Begins(o, "ecryptfs_cipher=")
    ensures !Scrubbed(o)
  {
    assert |o| >= 16 && o[0] == 'e' && o[1] == 'c' && o[9] == 'c';
    hide Scrubbed, Begins;
    ScrubbedIff(o);
    Differs(o, "key=", 0);
    Differs(o, "cipher=", 0);
    Differs(o, "passthrough", 0);
    Differs(o, "ecryptfs_passthrough", 9);
    Differs(o, "hmac", 0);
    Differs(o, "ecryptfs_hmac", 9);
    Differs(o, "xattr", 0);
    Differs(o, "ecryptfs_xattr", 9);
    Differs(o, "encrypted_view", 1);
    Differs(o, "ecryptfs_encrypted_view", 9);
    Differs(o, "user", 0);
    Differs(o, "sig", 0);
    Differs(o, "no_sig_cache", 0);
    Differs(o, "verbose", 0);
    Differs(o, "verbosity", 0);
    Differs(o, "ecryptfs_enable_filename_crypto", 9);
  }

  /* ---- whole lists ---- */

  /** The options for the kernel, by their text. */
  function ForKernel(options: seq<string>): seq<string> {
    if options == [] then []
    else (if IsForHelper(options[0]) then [] else [options[0]]) + ForKernel(options[1..])
  }

  lemma {:induction false} KeptIsForKernel(options: seq<string>)
    ensures Kept(options) == ForKernel(options)
  {
    hide Scrubbed, IsForHelper;
    if options != [] {
      ScrubbedIff(options[0]);
      KeptIsForKernel(options[1..]);
    }
  }

  /** A list of options, written with commas, becomes the list of those for the
      kernel, in order. */
  lemma StrippedList(options: seq<string>)
    requires options != [] && AllFree(options, {','})
    ensures Stripped(Join(options, ',')) ==
      if ForKernel(options) == [] then "" else Join(ForKernel(options), ',')
  {
    SplitOfJoin(options, ',', {','});
    KeptIsForKernel(options);
    hide Kept, ForKernel;
  }

  /** For instance, whatever the key, the level and the signature. */
  lemma StrippedExample(a: string, b: string, c: string)
    requires Free(a, {','}) && Free(b, {','}) && Free(c, {','})
    ensures Stripped(Join(["key=" + a, "rw", "verbosity" + b, "ecryptfs_sig=" + c], ','))
         == Join(["rw", "ecryptfs_sig=" + c], ',')
  {
    hide Scrubbed, Stripped, Join, Free;
    ListedAreScrubbed(a);
    ListedAreScrubbed(b);
    OthersAreKept(c);
    LiteralsAreFree(a, b, c);
    StrippedFour("key=" + a, "rw", "verbosity" + b, "ecryptfs_sig=" + c);
  }

  lemma LiteralsAreFree(a: string, b: string, c: string)
    requires Free(a, {','}) && Free(b, {','}) && Free(c, {','})
    ensures Free("key=" + a, {','}) && Free("rw", {','})
    ensures Free("verbosity" + b, {','}) && Free("ecryptfs_sig=" + c, {','})
  {
  }

  lemma StrippedFour(k: string, l: string, m: string, n: string)
    requires Scrubbed(k) && !Scrubbed(l) && Scrubbed(m) && !Scrubbed(n)
    requires Free(k, {','}) && Free(l, {','}) && Free(m, {','}) && Free(n, {','})
    ensures Stripped(Join([k, l, m, n], ',')) == Join([l, n], ',')
  {
    var o1, o2, o3, o4 := [n], [m, n], [l, m, n], [k, l, m, n];
    assert o1[1..] == [] && o2[1..] == o1 && o3[1..] == o2 && o4[1..] == o3;
    hide Scrubbed, Join, SplitFrom, Free;
    assert AllFree(o4, {','});
    SplitOfJoin(o4, ',', {','});
    assert Kept(o1) == [n] + Kept([]);
    assert Kept(o2) == Kept(o1);
    assert Kept(o3) == [l] + Kept(o2);
    assert Kept(o4) == Kept(o3) == [l, n];
  }

  /* ---- the in-place form ---- */

  method StartsAny(s: string, table: seq<string>) returns (yes: bool)
    ensures yes <==> StartsWithAny(s, table)
  {
    yes := false;
    var i := 0;
    while i < |table|
      invariant 0 <= i <= |table| && !StartsWithAny(s, table[..i])
    {
      if table[i] <= s {
        return true;
      }
      i := i + 1;
    }
    assert table[..i] == table;
  }

  /** The loop of parameter_should_be_scrubbed, which asks about protected prefixes inside. */
  method InTableUnlessProtected(option: string, scrub: seq<string>, protect: seq<string>) returns (yes: bool)
    ensures yes <==> StartsWithAny(option, scrub) && !StartsWithAny(option, protect)
  {
    var i := 0;
    while i < |scrub|
      invariant 0 <= i <= |scrub|
      invariant StartsWithAny(option, protect) || !StartsWithAny(option, scrub[..i])
    {
      if scrub[i] <= option {
        var protected := StartsAny(option, protect);
        if !protected {
          return true;
        }
      }
      i := i + 1;
    }
    assert scrub[..i] == scrub;
    return false;
  }

  method ParameterShouldBeScrubbed(option: string) returns (yes: bool)
    ensures yes <==> Scrubbed(option)
  {
    yes := InTableUnlessProtected(option, ParametersToScrub, ParametersToNotScrub);
  }

  function Nuls(n: nat): (z: string)
    ensures |z| == n && forall k :: 0 <= k < n ==> z[k] == '\0'
  {
    seq(n, k => '\0')
  }

  /** What is copied for the options still to come, behind what is in temp. */
  ghost function Emitted(temp: string, first: bool, options: seq<string>): string
    decreases |options|
  {
    if options == [] then temp
    else if Scrubbed(options[0]) then Emitted(temp, first, options[1..])
    else Emitted(temp + (if first then [] else [',']) + options[0], false, options[1..])
  }

  lemma {:induction false} EmittedIs(temp: string, first: bool, options: seq<string>)
    ensures Emitted(temp, first, options) ==
      temp + (if first || Kept(options) == [] then [] else [',']) + JoinAny(Kept(options))
    decreases |options|
  {
    hide Scrubbed;
    if options != [] {
      var o, rest := options[0], Kept(options[1..]);
      if Scrubbed(o) {
        assert Kept(options) == rest;
        EmittedIs(temp, first, options[1..]);
      } else {
        var comma := if first then [] else [','];
        EmittedIs(temp + comma + o, false, options[1..]);
        assert Kept(options) == [o] + rest && ([o] + rest)[1..] == rest;
        if rest == [] {
          assert JoinAny([o]) == o;
        } else {
          assert JoinAny(Kept(options)) == o + [','] + JoinAny(rest);
        }
      }
    }
  }

  /** Splitting off one option. */
  lemma NextOption(s: string, cur: nat, e: nat)
    requires cur <= e <= |s| && ',' !in s[cur..e] && (e < |s| ==> s[e] == ',')
    ensures Options(s[cur..]) == [s[cur..e]] + if e < |s| then Options(s[e + 1..]) else []
  {
    assert [] + s[cur..e] == s[cur..e];
    if e < |s| {
      assert s[cur..] == s[cur..e] + [','] + s[e + 1..];
      SplitAtSeparator([], s[cur..e], ',', s[e + 1..], {','});
    } else {
      assert s[cur..] == s[cur..e];
      SplitFree([], s[cur..e], {','});
    }
  }

  /** strstr(cur, ","), or the end of the string. */
  method FindComma(buf: array<char>, cur: nat) returns (e: nat)
    requires cur < buf.Length && '\0' in buf[cur..]
    ensures cur <= e < buf.Length && (buf[e] == ',' || buf[e] == '\0')
    ensures ',' !in buf[cur..e] && forall k :: cur <= k < e ==> buf[k] != '\0'
  {
    e := cur;
    while e < buf.Length && buf[e] != ',' && buf[e] != '\0'
      invariant cur <= e <= buf.Length && ',' !in buf[cur..e] && '\0' !in buf[cur..e]
    {
      assert buf[cur..e + 1] == buf[cur..e] + [buf[e]];
      e := e + 1;
    }
  }

  /** Appends one option to the temporary copy, behind a comma unless it is the first. */
  method AppendOption(temp: array<char>, end: nat, first: bool, option: string) returns (end': nat)
    requires end + (if first then 0 else 1) + |option| <= temp.Length
    modifies temp
    ensures end' == end + (if first then 0 else 1) + |option|
    ensures temp[..end'] == old(temp[..end]) + (if first then [] else [',']) + option
    ensures forall k :: end' <= k < temp.Length ==> temp[k] == old(temp[k])
  {
    end' := end;
    if !first {
      CopyInto(temp, end', [',']);
      end' := end' + 1;
    }
    CopyInto(temp, end', option);
    end' := end' + |option|;
  }

  /** Takes the option at cur, cutting the string at the comma behind it. */
  method CutOption(options: array<char>, n: nat, cur: nat, ghost s: string) returns (e: nat, option: string)
    requires |s| == n < options.Length && cur <= n && options[n] == '\0'
    requires forall k :: cur <= k < n ==> options[k] == s[k]
    requires '\0' !in s
    modifies options
    ensures cur <= e <= n && option == s[cur..e] && ',' !in option && (e < n ==> s[e] == ',')
    ensures forall k :: e < k < options.Length ==> options[k] == old(options[k])
    ensures options[n] == '\0'
  {
    assert options[cur..][n - cur] == '\0';
    e := FindComma(options, cur);
    option := options[cur..e];
    if options[e] == ',' {
      options[e] := '\0';
    }
  }

  /** The loop over the options, which collects those to keep in temp. */
  method FilterInto(options: array<char>, n: nat, temp: array<char>) returns (end: nat)
    requires options != temp && n < options.Length && options[n] == '\0' && '\0' !in options[..n]
    requires temp.Length == n + 1 && forall k :: 0 <= k <= n ==> temp[k] == '\0'
    modifies options, temp
    ensures end <= n && temp[..end] == Emitted([], true, Options(old(options[..n])))
    ensures forall k :: end <= k <= n ==> temp[k] == '\0'
    ensures forall k :: n <= k < options.Length ==> options[k] == old(options[k])
  {
    hide Scrubbed, Options, Emitted;
    ghost var s := options[..n];
    ghost var todo := Options(s);
    end := 0;
    var cur, first := 0, true;
    assert s[0..] == s && temp[..0] == [];
    while cur <= n
      invariant end <= n && cur <= n + 1 && (if first then end == 0 else end < cur)
      invariant todo == if cur <= n then Options(s[cur..]) else []
      invariant forall k :: cur <= k < n ==> options[k] == s[k]
      invariant options[n] == '\0' && forall k :: n <= k < options.Length ==> options[k] == old(options[k])
      invariant forall k :: end <= k <= n ==> temp[k] == '\0'
      invariant Emitted(temp[..end], first, todo) == Emitted([], true, Options(s))
    {
      var e, option := CutOption(options, n, cur, s);
      NextOption(s, cur, e);
      var scrub := ParameterShouldBeScrubbed(option);
      EmittedStep(temp[..end], first, todo);
      if !scrub {
        end := AppendOption(temp, end, first, option);
        first := false;
      }
      todo := todo[1..];
      cur := e + 1;
    }
    EmittedEnd(temp[..end], first);
  }

  lemma EmittedEnd(temp: string, first: bool)
    ensures Emitted(temp, first, []) == temp
  {
  }

  lemma EmittedStep(temp: string, first: bool, options: seq<string>)
    requires options != []
    ensures Emitted(temp, first, options) ==
      if Scrubbed(options[0]) then Emitted(temp, first, options[1..])
      else Emitted(temp + (if first then [] else [',']) + options[0], false, options[1..])
  {
  }

  /** The buffer afterwards: the stripped string, NULs up to the old end, and what
      was behind that. */
  ghost function StrippedBuffer(buf: string): (r: string)
    requires '\0' in buf
    ensures |r| == |buf|
    ensures CString(r, '\0') == Stripped(CString(buf, '\0'))
  {
    hide Stripped;
    var s := CString(buf, '\0');
    StrippedIsNoLonger(s);
    StrippedHasNoNul(s);
    var z := Nuls(|s| + 1 - |Stripped(s)|);
    CStringBeforeNul(Stripped(s), '\0', z[1..] + buf[|s| + 1..]);
    assert Stripped(s) + z + buf[|s| + 1..] == Stripped(s) + ['\0'] + (z[1..] + buf[|s| + 1..]);
    Stripped(s) + z + buf[|s| + 1..]
  }

  lemma StrippedHasNoNul(s: string)
    requires '\0' !in s
    ensures '\0' !in Stripped(s)
  {
    hide Scrubbed;
    var o := Options(s);
    SplitParts(s);
    KeptIsSublist(o);
    forall x | x in o
      ensures '\0' !in x
    {
      if '\0' in x { JoinHolds(o, x, '\0'); }
    }
    if Kept(o) != [] && '\0' in Stripped(s) {
      JoinFrom(Kept(o), '\0');
    }
  }

  /** A joined text holds the characters of its parts, and otherwise only commas. */
  lemma {:induction false} JoinHolds(options: seq<string>, o: string, c: char)
    requires o in options && c in o
    ensures c in Join(options, ',')
  {
    if o != options[0] { JoinHolds(options[1..], o, c); }
  }

  lemma {:induction false} JoinFrom(options: seq<string>, c: char)
    requires options != [] && c != ',' && c in Join(options, ',')
    ensures exists o :: o in options && c in o
  {
    if |options| > 1 && c !in options[0] {
      JoinFrom(options[1..], c);
    }
  }

  lemma StrippedIsEmitted(s: string)
    ensures Emitted([], true, Options(s)) == Stripped(s)
  {
    EmittedIs([], true, Options(s));
  }

  lemma StrippedBufferIs(buf: string)
    requires '\0' in buf
    ensures |Stripped(CString(buf, '\0'))| <= |CString(buf, '\0')|
    ensures var s := CString(buf, '\0');
      StrippedBuffer(buf) == Stripped(s) + Nuls(|s| + 1 - |Stripped(s)|) + buf[|s| + 1..]
  {
    hide Stripped, CString;
    StrippedIsNoLonger(CString(buf, '\0'));
  }

  method StripUserlandOpts(options: array?<char>) returns (rc: int)
    requires options != null ==> '\0' in options[..]
    modifies options
    ensures rc == 0
    ensures options != null ==> options[..] == StrippedBuffer(old(options[..]))
  {
    hide Kept, Scrubbed, Options, CString, Emitted, Stripped, StrippedBuffer;
    rc := 0;
    if options == null {
      return;
    }
    ghost var was := options[..];
    var s := CString(options[..], '\0');
    var n := |s|;
    var temp := new char[n + 1](_ => '\0');
    assert options[..n] == s && was[n] == '\0';
    var end := FilterInto(options, n, temp);
    StrippedIsEmitted(s);
    assert temp[..] == temp[..end] + Nuls(n + 1 - end);
    assert options[n + 1..] == was[n + 1..];
    CopyInto(options, 0, temp[..]);
    assert options[..] == options[..n + 1] + options[n + 1..];
    StrippedBufferIs(was);
  }
}
