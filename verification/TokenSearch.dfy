/** The generated lookups against plain search, and the values they return. */
module TokenSearch {
  import opened Wrappers
  import opened TokenNames
  import opened TokenLookup

  // A name is a token when the last characters are equal and the others compare equal.
  predicate Matches(cmp: Comparison, k: string, name: string) {
    k != "" && |k| == |name| && Last(k) == Last(name) && Same(cmp, k[..|k| - 1], name[..|k| - 1])
  }

  lemma ExactMatches(k: string, name: string)
    ensures Matches(Exact, k, name) <==> k == name && k != ""
  {
  }

  /** Ignoring case, letters match in either case, but the last character only as it is. */
  lemma CaselessMatches(k: string, name: string)
    ensures Matches(IgnoreCase, k, name) <==>
      k != "" && |k| == |name| && k[|k| - 1] == name[|k| - 1] &&
      forall i :: 0 <= i < |k| - 1 ==> k[i] == name[i] || Cases(k[i], name[i])
  {
    if k != "" && |k| == |name| {
      var n := |k| - 1;
      forall i | 0 <= i < n
        ensures SameChar(IgnoreCase, k[..n][i], name[..n][i]) <==> k[i] == name[i] || Cases(k[i], name[i])
      {
      }
    }
  }

  // Plain search through the list.
  function Search(cmp: Comparison, headers: seq<string>, prefix: string, name: string): Option<string> {
    if headers == [] then None
    else if Matches(cmp, headers[0], name) then Some(EnumName(prefix, headers[0]))
    else Search(cmp, headers[1..], prefix, name)
  }

  lemma {:induction false} SearchIs(cmp: Comparison, headers: seq<string>, prefix: string, name: string)
    ensures match Search(cmp, headers, prefix, name)
      case None => forall k :: k in headers ==> !Matches(cmp, k, name)
      case Some(x) => exists k :: k in headers && Matches(cmp, k, name) && x == EnumName(prefix, k)
  {
    if headers != [] {
      SearchIs(cmp, headers[1..], prefix, name);
      assert headers == [headers[0]] + headers[1..];
    }
  }

  /** All tokens that match a name have the same enumerator. */
  lemma MatchesAgree(cmp: Comparison, k: string, k': string, prefix: string, name: string)
    requires Matches(cmp, k, name) && Matches(cmp, k', name)
    ensures EnumName(prefix, k) == EnumName(prefix, k')
  {
    forall i | 0 <= i < |k|
      ensures EnumChar(k[i]) == EnumChar(k'[i])
    {
      if i < |k| - 1 {
        assert SameChar(cmp, k[..|k| - 1][i], name[..|k| - 1][i]);
        assert SameChar(cmp, k'[..|k'| - 1][i], name[..|k'| - 1][i]);
      }
    }
    SameEnumName(prefix, k, k');
  }

  // --- the switch finds what search finds ---

  lemma {:induction false} RunTestsIs(cmp: Comparison, tests: seq<Test>, ents: seq<string>, prefix: string,
      name: string)
    requires AreTokens(ents) && AreTests(tests, ents, prefix)
    requires forall k :: k in ents ==> |k| == |name| && Last(k) == Last(name)
    ensures forall t :: t in tests ==> t.length <= |name|
    ensures RunTests(cmp, tests, name) == Search(cmp, ents, prefix, name)
  {
    if ents != [] {
      assert ents[0] in ents;
      assert AreTests(tests[1..], ents[1..], prefix);
      RunTestsIs(cmp, tests[1..], ents[1..], prefix, name);
      assert tests == [tests[0]] + tests[1..];
    }
  }

  lemma {:induction false} RunCharsIs(cmp: Comparison, cases: seq<CharCase>, name: string, c: char, i: nat)
    requires forall k, t :: k in cases && t in k.tests ==> t.length <= |name|
    requires forall a, b :: 0 <= a < b < |cases| ==> cases[a].c < cases[b].c
    requires i <= |cases| && forall a :: 0 <= a < |cases| && cases[a].c == c ==> a == i
    ensures RunChars(cmp, cases, c, name) ==
      if i < |cases| && cases[i].c == c then RunTests(cmp, cases[i].tests, name) else None
  {
    if cases != [] && cases[0].c != c {
      var i' := if i == 0 then |cases| - 1 else i - 1;
      assert forall a :: 0 <= a < |cases| - 1 ==> cases[1..][a] == cases[a + 1];
      RunCharsIs(cmp, cases[1..], name, c, i');
    }
  }

  lemma {:induction false} RunSizesIs(cmp: Comparison, sizes: seq<SizeCase>, name: string, i: nat)
    requires Runs(sizes)
    requires forall a, b :: 0 <= a < b < |sizes| ==> sizes[a].size < sizes[b].size
    requires i <= |sizes| && forall a :: 0 <= a < |sizes| && sizes[a].size == |name| ==> a == i
    ensures RunSizes(cmp, sizes, name) ==
      if i < |sizes| && sizes[i].size == |name| then RunChars(cmp, sizes[i].cases, name[sizes[i].index], name) else None
  {
    if sizes != [] && sizes[0].size != |name| {
      var i' := if i == 0 then |sizes| - 1 else i - 1;
      assert forall a :: 0 <= a < |sizes| - 1 ==> sizes[1..][a] == sizes[a + 1];
      RunSizesIs(cmp, sizes[1..], name, i');
    }
  }

  // Search finds the same in two lists with the same matching tokens.
  lemma SameSearch(cmp: Comparison, xs: seq<string>, ys: seq<string>, prefix: string, name: string)
    requires forall k :: Matches(cmp, k, name) ==> (k in xs <==> k in ys)
    ensures Search(cmp, xs, prefix, name) == Search(cmp, ys, prefix, name)
  {
    SearchIs(cmp, xs, prefix, name);
    SearchIs(cmp, ys, prefix, name);
    if Search(cmp, xs, prefix, name).Some? && Search(cmp, ys, prefix, name).Some? {
      var k :| k in xs && Matches(cmp, k, name) && Search(cmp, xs, prefix, name).value == EnumName(prefix, k);
      var k' :| k' in ys && Matches(cmp, k', name) && Search(cmp, ys, prefix, name).value == EnumName(prefix, k');
      MatchesAgree(cmp, k, k', prefix, name);
    }
  }

  // The names under a character, all of one length.
  ghost predicate IsBucket(ents: seq<string>, size: nat, c: char) {
    forall k :: k in ents ==> k != "" && |k| == size && Last(k) == c
  }

  lemma IndexedBucket(b: Index, headers: seq<string>, skip: bool, size: nat, c: char)
    requires Indexes(b, headers, skip)
    ensures IsBucket(At(b, size, c), size, c)
    ensures forall k :: k in At(b, size, c) <==> k in headers && k != "" && |k| == size && Last(k) == c
  {
    BucketMembers(headers, skip, size, c);
  }

  lemma CharCaseRuns(k: CharCase, ent: map<char, seq<string>>, prefix: string, size: nat)
    requires IsCharCase(k, ent, prefix) && IsBucket(ent[k.c], size, k.c)
    ensures forall t :: t in k.tests ==> t.length <= size
  {
    var ents := Sorted(ent[k.c]);
    SortedIs(ent[k.c]);
    forall t | t in k.tests
      ensures t.length <= size
    {
      var i :| 0 <= i < |k.tests| && k.tests[i] == t;
      assert ents[i] in ents;
    }
  }

  lemma CharSwitchRuns(cases: seq<CharCase>, ent: map<char, seq<string>>, prefix: string, size: nat)
    requires IsCharSwitch(cases, ent, {}, prefix) && forall c :: c in ent ==> IsBucket(ent[c], size, c)
    ensures forall k, t :: k in cases && t in k.tests ==> t.length <= size
  {
    forall k, t | k in cases && t in k.tests
      ensures t.length <= size
    {
      CharCaseRuns(k, ent, prefix, size);
    }
  }

  /** The generated switch is one C can run: it looks only at characters the name has. */
  lemma SwitchRuns(headers: seq<string>, skip: bool, b: Index, sizes: seq<SizeCase>, prefix: string)
    requires Indexes(b, headers, skip) && IsSwitch(sizes, b, {}, prefix)
    ensures Runs(sizes)
  {
    forall s | s in sizes
      ensures 0 <= s.index < s.size && forall k, t :: k in s.cases && t in k.tests ==> t.length <= s.size
    {
      assert IsSizeCase(s, b, prefix);
      IndexedTokens(b, headers, skip, s.size);
      forall c | c in b[s.size]
        ensures IsBucket(b[s.size][c], s.size, c)
      {
        assert At(b, s.size, c) == b[s.size][c];
        IndexedBucket(b, headers, skip, s.size, c);
      }
      CharSwitchRuns(s.cases, b[s.size], prefix, s.size);
    }
  }

  lemma CharSwitchIs(cmp: Comparison, cases: seq<CharCase>, ent: map<char, seq<string>>, prefix: string, name: string)
    requires name != "" && IsCharSwitch(cases, ent, {}, prefix)
    requires forall c :: c in ent ==> IsBucket(ent[c], |name|, c)
    ensures forall k, t :: k in cases && t in k.tests ==> t.length <= |name|
    ensures RunChars(cmp, cases, Last(name), name) ==
      if Last(name) in ent then Search(cmp, Sorted(ent[Last(name)]), prefix, name) else None
  {
    var c := Last(name);
    CharSwitchRuns(cases, ent, prefix, |name|);
    if c in ent {
      var i: nat :| i < |cases| && cases[i].c == c;
      RunCharsIs(cmp, cases, name, c, i);
      assert cases[i] in cases;
      assert IsCharCase(cases[i], ent, prefix);
      SortedIs(ent[c]);
      RunTestsIs(cmp, cases[i].tests, Sorted(ent[c]), prefix, name);
    } else {
      forall a | 0 <= a < |cases|
        ensures cases[a].c != c
      {
        assert IsCharCase(cases[a], ent, prefix);
      }
      RunCharsIs(cmp, cases, name, c, |cases|);
    }
  }

  /** For every list of tokens and every name the generated two-level switch returns what plain search through
      the list does; the order of the cases and tests, and skipping repeated names, make no difference. */
  lemma SwitchIsSearch(cmp: Comparison, headers: seq<string>, skip: bool, b: Index, sizes: seq<SizeCase>,
                       prefix: string, name: string)
    requires Indexes(b, headers, skip) && IsSwitch(sizes, b, {}, prefix)
    ensures Runs(sizes) && RunSizes(cmp, sizes, name) == Search(cmp, headers, prefix, name)
  {
    hide IsCharSwitch, RunSizes, RunChars, Search, Bucket, Indexes;
    SwitchRuns(headers, skip, b, sizes, prefix);
    if |name| in b {
      var i: nat :| i < |sizes| && sizes[i].size == |name|;
      RunSizesIs(cmp, sizes, name, i);
      assert IsSizeCase(sizes[i], b, prefix);
      InSize(cmp, headers, skip, b, sizes[i].cases, prefix, name);
    } else {
      forall a | 0 <= a < |sizes|
        ensures sizes[a].size != |name|
      {
        assert IsSizeCase(sizes[a], b, prefix);
      }
      RunSizesIs(cmp, sizes, name, |sizes|);
      NotThere(cmp, headers, skip, b, prefix, name);
    }
  }

  lemma InSize(cmp: Comparison, headers: seq<string>, skip: bool, b: Index, cases: seq<CharCase>,
               prefix: string, name: string)
    requires Indexes(b, headers, skip) && |name| in b && IsCharSwitch(cases, b[|name|], {}, prefix)
    ensures name != "" && forall k, t :: k in cases && t in k.tests ==> t.length <= |name|
    ensures RunChars(cmp, cases, Last(name), name) == Search(cmp, headers, prefix, name)
  {
    hide Bucket, IsCharSwitch, RunChars, Search;
    IndexedTokens(b, headers, skip, |name|);
    var ent, c := b[|name|], Last(name);
    forall d | d in ent
      ensures IsBucket(ent[d], |name|, d)
    {
      assert At(b, |name|, d) == ent[d];
      IndexedBucket(b, headers, skip, |name|, d);
    }
    CharSwitchIs(cmp, cases, ent, prefix, name);
    IndexedBucket(b, headers, skip, |name|, c);
    if c in ent {
      SortedIs(ent[c]);
      SameSearch(cmp, Sorted(ent[c]), headers, prefix, name);
    } else {
      NotThere(cmp, headers, skip, b, prefix, name);
    }
  }

  lemma NotThere(cmp: Comparison, headers: seq<string>, skip: bool, b: Index, prefix: string, name: string)
    requires Indexes(b, headers, skip) && (name == "" || At(b, |name|, Last(name)) == [])
    ensures Search(cmp, headers, prefix, name) == None
  {
    SearchIs(cmp, headers, prefix, name);
    if name != "" {
      IndexedBucket(b, headers, skip, |name|, Last(name));
    }
  }

  // --- the values returned ---

  function IndexOf(enum_: seq<Enumerator>, name: string): (i: nat)
    ensures i <= |enum_| && (i < |enum_| ==> enum_[i].name == name)
  {
    if enum_ == [] then 0 else if enum_[0].name == name then 0 else 1 + IndexOf(enum_[1..], name)
  }

  lemma {:induction false} IndexOfIs(enum_: seq<Enumerator>, i: nat)
    requires Compiles(enum_) && i < |enum_|
    ensures IndexOf(enum_, enum_[i].name) == i
  {
    if i > 0 {
      assert enum_[0].name != enum_[i].name;
      IndexOfIs(enum_[1..], i - 1);
    }
  }

  // What C returns for an enumerator, or for falling out of the switches.
  function Returned(enum_: seq<Enumerator>, found: Option<string>, fail: int): int {
    if found == None then fail
    else if IndexOf(enum_, found.value) < |enum_| then ValueAt(enum_, IndexOf(enum_, found.value))
    else fail
  }

  // gen_enum of gentokenlookup.py: sorted tokens, then the count.
  method GenEnum(tokens: seq<string>, prefix: string) returns (enum_: seq<Enumerator>)
    ensures enum_ == TokenEnum(tokens, prefix)
  {
    enum_ := [];
    var sorted := Sorted(tokens);
    for i := 0 to |sorted|
      invariant enum_ == seq(i, (j: nat) requires j < i => Enumerator(EnumName(prefix, sorted[j]), None))
    {
      var name := ToEnumHd(sorted[i], prefix);
      enum_ := enum_ + [Enumerator(name, None)];
    }
    enum_ := enum_ + [Enumerator(prefix + "_MAXIDX", None)];
  }

  function TokenEnum(tokens: seq<string>, prefix: string): seq<Enumerator> {
    var sorted := Sorted(tokens);
    seq(|sorted|, (j: nat) requires j < |sorted| => Enumerator(EnumName(prefix, sorted[j]), None))
    + [Enumerator(prefix + "_MAXIDX", None)]
  }

  lemma {:induction false} CountedUp(enum_: seq<Enumerator>, i: nat)
    requires i < |enum_| && forall j :: 0 <= j <= i ==> enum_[j].value == None
    ensures ValueAt(enum_, i) == i
  {
    if i > 0 {
      CountedUp(enum_, i - 1);
    }
  }

  /** Tokens are numbered from 0 in their order, and the last enumerator is their number. */
  lemma EnumValues(tokens: seq<string>, prefix: string)
    ensures var enum_ := TokenEnum(tokens, prefix);
      && |enum_| == |tokens| + 1 && enum_[|tokens|].name == prefix + "_MAXIDX"
      && forall i :: 0 <= i < |enum_| ==> ValueAt(enum_, i) == i
  {
    hide ValueAt, Sorted;
    SortedIs(tokens);
    var enum_ := TokenEnum(tokens, prefix);
    forall i | 0 <= i < |enum_|
      ensures ValueAt(enum_, i) == i
    {
      CountedUp(enum_, i);
    }
  }

  // No token matches the name.
  ghost predicate Unmatched(cmp: Comparison, tokens: seq<string>, name: string) {
    forall k :: k in tokens ==> !Matches(cmp, k, name)
  }

  // A token that matches is the only one, and its place among the sorted ones is returned.
  lemma TokenFound(cmp: Comparison, tokens: seq<string>, prefix: string, fail: int, name: string)
      returns (i: nat)
    requires Compiles(TokenEnum(tokens, prefix)) && !Unmatched(cmp, tokens, name)
    ensures i < |Sorted(tokens)| && Returned(TokenEnum(tokens, prefix), Search(cmp, tokens, prefix, name), fail) == i
    ensures forall j :: 0 <= j < |Sorted(tokens)| ==> (Matches(cmp, Sorted(tokens)[j], name) <==> j == i)
  {
    var sorted, enum_, found := Sorted(tokens), TokenEnum(tokens, prefix), Search(cmp, tokens, prefix, name);
    hide Search, Sorted, Matches;
    SortedIs(tokens);
    SearchIs(cmp, tokens, prefix, name);
    var k :| k in tokens && Matches(cmp, k, name) && found == Some(EnumName(prefix, k));
    assert k in sorted;
    i :| i < |sorted| && sorted[i] == k;
    assert enum_[i] == Enumerator(EnumName(prefix, k), None);
    IndexOfIs(enum_, i);
    CountedUp(enum_, i);
    forall j | 0 <= j < |sorted| && Matches(cmp, sorted[j], name)
      ensures j == i
    {
      MatchesAgree(cmp, sorted[j], k, prefix, name);
      assert enum_[j].name == EnumName(prefix, sorted[j]);
    }
  }

  lemma TokenMissing(cmp: Comparison, tokens: seq<string>, prefix: string, fail: int, name: string)
    requires Unmatched(cmp, tokens, name)
    ensures Returned(TokenEnum(tokens, prefix), Search(cmp, tokens, prefix, name), fail) == fail
    ensures forall j :: 0 <= j < |Sorted(tokens)| ==> !Matches(cmp, Sorted(tokens)[j], name)
  {
    hide Sorted, Matches;
    SortedIs(tokens);
    SearchIs(cmp, tokens, prefix, name);
    forall j | 0 <= j < |Sorted(tokens)|
      ensures !Matches(cmp, Sorted(tokens)[j], name)
    {
      assert Sorted(tokens)[j] in Sorted(tokens);
    }
  }

  /** When the enumeration compiles, the lookup of gentokenlookup.py returns i exactly when the i-th of the sorted
      tokens matches the name, or none does and i is the failure value. A failure value outside the tokens' own
      therefore comes back exactly when none matches; one inside is also returned for the token of that value. */
  lemma TokenLookupReturns(cmp: Comparison, tokens: seq<string>, prefix: string, fail: int, name: string)
    requires Compiles(TokenEnum(tokens, prefix))
    ensures var r := Returned(TokenEnum(tokens, prefix), Search(cmp, tokens, prefix, name), fail);
      && (forall i :: 0 <= i < |Sorted(tokens)| ==>
            (r == i <==> (Matches(cmp, Sorted(tokens)[i], name) || (i == fail && Unmatched(cmp, tokens, name)))))
      && (r == fail <==>
            (Unmatched(cmp, tokens, name) ||
             (0 <= fail < |Sorted(tokens)| && Matches(cmp, Sorted(tokens)[fail], name))))
      && (r == fail || 0 <= r < |Sorted(tokens)| == |tokens|)
  {
    hide Compiles, TokenEnum, Search, Sorted, Matches, Returned, Unmatched;
    SortedIs(tokens);
    if Unmatched(cmp, tokens, name) {
      TokenMissing(cmp, tokens, prefix, fail, name);
    } else {
      var i := TokenFound(cmp, tokens, prefix, fail, name);
    }
  }

  /** A failure value that is also a token's: with the one token "a", the lookup of "a" and of "b" both give 0. */
  lemma ClashExample()
    ensures var tokens, enum_ := ["a"], TokenEnum(["a"], "P");
      && Compiles(enum_)
      && Returned(enum_, Search(Exact, tokens, "P", "a"), 0) == 0
      && Returned(enum_, Search(Exact, tokens, "P", "b"), 0) == 0
  {
    var tokens: seq<string>, enum_ := ["a"], TokenEnum(["a"], "P");
    assert Sorted(tokens) == ["a"];
    EnumNameIs("P", "a");
    assert |enum_| == 2 && |enum_[0].name| == 3 && |enum_[1].name| == 8;
    ExactMatches("a", "a");
    ExactMatches("a", "b");
    TokenLookupReturns(Exact, tokens, "P", 0, "a");
    TokenLookupReturns(Exact, tokens, "P", 0, "b");
  }

  // --- the library's list, with its own values and repeated names ---

  type Header = (string, Option<int>)

  function Names(headers: seq<Header>): (names: seq<string>)
    ensures |names| == |headers| && forall i :: 0 <= i < |names| ==> names[i] == headers[i].0
  {
    seq(|headers|, (i: nat) requires i < |headers| => headers[i].0)
  }

  const TOKEN := "NGHTTP2_TOKEN"

  // The name of the last header that had a value.
  function LastValued(headers: seq<Header>): string {
    if headers == [] then ""
    else if headers[|headers| - 1].1.Some? then headers[|headers| - 1].0
    else LastValued(headers[..|headers| - 1])
  }

  function LibEnum(headers: seq<Header>): seq<Enumerator> {
    if headers == [] then []
    else
      var front, h := headers[..|headers| - 1], headers[|headers| - 1];
      if h.1 == None || LastValued(front) != h.0 then LibEnum(front) + [Enumerator(EnumName(TOKEN, h.0), h.1)]
      else LibEnum(front)
  }

  // gen_enum of genlibtokenlookup.py.
  method GenLibEnum(headers: seq<Header>) returns (enum_: seq<Enumerator>)
    ensures enum_ == LibEnum(headers)
  {
    var name := "";
    enum_ := [];
    for i := 0 to |headers|
      invariant name == LastValued(headers[..i]) && enum_ == LibEnum(headers[..i])
    {
      var (k, token) := headers[i];
      assert headers[..i + 1][..i] == headers[..i];
      if token == None {
        var e := ToEnumHd(k, TOKEN);
        enum_ := enum_ + [Enumerator(e, None)];
      } else {
        if name != k {
          name := k;
          var e := ToEnumHd(k, TOKEN);
          enum_ := enum_ + [Enumerator(e, token)];
        }
      }
    }
    assert headers[..|headers|] == headers;
  }

  lemma {:induction false} LastValuedIn(headers: seq<Header>)
    ensures LastValued(headers) == "" || exists i :: 0 <= i < |headers| && headers[i].0 == LastValued(headers)
  {
    if headers != [] && headers[|headers| - 1].1 == None {
      LastValuedIn(headers[..|headers| - 1]);
    }
  }

  lemma {:induction false} LibEnumGrows(headers: seq<Header>, n: nat)
    requires n <= |headers|
    ensures |LibEnum(headers[..n])| <= |LibEnum(headers)|
    ensures LibEnum(headers)[..|LibEnum(headers[..n])|] == LibEnum(headers[..n])
  {
    if n == |headers| {
      assert headers[..n] == headers;
    } else {
      var front := headers[..|headers| - 1];
      LibEnumGrows(front, n);
      assert front[..n] == headers[..n];
    }
  }

  // --- when the library's enumeration compiles ---

  // Entries i and j declare one enumerator: they have one name and values, and no other name has a value between.
  ghost predicate Together(headers: seq<Header>, i: nat, j: nat)
    requires i < j < |headers|
  {
    && headers[i].0 == headers[j].0 && headers[i].1.Some? && headers[j].1.Some?
    && forall k :: i < k < j && headers[k].1.Some? ==> headers[k].0 == headers[i].0
  }

  // Names that share an enumerator are repetitions of one name, in one group.
  ghost predicate Grouped(headers: seq<Header>) {
    forall i: nat, j: nat :: i < j < |headers| && EnumName(TOKEN, headers[i].0) == EnumName(TOKEN, headers[j].0) ==>
      Together(headers, i, j)
  }

  ghost predicate Declares(enum_: seq<Enumerator>, name: string) {
    exists a :: 0 <= a < |enum_| && enum_[a].name == name
  }

  ghost predicate Mentions(headers: seq<Header>, name: string) {
    exists i :: 0 <= i < |headers| && EnumName(TOKEN, headers[i].0) == name
  }

  // The last entry with a value.
  lemma {:induction false} LastValuedAt(headers: seq<Header>) returns (m: int)
    ensures m < |headers| && (m < 0 ==> LastValued(headers) == "")
    ensures m >= 0 ==> headers[m].1.Some? && headers[m].0 == LastValued(headers)
    ensures forall k :: m < k < |headers| && k >= 0 ==> headers[k].1 == None
  {
    if headers == [] {
      m := -1;
    } else if headers[|headers| - 1].1.Some? {
      m := |headers| - 1;
    } else {
      m := LastValuedAt(headers[..|headers| - 1]);
    }
  }

  // Every name is declared, and nothing else.
  lemma {:induction false} AllDeclared(headers: seq<Header>, name: string)
    requires AreTokens(Names(headers))
    ensures Declares(LibEnum(headers), name) <==> Mentions(headers, name)
  {
    if headers != [] {
      var n := |headers| - 1;
      var front, h := headers[..n], headers[n];
      assert Names(front) == Names(headers)[..n];
      AllDeclared(front, name);
      assert h.0 == Names(headers)[n];
      if h.1 == None || LastValued(front) != h.0 {
        DeclaresOneMore(LibEnum(front), Enumerator(EnumName(TOKEN, h.0), h.1), name);
      } else {
        LastValuedIn(front);
      }
      MentionsOneMore(headers, name);
    }
  }

  lemma MentionsOneMore(headers: seq<Header>, name: string)
    requires headers != []
    ensures Mentions(headers, name) <==>
      Mentions(headers[..|headers| - 1], name) || EnumName(TOKEN, headers[|headers| - 1].0) == name
  {
    var n := |headers| - 1;
    var front := headers[..n];
    if Mentions(front, name) {
      var i :| 0 <= i < n && EnumName(TOKEN, front[i].0) == name;
      assert headers[i] == front[i];
    }
    if Mentions(headers, name) && EnumName(TOKEN, headers[n].0) != name {
      var i :| 0 <= i <= n && EnumName(TOKEN, headers[i].0) == name;
      assert front[i] == headers[i];
    }
  }

  lemma DeclaresOneMore(enum_: seq<Enumerator>, e: Enumerator, name: string)
    ensures Declares(enum_ + [e], name) <==> Declares(enum_, name) || e.name == name
    ensures Compiles(enum_ + [e]) <==> Compiles(enum_) && !Declares(enum_, e.name)
  {
    var all := enum_ + [e];
    assert all[|enum_|] == e && forall a :: 0 <= a < |enum_| ==> all[a] == enum_[a];
  }

  /** The library's enumeration compiles exactly when names that share an enumerator are one name, repeated with
      values and with no other value between: a group of repetitions is declared once, anything else twice. */
  lemma {:induction false} LibEnumCompiles(headers: seq<Header>)
    requires AreTokens(Names(headers))
    ensures Compiles(LibEnum(headers)) <==> Grouped(headers)
  {
    hide Grouped, JoinsGroup, Compiles, Declares, Mentions;
    if headers == [] {
      NothingGrouped();
    } else {
      var n := |headers| - 1;
      var front, h := headers[..n], headers[n];
      assert Names(front) == Names(headers)[..n] && h.0 == Names(headers)[n];
      LibEnumCompiles(front);
      GroupedOneMore(headers);
      var m := LastValuedAt(front);
      if h.1 == None || LastValued(front) != h.0 {
        DeclaresOneMore(LibEnum(front), Enumerator(EnumName(TOKEN, h.0), h.1), EnumName(TOKEN, h.0));
        AllDeclared(front, EnumName(TOKEN, h.0));
        DeclaredAgain(headers, m);
      } else if Grouped(front) {
        DeclaredBefore(headers, m);
      }
    }
  }

  lemma NothingGrouped()
    ensures Compiles([]) && Grouped([])
  {
  }

  ghost predicate JoinsGroup(headers: seq<Header>)
    requires headers != []
  {
    forall i: nat :: i < |headers| - 1 && EnumName(TOKEN, headers[i].0) == EnumName(TOKEN, headers[|headers| - 1].0) ==>
      Together(headers, i, |headers| - 1)
  }

  lemma GroupedOneMore(headers: seq<Header>)
    requires headers != []
    ensures Grouped(headers) <==> Grouped(headers[..|headers| - 1]) && JoinsGroup(headers)
  {
    var front := headers[..|headers| - 1];
    forall i: nat, j: nat | i < j < |front|
      ensures Together(front, i, j) <==> Together(headers, i, j)
    {
    }
  }

  // An entry that is declared although the last value had another name joins no group.
  lemma DeclaredAgain(headers: seq<Header>, m: int)
    requires headers != [] && m < |headers| - 1
    requires m >= 0 ==> headers[m].1.Some?
    requires forall k :: m < k < |headers| - 1 && k >= 0 ==> headers[k].1 == None
    requires headers[|headers| - 1].1 == None || m < 0 || headers[m].0 != headers[|headers| - 1].0
    ensures JoinsGroup(headers) <==>
      !Mentions(headers[..|headers| - 1], EnumName(TOKEN, headers[|headers| - 1].0))
  {
    var n := |headers| - 1;
    forall i: nat | i < n
      ensures !Together(headers, i, n)
    {
      if i < m {
        assert headers[m].1.Some?;
      }
    }
    if Mentions(headers[..n], EnumName(TOKEN, headers[n].0)) {
      var i :| 0 <= i < n && EnumName(TOKEN, headers[..n][i].0) == EnumName(TOKEN, headers[n].0);
      assert !Together(headers, i, n);
    } else {
      forall i: nat | i < n
        ensures EnumName(TOKEN, headers[i].0) != EnumName(TOKEN, headers[n].0)
      {
        assert headers[..n][i] == headers[i];
      }
    }
  }

  // An entry that repeats the last name with a value joins its group.
  lemma DeclaredBefore(headers: seq<Header>, m: int)
    requires headers != [] && 0 <= m < |headers| - 1 && Grouped(headers[..|headers| - 1])
    requires headers[m].1.Some? && headers[|headers| - 1].1.Some? && headers[m].0 == headers[|headers| - 1].0
    requires forall k :: m < k < |headers| - 1 ==> headers[k].1 == None
    ensures JoinsGroup(headers)
  {
    var n := |headers| - 1;
    var front := headers[..n];
    forall i: nat | i < n && EnumName(TOKEN, headers[i].0) == EnumName(TOKEN, headers[n].0)
      ensures Together(headers, i, n)
    {
      assert i > m ==> Together(front, m, i);
      if i < m {
        assert Together(front, i, m);
        forall k | i < k < n && headers[k].1.Some?
          ensures headers[k].0 == headers[i].0
        {
          assert k < m ==> front[k] == headers[k];
        }
      }
    }
  }

  // The first entry of a name is declared, at the place reached by then.
  lemma FirstDeclared(headers: seq<Header>, i: nat)
    requires i < |headers| && headers[i].0 != "" && forall j :: 0 <= j < i ==> headers[j].0 != headers[i].0
    ensures var enum_, p := LibEnum(headers), |LibEnum(headers[..i])|;
      p < |enum_| && enum_[p] == Enumerator(EnumName(TOKEN, headers[i].0), headers[i].1)
  {
    var enum_, p := LibEnum(headers), |LibEnum(headers[..i])|;
    var e := Enumerator(EnumName(TOKEN, headers[i].0), headers[i].1);
    LastValuedIn(headers[..i]);
    assert headers[..i + 1][..i] == headers[..i];
    assert LibEnum(headers[..i + 1]) == LibEnum(headers[..i]) + [e];
    LibEnumGrows(headers, i + 1);
    assert enum_[p] == enum_[..p + 1][p] == e;
  }

  lemma SearchFinds(names: seq<string>, k: string)
    requires k in names && k != ""
    ensures Search(Exact, names, TOKEN, k) == Some(EnumName(TOKEN, k))
  {
    SearchIs(Exact, names, TOKEN, k);
    ExactMatches(k, k);
    var found := Search(Exact, names, TOKEN, k);
    var k' :| k' in names && Matches(Exact, k', k) && found == Some(EnumName(TOKEN, k'));
    ExactMatches(k', k);
  }

  /** The library's lookup agrees on lists that repeat names: when the enumeration compiles, a name returns the
      value of its first entry, which is the given one, or one more than the enumerator before it. */
  lemma LibLookupReturns(headers: seq<Header>, i: nat)
    requires AreTokens(Names(headers)) && Compiles(LibEnum(headers))
    requires i < |headers| && forall j :: 0 <= j < i ==> headers[j].0 != headers[i].0
    ensures var enum_, p := LibEnum(headers), |LibEnum(headers[..i])|;
      var r := Returned(enum_, Search(Exact, Names(headers), TOKEN, headers[i].0), -1);
      && p < |enum_| && r == ValueAt(enum_, p)
      && (headers[i].1.Some? ==> r == headers[i].1.value)
      && (headers[i].1 == None ==> r == if p == 0 then 0 else ValueAt(enum_, p - 1) + 1)
  {
    hide LibEnum, Search, Compiles;
    assert headers[i].0 == Names(headers)[i];
    FirstDeclared(headers, i);
    IndexOfIs(LibEnum(headers), |LibEnum(headers[..i])|);
    SearchFinds(Names(headers), headers[i].0);
  }

  /** A name that is not in the list returns -1. */
  lemma LibLookupFails(headers: seq<Header>, name: string)
    requires name !in Names(headers)
    ensures Returned(LibEnum(headers), Search(Exact, Names(headers), TOKEN, name), -1) == -1
  {
    SearchIs(Exact, Names(headers), TOKEN, name);
    if Search(Exact, Names(headers), TOKEN, name).Some? {
      var k :| k in Names(headers) && Matches(Exact, k, name);
      ExactMatches(k, name);
    }
  }

  // --- the generators as a whole ---

  lemma SwitchIsSearchAlways(headers: seq<string>, skip: bool, b: Index, sizes: seq<SizeCase>, prefix: string)
    requires Indexes(b, headers, skip) && IsSwitch(sizes, b, {}, prefix)
    ensures Runs(sizes)
    ensures forall cmp, name :: RunSizes(cmp, sizes, name) == Search(cmp, headers, prefix, name)
  {
    SwitchRuns(headers, skip, b, sizes, prefix);
    forall cmp, name
      ensures RunSizes(cmp, sizes, name) == Search(cmp, headers, prefix, name)
    {
      SwitchIsSearch(cmp, headers, skip, b, sizes, prefix, name);
    }
  }

  /** gentokenlookup: whatever comparison the switch is compiled with, it is plain search for every name. */
  method GenTokenLookup(tokens: seq<string>, prefix: string) returns (enum_: seq<Enumerator>, sizes: seq<SizeCase>)
    requires AreTokens(tokens)
    ensures enum_ == TokenEnum(tokens, prefix) && Runs(sizes)
    ensures forall cmp, name :: RunSizes(cmp, sizes, name) == Search(cmp, tokens, prefix, name)
  {
    hide Runs, RunSizes, Search, Indexes, IsSwitch;
    enum_ := GenEnum(tokens, prefix);
    sizes := GenIndexHeader(tokens, false, prefix);
    ghost var b :| Indexes(b, tokens, false) && IsSwitch(sizes, b, {}, prefix);
    SwitchIsSearchAlways(tokens, false, b, sizes, prefix);
  }

  /** The library's generator, which skips repeated names. */
  method GenLibTokenLookup(headers: seq<Header>) returns (enum_: seq<Enumerator>, sizes: seq<SizeCase>)
    requires AreTokens(Names(headers))
    ensures enum_ == LibEnum(headers) && Runs(sizes)
    ensures forall name :: RunSizes(Exact, sizes, name) == Search(Exact, Names(headers), TOKEN, name)
  {
    hide Runs, RunSizes, Search, Indexes, IsSwitch;
    enum_ := GenLibEnum(headers);
    sizes := GenIndexHeader(Names(headers), true, TOKEN);
    ghost var b :| Indexes(b, Names(headers), true) && IsSwitch(sizes, b, {}, TOKEN);
    SwitchIsSearchAlways(Names(headers), true, b, sizes, TOKEN);
  }
}
