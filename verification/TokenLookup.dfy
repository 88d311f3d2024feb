/** The token lookups of gentokenlookup.py and genlibtokenlookup.py: from a list of names to a switch over
    length and last character that C runs. */
module TokenLookup {
  import opened Wrappers
  import opened TokenNames

  // Python's headers by length, then by last character.
  type Index = map<nat, map<char, seq<string>>>

  ghost predicate AreTokens(headers: seq<string>) {
    forall i :: 0 <= i < |headers| ==> headers[i] != ""
  }

  function Last(k: string): char
    requires k != ""
  {
    k[|k| - 1]
  }

  // The names of a length with a last character, in list order; the library's generator skips repeated ones.
  function Bucket(headers: seq<string>, skip: bool, size: nat, c: char): seq<string> {
    if headers == [] then []
    else
      var front, k := Bucket(headers[..|headers| - 1], skip, size, c), headers[|headers| - 1];
      if k != "" && |k| == size && Last(k) == c && !(skip && k in front) then front + [k] else front
  }

  lemma {:induction false} BucketMembers(headers: seq<string>, skip: bool, size: nat, c: char)
    ensures forall k :: k in Bucket(headers, skip, size, c) <==>
      k in headers && k != "" && |k| == size && Last(k) == c
  {
    if headers != [] {
      var n := |headers| - 1;
      BucketMembers(headers[..n], skip, size, c);
      assert headers == headers[..n] + [headers[n]];
    }
  }

  function Inner(b: Index, size: nat): map<char, seq<string>> {
    if size in b then b[size] else map[]
  }

  function At(b: Index, size: nat, c: char): seq<string> {
    if c in Inner(b, size) then Inner(b, size)[c] else []
  }

  /** Every bucket is that of its length and character, and nothing is there for an empty one. */
  ghost predicate Indexes(b: Index, headers: seq<string>, skip: bool) {
    && (forall size :: size in b ==> b[size] != map[])
    && (forall size, c :: size in b && c in b[size] ==> b[size][c] != [])
    && (forall size, c :: At(b, size, c) == Bucket(headers, skip, size, c))
  }

  function Added(b: Index, skip: bool, k: string): Index
    requires k != ""
  {
    var bucket := At(b, |k|, Last(k));
    b[|k| := Inner(b, |k|)[Last(k) := if skip && k in bucket then bucket else bucket + [k]]]
  }

  // build_header, where ent stands for the dictionary at its place in res.
  method BuildHeader(headers: seq<string>, skip: bool) returns (res: Index)
    requires AreTokens(headers)
    ensures Indexes(res, headers, skip)
  {
    hide Indexes;
    res := map[];
    NothingIndexed(skip);
    for i := 0 to |headers|
      invariant Indexes(res, headers[..i], skip)
    {
      var k := headers[i];
      ghost var before := res;
      assert headers[..i + 1] == headers[..i] + [k];
      IndexesStep(res, headers[..i], skip, k);
      var size := |k|;
      if size !in res {
        res := res[size := map[]];
      }
      var ent := res[size];
      var c := Last(k);
      if c !in ent {
        ent := ent[c := []];
      }
      assert ent[c] == At(before, size, c);
      if !skip || k !in ent[c] {
        ent := ent[c := ent[c] + [k]];
      }
      res := res[size := ent];
      assert ent == Added(before, skip, k)[size];
      assert res == Added(before, skip, k);
    }
    assert headers[..|headers|] == headers;
  }

  lemma NothingIndexed(skip: bool)
    ensures Indexes(map[], [], skip)
  {
  }

  lemma BucketStep(headers: seq<string>, skip: bool, k: string, size: nat, c: char)
    requires k != ""
    ensures var front := Bucket(headers, skip, size, c);
      Bucket(headers + [k], skip, size, c) ==
        if |k| == size && Last(k) == c && !(skip && k in front) then front + [k] else front
  {
    assert (headers + [k])[..|headers|] == headers;
  }

  lemma AtAdded(b: Index, skip: bool, k: string, size: nat, c: char)
    requires k != ""
    ensures At(Added(b, skip, k), size, c) ==
      if |k| == size && Last(k) == c && !(skip && k in At(b, size, c)) then At(b, size, c) + [k] else At(b, size, c)
  {
  }

  lemma IndexesStep(b: Index, headers: seq<string>, skip: bool, k: string)
    requires Indexes(b, headers, skip) && k != ""
    ensures Indexes(Added(b, skip, k), headers + [k], skip)
  {
    var b' := Added(b, skip, k);
    assert forall size :: size in b' ==> b'[size] != map[] by {
      assert Last(k) in b'[|k|];
    }
    hide Bucket;
    forall size, c
      ensures At(b', size, c) == Bucket(headers + [k], skip, size, c)
    {
      hide At, Added;
      BucketStep(headers, skip, k, size, c);
      AtAdded(b, skip, k, size, c);
    }
  }

  // --- the generated switch ---

  // if (compare(prefix, name, length)) return token;
  datatype Test = Test(prefix: string, length: nat, token: string)

  datatype CharCase = CharCase(c: char, tests: seq<Test>)

  // case size: switch (name[index])
  datatype SizeCase = SizeCase(size: nat, index: int, cases: seq<CharCase>)

  // streq_l or memeq, and strieq_l.
  datatype Comparison = Exact | IgnoreCase

  predicate SameChar(cmp: Comparison, a: char, b: char) {
    if cmp == Exact then a == b else Lower(a) == Lower(b)
  }

  predicate Same(cmp: Comparison, a: string, b: string) {
    |a| == |b| && forall i :: 0 <= i < |a| ==> SameChar(cmp, a[i], b[i])
  }

  function RunTests(cmp: Comparison, tests: seq<Test>, name: string): Option<string>
    requires forall t :: t in tests ==> t.length <= |name|
  {
    if tests == [] then None
    else if Same(cmp, tests[0].prefix, name[..tests[0].length]) then Some(tests[0].token)
    else RunTests(cmp, tests[1..], name)
  }

  // Leaving a case, or finding none, falls out of both switches to the failure value.
  function RunChars(cmp: Comparison, cases: seq<CharCase>, c: char, name: string): Option<string>
    requires forall k, t :: k in cases && t in k.tests ==> t.length <= |name|
  {
    if cases == [] then None
    else if cases[0].c == c then RunTests(cmp, cases[0].tests, name)
    else RunChars(cmp, cases[1..], c, name)
  }

  ghost predicate Runs(sizes: seq<SizeCase>) {
    forall s :: s in sizes ==>
      0 <= s.index < s.size && forall k, t :: k in s.cases && t in k.tests ==> t.length <= s.size
  }

  function RunSizes(cmp: Comparison, sizes: seq<SizeCase>, name: string): Option<string>
    requires Runs(sizes)
  {
    if sizes == [] then None
    else if sizes[0].size == |name| then RunChars(cmp, sizes[0].cases, name[sizes[0].index], name)
    else RunSizes(cmp, sizes[1..], name)
  }

  // --- generating it ---

  function TestFor(prefix: string, k: string): Test
    requires k != ""
  {
    Test(k[..|k| - 1], |k| - 1, EnumName(prefix, k))
  }

  ghost predicate AreTests(tests: seq<Test>, ents: seq<string>, prefix: string)
    requires AreTokens(ents)
  {
    |tests| == |ents| && forall i :: 0 <= i < |ents| ==> tests[i] == TestFor(prefix, ents[i])
  }

  ghost predicate IsCharCase(k: CharCase, ent: map<char, seq<string>>, prefix: string) {
    k.c in ent && AreTokens(Sorted(ent[k.c])) && AreTests(k.tests, Sorted(ent[k.c]), prefix)
  }

  // One case for every character of the dictionary but those in rest, which come later, in ascending order.
  ghost predicate IsCharSwitch(cases: seq<CharCase>, ent: map<char, seq<string>>, rest: set<char>, prefix: string) {
    && (forall i, j :: 0 <= i < j < |cases| ==> cases[i].c < cases[j].c)
    && (forall i, c :: 0 <= i < |cases| && c in rest ==> cases[i].c < c)
    && (forall k :: k in cases ==> IsCharCase(k, ent, prefix))
    && (forall c :: c in ent && c !in rest ==> exists i :: 0 <= i < |cases| && cases[i].c == c)
  }

  ghost predicate IsSizeCase(s: SizeCase, b: Index, prefix: string) {
    s.size in b && s.index == s.size - 1 && IsCharSwitch(s.cases, b[s.size], {}, prefix)
  }

  ghost predicate IsSwitch(sizes: seq<SizeCase>, b: Index, rest: set<nat>, prefix: string) {
    && (forall i, j :: 0 <= i < j < |sizes| ==> sizes[i].size < sizes[j].size)
    && (forall i, n :: 0 <= i < |sizes| && n in rest ==> sizes[i].size < n)
    && (forall s :: s in sizes ==> IsSizeCase(s, b, prefix))
    && (forall n :: n in b && n !in rest ==> exists i :: 0 <= i < |sizes| && sizes[i].size == n)
  }

  method GenTests(ents: seq<string>, prefix: string) returns (tests: seq<Test>)
    requires AreTokens(ents)
    ensures AreTests(tests, ents, prefix)
  {
    tests := [];
    for i := 0 to |ents|
      invariant |tests| == i && forall j :: 0 <= j < i ==> tests[j] == TestFor(prefix, ents[j])
    {
      var k := ents[i];
      var token := ToEnumHd(k, prefix);
      tests := tests + [Test(k[..|k| - 1], |k| - 1, token)];
    }
  }

  lemma {:induction false} LeastChar(cs: set<char>)
    requires cs != {}
    ensures exists c :: c in cs && forall d :: d in cs ==> c <= d
  {
    var c :| c in cs;
    if cs != {c} {
      LeastChar(cs - {c});
      var least :| least in cs - {c} && forall d :: d in cs - {c} ==> least <= d;
      var smaller := if c < least then c else least;
      forall d | d in cs
        ensures smaller <= d
      {
        assert d == c || d in cs - {c};
      }
    }
  }

  lemma {:induction false} LeastSize(ns: set<nat>)
    requires ns != {}
    ensures exists n :: n in ns && forall m :: m in ns ==> n <= m
  {
    var n :| n in ns;
    var rest := ns - {n};
    if rest == {} {
      assert ns == {n};
    } else {
      LeastSize(rest);
      var least: nat :| least in rest && forall m :: m in rest ==> least <= m;
      assert ns == rest + {n};
      if n < least {
        assert forall m :: m in ns ==> n <= m;
      } else {
        assert least in ns && forall m :: m in ns ==> least <= m;
      }
    }
  }

  ghost predicate AllTokens(ent: map<char, seq<string>>) {
    forall c :: c in ent ==> AreTokens(ent[c])
  }

  lemma SortedTokens(ks: seq<string>)
    requires AreTokens(ks)
    ensures AreTokens(Sorted(ks))
  {
    SortedIs(ks);
    forall i | 0 <= i < |ks|
      ensures Sorted(ks)[i] != ""
    {
      assert Sorted(ks)[i] in Sorted(ks);
    }
  }

  lemma AnotherCharCase(cases: seq<CharCase>, ent: map<char, seq<string>>, rest: set<char>, k: CharCase, prefix: string)
    requires IsCharSwitch(cases, ent, rest, prefix) && IsCharCase(k, ent, prefix)
    requires k.c in rest && forall d :: d in rest ==> k.c <= d
    ensures IsCharSwitch(cases + [k], ent, rest - {k.c}, prefix)
  {
    hide IsCharCase;
    var all := cases + [k];
    assert forall i :: 0 <= i < |cases| ==> all[i] == cases[i];
    assert all[|cases|] == k;
    forall c | c in ent && c !in rest - {k.c}
      ensures exists i :: 0 <= i < |all| && all[i].c == c
    {
      if c !in rest {
        var i :| 0 <= i < |cases| && cases[i].c == c;
        assert all[i].c == c;
      }
    }
  }

  lemma AnotherSizeCase(sizes: seq<SizeCase>, b: Index, rest: set<nat>, s: SizeCase, prefix: string)
    requires IsSwitch(sizes, b, rest, prefix) && IsSizeCase(s, b, prefix)
    requires s.size in rest && forall n :: n in rest ==> s.size <= n
    ensures IsSwitch(sizes + [s], b, rest - {s.size}, prefix)
  {
    hide IsSizeCase;
    var all := sizes + [s];
    assert forall i :: 0 <= i < |sizes| ==> all[i] == sizes[i];
    assert all[|sizes|] == s;
    forall n | n in b && n !in rest - {s.size}
      ensures exists i :: 0 <= i < |all| && all[i].size == n
    {
      if n !in rest {
        var i :| 0 <= i < |sizes| && sizes[i].size == n;
        assert all[i].size == n;
      }
    }
  }

  // The cases over the last character, in the order of the sorted keys.
  method GenCharCases(ent: map<char, seq<string>>, prefix: string) returns (cases: seq<CharCase>)
    requires AllTokens(ent)
    ensures IsCharSwitch(cases, ent, {}, prefix)
  {
    hide AreTests, Sorted;
    cases := [];
    var rest := ent.Keys;
    while rest != {}
      invariant rest <= ent.Keys && IsCharSwitch(cases, ent, rest, prefix)
      decreases |rest|
    {
      LeastChar(rest);
      var c :| c in rest && forall d :: d in rest ==> c <= d;
      SortedTokens(ent[c]);
      var headers := Sorted(ent[c]);
      var tests := GenTests(headers, prefix);
      AnotherCharCase(cases, ent, rest, CharCase(c, tests), prefix);
      cases := cases + [CharCase(c, tests)];
      rest := rest - {c};
    }
  }

  // The whole function, over the lengths in the order of the sorted keys.
  method GenIndexHeader(headers: seq<string>, skip: bool, prefix: string)
    returns (sizes: seq<SizeCase>)
    requires AreTokens(headers)
    ensures exists b :: Indexes(b, headers, skip) && IsSwitch(sizes, b, {}, prefix)
  {
    var res := BuildHeader(headers, skip);
    sizes := [];
    var rest := res.Keys;
    while rest != {}
      invariant rest <= res.Keys && IsSwitch(sizes, res, rest, prefix)
      decreases |rest|
    {
      LeastSize(rest);
      var size :| size in rest && forall n :: n in rest ==> size <= n;
      IndexedTokens(res, headers, skip, size);
      var cases := GenCharCases(res[size], prefix);
      AnotherSizeCase(sizes, res, rest, SizeCase(size, size - 1, cases), prefix);
      sizes := sizes + [SizeCase(size, size - 1, cases)];
      rest := rest - {size};
    }
  }

  lemma IndexedTokens(b: Index, headers: seq<string>, skip: bool, size: nat)
    requires Indexes(b, headers, skip) && size in b
    ensures AllTokens(b[size]) && size > 0
  {
    forall c | c in b[size]
      ensures AreTokens(b[size][c]) && size > 0
    {
      assert At(b, size, c) == b[size][c];
      BucketMembers(headers, skip, size, c);
      assert b[size][c][0] in b[size][c];
    }
    assert exists c :: c in b[size];
  }
}
