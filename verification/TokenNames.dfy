/** Enumerator names, their C values, and the order in which the token generators enumerate. */
module TokenNames {
  import opened Wrappers

  // Python's upper and C's lowcase, on ASCII.
  function Upper(c: char): char {
    if 'a' <= c <= 'z' then c - 'a' + 'A' else c
  }

  function Lower(c: char): char {
    if 'A' <= c <= 'Z' then c - 'A' + 'a' else c
  }

  function EnumChar(c: char): char {
    if Upper(c) == ':' || Upper(c) == '-' then '_' else Upper(c)
  }

  // to_enum_hd: the loop appends one character at a time.
  method ToEnumHd(k: string, prefix: string) returns (res: string)
    ensures res == EnumName(prefix, k)
  {
    res := prefix + "_";
    for i := 0 to |k|
      invariant res == EnumName(prefix, k[..i])
    {
      assert k[..i + 1][..i] == k[..i];
      if Upper(k[i]) == ':' || Upper(k[i]) == '-' {
        res := res + "_";
        continue;
      }
      res := res + [Upper(k[i])];
    }
    assert k[..|k|] == k;
  }

  function EnumName(prefix: string, k: string): string {
    if k == "" then prefix + "_" else EnumName(prefix, k[..|k| - 1]) + [EnumChar(k[|k| - 1])]
  }

  function EnumChars(k: string): string {
    seq(|k|, (i: nat) requires i < |k| => EnumChar(k[i]))
  }

  lemma {:induction false} EnumNameIs(prefix: string, k: string)
    ensures EnumName(prefix, k) == prefix + "_" + EnumChars(k)
  {
    if k == "" {
      assert prefix + "_" + EnumChars(k) == prefix + "_";
    } else {
      var n := |k| - 1;
      EnumNameIs(prefix, k[..n]);
      assert EnumChars(k) == EnumChars(k[..n]) + [EnumChar(k[n])];
    }
  }

  lemma SameTail(a: string, x: string, y: string)
    ensures a + x == a + y <==> x == y
  {
    assert (a + x)[|a|..] == x && (a + y)[|a|..] == y;
  }

  /** In an enumerator small letters are capitals, ':' and '-' are underscores, and every other character stays. */
  lemma EnumCharIs(prefix: string, k: string)
    ensures var name := EnumName(prefix, k);
      && |name| == |prefix| + 1 + |k| && name[..|prefix|] == prefix && name[|prefix|] == '_'
      && forall i :: 0 <= i < |k| ==>
           name[|prefix| + 1 + i] ==
             if k[i] in {':', '-'} then '_' else if 'a' <= k[i] <= 'z' then k[i] - ' ' else k[i]
  {
    EnumNameIs(prefix, k);
  }

  lemma EnumNameExample()
    ensures EnumName("NGHTTP2_TOKEN", ":path") == "NGHTTP2_TOKEN__PATH"
  {
    EnumNameIs("NGHTTP2_TOKEN", ":path");
    assert EnumChars(":path") == "_PATH";
  }

  // The same letter, one of them small and the other capital.
  predicate Cases(c: char, d: char) {
    ('a' <= c <= 'z' && d == c - ' ') || ('a' <= d <= 'z' && c == d - ' ')
  }

  // Equal but for the case of letters, or both of ':', '-' and '_'.
  predicate Alike(c: char, d: char) {
    c == d || Cases(c, d) || (c in {':', '-', '_'} && d in {':', '-', '_'})
  }

  lemma AlikeIs(c: char, d: char)
    ensures Alike(c, d) <==> EnumChar(c) == EnumChar(d)
  {
  }

  /** Two tokens share an enumerator exactly when they are equal but for case, ':' and '-'. */
  lemma SameEnumName(prefix: string, k: string, k': string)
    ensures EnumName(prefix, k) == EnumName(prefix, k') <==>
      |k| == |k'| && forall i :: 0 <= i < |k| ==> Alike(k[i], k'[i])
  {
    hide EnumName, EnumChar, Alike;
    forall c, d
      ensures Alike(c, d) <==> EnumChar(c) == EnumChar(d)
    {
      AlikeIs(c, d);
    }
    EnumNameIs(prefix, k);
    EnumNameIs(prefix, k');
    SameTail(prefix + "_", EnumChars(k), EnumChars(k'));
    if EnumChars(k) == EnumChars(k') {
      forall i | 0 <= i < |k|
        ensures EnumChar(k[i]) == EnumChar(k'[i])
      {
        assert EnumChars(k)[i] == EnumChars(k')[i];
      }
    }
  }

  // --- Python's sorted, on strings ---

  predicate AtMost(a: string, b: string) {
    a == "" || (b != "" && (a[0] < b[0] || (a[0] == b[0] && AtMost(a[1..], b[1..]))))
  }

  lemma {:induction false} AtMostTotal(a: string, b: string)
    ensures AtMost(a, b) || AtMost(b, a)
    ensures AtMost(a, b) && AtMost(b, a) ==> a == b
  {
    if a != "" && b != "" {
      AtMostTotal(a[1..], b[1..]);
      assert a == [a[0]] + a[1..] && b == [b[0]] + b[1..];
    }
  }

  lemma {:induction false} AtMostTransitive(a: string, b: string, c: string)
    requires AtMost(a, b) && AtMost(b, c)
    ensures AtMost(a, c)
  {
    if a != "" && a[0] == b[0] == c[0] {
      AtMostTransitive(a[1..], b[1..], c[1..]);
    }
  }

  function Insert(k: string, sorted: seq<string>): seq<string> {
    if sorted == [] || AtMost(k, sorted[0]) then [k] + sorted else [sorted[0]] + Insert(k, sorted[1..])
  }

  function Sorted(ks: seq<string>): seq<string> {
    if ks == [] then [] else Insert(ks[0], Sorted(ks[1..]))
  }

  ghost predicate InOrder(ks: seq<string>) {
    forall i, j :: 0 <= i < j < |ks| ==> AtMost(ks[i], ks[j])
  }

  lemma InOrderCons(k: string, ks: seq<string>)
    requires InOrder(ks) && (ks == [] || AtMost(k, ks[0]))
    ensures InOrder([k] + ks)
  {
    var all := [k] + ks;
    forall i, j | 0 <= i < j < |all|
      ensures AtMost(all[i], all[j])
    {
      if i == 0 && j > 1 {
        assert AtMost(ks[0], ks[j - 1]);
        AtMostTransitive(k, ks[0], all[j]);
      }
    }
  }

  lemma {:induction false} InsertIs(k: string, ks: seq<string>)
    requires InOrder(ks)
    ensures InOrder(Insert(k, ks)) && multiset(Insert(k, ks)) == multiset{k} + multiset(ks)
    ensures Insert(k, ks)[0] == k || (ks != [] && Insert(k, ks)[0] == ks[0])
  {
    hide InOrder, AtMost;
    if ks != [] && !AtMost(k, ks[0]) {
      TailInOrder(ks);
      InsertIs(k, ks[1..]);
      AtMostTotal(k, ks[0]);
      assert ks == [ks[0]] + ks[1..];
      InOrderCons(ks[0], Insert(k, ks[1..]));
    } else {
      InOrderCons(k, ks);
    }
  }

  lemma TailInOrder(ks: seq<string>)
    requires InOrder(ks) && ks != []
    ensures InOrder(ks[1..]) && (|ks| > 1 ==> AtMost(ks[0], ks[1]))
  {
  }

  lemma NothingInOrder()
    ensures InOrder([])
  {
  }

  lemma SameMembers(a: seq<string>, b: seq<string>)
    requires multiset(a) == multiset(b)
    ensures |a| == |b| && forall x :: x in a <==> x in b
  {
    assert |multiset(a)| == |multiset(b)|;
    forall x
      ensures x in a <==> x in b
    {
      assert x in multiset(a) <==> x in multiset(b);
    }
  }

  /** What sorted gives: the same strings, in order. */
  lemma {:induction false} SortedIs(ks: seq<string>)
    ensures InOrder(Sorted(ks)) && multiset(Sorted(ks)) == multiset(ks)
    ensures |Sorted(ks)| == |ks| && forall x :: x in Sorted(ks) <==> x in ks
  {
    hide InOrder, Insert;
    if ks == [] {
      NothingInOrder();
    } else {
      SortedIs(ks[1..]);
      InsertIs(ks[0], Sorted(ks[1..]));
      assert ks == [ks[0]] + ks[1..];
    }
    SameMembers(Sorted(ks), ks);
  }

  // --- C enumerations ---

  datatype Enumerator = Enumerator(name: string, value: Option<int>)

  // C gives an enumerator without a value one more than the one before, the first 0.
  function ValueAt(enum_: seq<Enumerator>, i: nat): int
    requires i < |enum_|
  {
    if enum_[i].value.Some? then enum_[i].value.value else if i == 0 then 0 else ValueAt(enum_, i - 1) + 1
  }

  // An enumeration compiles when no name is declared twice.
  ghost predicate Compiles(enum_: seq<Enumerator>) {
    forall i, j :: 0 <= i < j < |enum_| ==> enum_[i].name != enum_[j].name
  }

}
