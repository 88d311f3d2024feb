/** The codec of section 5.2 of RFC 7541 over any complete code: what the generated table accepts and returns. */
module HuffmanCodec {
  import opened Wrappers
  import opened BitStrings
  import opened HuffmanTree
  import opened HuffmanTable

  ghost predicate Coded(book: Book, s: nat, bits: Bits) {
    exists i :: 0 <= i < |book| && book[i] == Code(s, bits)
  }

  /** What the generator needs of its code list: complete, no code a prefix of another, one code a symbol,
      no code shorter than a nibble, and an all-ones EOS too long to be padding. */
  ghost predicate Good(book: Book) {
    && PrefixFree(book) && Complete(book)
    && (forall i, j :: 0 <= i < |book| && 0 <= j < |book| && book[i].sym == book[j].sym ==> i == j)
    && (forall i :: 0 <= i < |book| ==> |book[i].bits| >= 4)
    && (exists i :: 0 <= i < |book| && book[i].sym == EOS && AllOnes(book[i].bits) && |book[i].bits| >= 8)
  }

  function CodeOf(book: Book, s: nat): Bits {
    if book == [] then []
    else if book[0].sym == s then book[0].bits
    else CodeOf(book[1..], s)
  }

  // The code of every symbol, as a function.
  function Codes(book: Book): nat -> Bits {
    (s: nat) => CodeOf(book, s)
  }

  // The concatenated codes of a text.
  function Encode(code: nat -> Bits, s: seq<nat>): Bits {
    if s == [] then [] else code(s[0]) + Encode(code, s[1..])
  }

  // A text is spelled by t when its symbols, none of them EOS, end codes of t.
  predicate Text(t: Tree, code: nat -> Bits, s: seq<nat>) {
    forall i :: 0 <= i < |s| ==> s[i] != EOS && Term(t, code(s[i])) == Some(s[i])
  }

  // `code` gives back the position of every code end of t.
  ghost predicate Inverts(t: Tree, code: nat -> Bits) {
    forall q :: Term(t, q).Some? ==> code(Term(t, q).value) == q
  }

  lemma {:induction false} CodeIsUnique(book: Book, s: nat, bits: Bits)
    requires forall i, j :: 0 <= i < |book| && 0 <= j < |book| && book[i].sym == book[j].sym ==> i == j
    requires Coded(book, s, bits)
    ensures CodeOf(book, s) == bits
  {
    var i :| 0 <= i < |book| && book[i] == Code(s, bits);
    if i > 0 {
      assert book[0].sym != s;
      var rest := book[1..];
      assert rest[i - 1] == Code(s, bits);
      forall a, b | 0 <= a < |rest| && 0 <= b < |rest| && rest[a].sym == rest[b].sym
        ensures a == b
      {
        assert rest[a] == book[a + 1] && rest[b] == book[b + 1];
      }
      CodeIsUnique(rest, s, bits);
    }
  }

  // --- what holds of the tree of a good code list ---

  lemma GoodTree(book: Book)
    requires Good(book)
    ensures Full(TreeOf(book)) && CodesAtLeast(TreeOf(book), 4) && Inner(TreeOf(book), [])
  {
    FullTree(book);
    LongCodes(book);
  }

  lemma TermIsCode(book: Book, p: Bits, s: nat)
    requires Good(book)
    ensures Term(TreeOf(book), p) == Some(s) <==> Coded(book, s, p)
    ensures Coded(book, s, p) ==> CodeOf(book, s) == p
  {
    TreeOfTerm(book, p);
    if Coded(book, s, p) {
      CodeIsUnique(book, s, p);
    }
    if Term(TreeOf(book), p) == Some(s) {
      var i :| 0 <= i < |book| && book[i].bits == p;
      assert book[i] == Code(s, p);
    }
  }

  // A proper prefix of a code is an inner position.
  lemma InnerPrefix(book: Book, i: nat, p: Bits)
    requires Good(book) && i < |book|
    requires p <= book[i].bits && p != book[i].bits
    ensures Inner(TreeOf(book), p)
  {
    TreeOfHas(book, p);
    TreeOfTerm(book, p);
    forall j: nat | j < |book|
      ensures book[j].bits != p
    {
      if book[j].bits == p {
        SameEntry(book, j, i, p);
      }
    }
  }

  lemma PaddingIsInner(book: Book, p: Bits)
    requires Good(book) && Padding(p)
    ensures Inner(TreeOf(book), p)
  {
    var i :| 0 <= i < |book| && book[i].sym == EOS && AllOnes(book[i].bits) && |book[i].bits| >= 8;
    assert p <= book[i].bits;
    InnerPrefix(book, i, p);
  }

  lemma GoodInverts(book: Book)
    requires Good(book)
    ensures Inverts(TreeOf(book), Codes(book))
  {
    forall q | Term(TreeOf(book), q).Some?
      ensures Codes(book)(Term(TreeOf(book), q).value) == q
    {
      TermIsCode(book, q, Term(TreeOf(book), q).value);
    }
  }

  // --- the walk decodes exactly the concatenated codes ---

  lemma {:induction false} WalkInside(t: Tree, p: Bits, rest: Bits, out: seq<nat>)
    requires Full(t) && Inner(t, p + rest)
    ensures WalkBits(t, Live(p, out), rest) == Live(p + rest, out)
    decreases |rest|
  {
    if rest == [] {
      assert p + rest == p;
    } else {
      var q := p + [rest[0]];
      assert q + rest[1..] == p + rest;
      if rest[1..] == [] {
        assert q == p + rest;
      } else {
        InnerAbove(t, q, rest[1..]);
      }
      WalkInside(t, q, rest[1..], out);
    }
  }

  lemma WalkCode(t: Tree, c: Bits, s: nat, out: seq<nat>)
    requires Full(t) && Inner(t, []) && Term(t, c) == Some(s) && s != EOS
    ensures WalkBits(t, Live([], out), c) == Live([], out + [s])
  {
    var n := |c| - 1;
    assert c == c[..n] + [c[n]] && [] + c[..n] == c[..n];
    InnerAbove(t, c[..n], [c[n]]);
    WalkInside(t, [], c[..n], out);
    WalkConcat(t, Live([], out), c[..n], [c[n]]);
    assert WalkBits(t, Live(c[..n], out), [c[n]]) == WalkBit(t, Live(c[..n], out), c[n]);
  }

  lemma {:induction false} WalkText(t: Tree, code: nat -> Bits, s: seq<nat>, out: seq<nat>)
    requires Full(t) && Inner(t, []) && Text(t, code, s)
    ensures WalkBits(t, Live([], out), Encode(code, s)) == Live([], out + s)
    decreases |s|
  {
    if s == [] {
      assert out + s == out;
    } else {
      WalkCode(t, code(s[0]), s[0], out);
      WalkText(t, code, s[1..], out + [s[0]]);
      assert out + [s[0]] + s[1..] == out + s;
      WalkConcat(t, Live([], out), code(s[0]), Encode(code, s[1..]));
    }
  }

  lemma Prepend(t: Tree, code: nat -> Bits, q: Bits, s: seq<nat>, rest: Bits, bits: Bits)
    requires Text(t, code, s) && Inverts(t, code)
    requires Term(t, q).Some? && Term(t, q) != Some(EOS)
    requires bits == Encode(code, s) + rest
    ensures var s' := [Term(t, q).value] + s;
            Text(t, code, s') && q + bits == Encode(code, s') + rest
  {
  }

  lemma NothingSpelt(t: Tree, code: nat -> Bits)
    ensures Text(t, code, []) && Encode(code, []) == []
  {
  }

  // Whatever a surviving walk emitted is what its bits spell, up to the position it rests at.
  lemma {:induction false} WalkSound(t: Tree, code: nat -> Bits, p: Bits, out: seq<nat>, bits: Bits)
      returns (s: seq<nat>)
    requires Full(t) && Inner(t, []) && Inner(t, p) && Inverts(t, code)
    requires WalkBits(t, Live(p, out), bits).Live?
    ensures Text(t, code, s)
    ensures WalkBits(t, Live(p, out), bits).out == out + s
    ensures p + bits == Encode(code, s) + WalkBits(t, Live(p, out), bits).path
    decreases |bits|
  {
    hide Full, Inverts, Text, Encode;
    if bits == [] {
      s := [];
      NothingSpelt(t, code);
      assert out + s == out && p + bits == Encode(code, s) + p;
    } else {
      var q, rest := p + [bits[0]], bits[1..];
      var w1 := WalkBit(t, Live(p, out), bits[0]);
      assert p + bits == q + rest;
      StepInside(t, p, bits[0]);
      if w1.Dead? {
        WalkDead(t, out, rest);
      }
      s := WalkSound(t, code, w1.path, w1.out, rest);
      if Term(t, q).Some? {
        assert [] + rest == rest;
        Prepend(t, code, q, s, WalkBits(t, w1, rest).path, rest);
        assert out + [Term(t, q).value] + s == out + ([Term(t, q).value] + s);
        s := [Term(t, q).value] + s;
      }
    }
  }

  // --- the table ---

  /** What the code list contributes to decoding, once its tree is built. */
  ghost predicate Ready(t: Tree, code: nat -> Bits) {
    Full(t) && CodesAtLeast(t, 4) && Inner(t, []) && Inverts(t, code) && forall p :: Padding(p) ==> Inner(t, p)
  }

  lemma GoodIsReady(book: Book)
    requires Good(book)
    ensures Ready(TreeOf(book), Codes(book))
  {
    GoodTree(book);
    GoodInverts(book);
    forall p | Padding(p)
      ensures Inner(TreeOf(book), p)
    {
      PaddingIsInner(book, p);
    }
  }

  const START: Run := Running(0, [], true)

  // The decoder's answer to a whole message.
  function Decoded(table: seq<Row>, ks: seq<Nibble>): Option<seq<nat>>
    requires Closed(table) && |table| > 0
  {
    var r := RunTable(table, START, ks);
    if r.Running? && r.accepted then Some(r.out) else None
  }

  // The codes of s, then zero to seven one bits.
  ghost predicate Spells(code: nat -> Bits, bits: Bits, s: seq<nat>) {
    exists pad: Bits :: Padding(pad) && bits == Encode(code, s) + pad
  }

  lemma DecodedSound(t: Tree, code: nat -> Bits, table: seq<Row>, ks: seq<Nibble>, s: seq<nat>)
    requires Ready(t, code) && IsTable(t, table) && Closed(table) && |table| > 0
    requires Decoded(table, ks) == Some(s)
    ensures Text(t, code, s) && Spells(code, NibbleBits(ks), s)
  {
    var bits := NibbleBits(ks);
    TableIsWalk(t, table, Live([], []), ks);
    var s' := WalkSound(t, code, [], [], bits);
    assert [] + s' == s' && [] + bits == bits;
    assert Padding(WalkBits(t, Live([], []), bits).path);
  }

  lemma DecodedComplete(t: Tree, code: nat -> Bits, table: seq<Row>, ks: seq<Nibble>, s: seq<nat>)
    requires Ready(t, code) && IsTable(t, table) && Closed(table) && |table| > 0
    requires Text(t, code, s) && Spells(code, NibbleBits(ks), s)
    ensures Decoded(table, ks) == Some(s)
  {
    var bits := NibbleBits(ks);
    TableIsWalk(t, table, Live([], []), ks);
    var pad: Bits :| Padding(pad) && bits == Encode(code, s) + pad;
    WalkText(t, code, s, []);
    WalkConcat(t, Live([], []), Encode(code, s), pad);
    assert [] + s == s && [] + pad == pad;
    WalkInside(t, [], pad, s);
  }

  /** The table accepts a nibble string with result s exactly when its bits are the codes of the text s
      followed by zero to seven one bits. */
  lemma AcceptsExactlyTheEncodings(book: Book, table: seq<Row>, ks: seq<Nibble>, s: seq<nat>)
    requires Good(book) && Full(TreeOf(book)) && IsTable(TreeOf(book), table)
    ensures Closed(table) && |table| > 0
    ensures Decoded(table, ks) == Some(s) <==>
            Text(TreeOf(book), Codes(book), s) && Spells(Codes(book), NibbleBits(ks), s)
  {
    var t, code := TreeOf(book), Codes(book);
    GoodIsReady(book);
    TableClosed(t, table);
    if Decoded(table, ks) == Some(s) {
      DecodedSound(t, code, table, ks, s);
    }
    if Text(t, code, s) && Spells(code, NibbleBits(ks), s) {
      DecodedComplete(t, code, table, ks, s);
    }
  }

  // --- whole octets ---

  // The codes of a text, padded with ones to an octet boundary.
  function Padded(code: nat -> Bits, s: seq<nat>): (bits: Bits)
    ensures |bits| % 8 == 0 && |bits| % 4 == 0
  {
    var bits := Encode(code, s);
    bits + Ones(PadLength(|bits|))
  }

  lemma {:induction false} WholeOctets(n: nat, octets: nat)
    requires n == 8 * octets
    ensures n % 8 == 0 && n % 4 == 0
    decreases octets
  {
    if octets > 0 {
      WholeOctets(n - 8, octets - 1);
    }
  }

  // The ones needed to reach an octet boundary.
  function PadLength(n: nat): (k: nat)
    ensures k <= 7 && (n + k) % 8 == 0 && (n + k) % 4 == 0
  {
    var k := if n % 8 == 0 then 0 else 8 - n % 8;
    WholeOctets(n + k, if k == 0 then n / 8 else n / 8 + 1);
    k
  }

  lemma Sixteen()
    ensures Pow2(4) == 16
  {
  }

  function ToNibbles(bits: Bits): (ks: seq<Nibble>)
    requires |bits| % 4 == 0
  {
    if bits == [] then [] else Sixteen(); [Value(bits[..4])] + ToNibbles(bits[4..])
  }

  lemma {:induction false} NibblesKeepBits(bits: Bits)
    requires |bits| % 4 == 0
    ensures NibbleBits(ToNibbles(bits)) == bits
  {
    if bits != [] {
      Sixteen();
      BitsOfValue(bits[..4]);
      NibblesKeepBits(bits[4..]);
      assert ToNibbles(bits)[1..] == ToNibbles(bits[4..]);
    }
  }

  ghost predicate HasSym(book: Book, s: nat) {
    exists j :: 0 <= j < |book| && book[j].sym == s
  }

  ghost predicate Covers(book: Book, s: seq<nat>) {
    forall i :: 0 <= i < |s| ==> s[i] != EOS && HasSym(book, s[i])
  }

  // Every octet and EOS have a code, as in Appendix B of RFC 7541.
  ghost predicate AllSymbols(book: Book) {
    forall s: nat :: s <= 256 ==> HasSym(book, s)
  }

  lemma CoveredText(book: Book, s: seq<nat>)
    requires Good(book) && Covers(book, s)
    ensures Text(TreeOf(book), Codes(book), s)
  {
    forall i | 0 <= i < |s|
      ensures Term(TreeOf(book), Codes(book)(s[i])) == Some(s[i])
    {
      var j :| 0 <= j < |book| && book[j].sym == s[i];
      assert book[j] == Code(s[i], book[j].bits);
      TermIsCode(book, book[j].bits, s[i]);
    }
  }

  lemma PaddedSpells(code: nat -> Bits, s: seq<nat>)
    ensures NibbleBits(ToNibbles(Padded(code, s))) == Padded(code, s)
    ensures Spells(code, Padded(code, s), s)
  {
    NibblesKeepBits(Padded(code, s));
    var pad := Ones(PadLength(|Encode(code, s)|));
    assert Padding(pad) && Padded(code, s) == Encode(code, s) + pad;
  }

  lemma PaddedDecodes(t: Tree, code: nat -> Bits, table: seq<Row>, s: seq<nat>)
    requires Ready(t, code) && IsTable(t, table) && Closed(table) && |table| > 0
    requires Text(t, code, s)
    ensures Decoded(table, ToNibbles(Padded(code, s))) == Some(s)
  {
    PaddedSpells(code, s);
    DecodedComplete(t, code, table, ToNibbles(Padded(code, s)), s);
  }

  /** Encoding any string of octet symbols, padding it to whole octets and decoding it gives it back. */
  lemma RoundTrip(book: Book, table: seq<Row>, s: seq<nat>)
    requires Good(book) && Full(TreeOf(book)) && IsTable(TreeOf(book), table)
    requires Covers(book, s)
    ensures Closed(table) && |table| > 0
    ensures Decoded(table, ToNibbles(Padded(Codes(book), s))) == Some(s)
  {
    GoodIsReady(book);
    CoveredText(book, s);
    TableClosed(TreeOf(book), table);
    PaddedDecodes(TreeOf(book), Codes(book), table, s);
  }
}
