/** Node numbering, the nibble table of mkhufftbl.py as a value, and its agreement with a bit-by-bit walk. */
module HuffmanTable {
  import opened Wrappers
  import opened BitStrings
  import opened HuffmanTree

  const EOS: nat := 256

  // --- numbering: inner positions in the order node, left, right ---

  function Count(t: Tree): nat {
    if t.Nil? || t.term.Some? then 0 else 1 + Count(t.left) + Count(t.right)
  }

  function Terms(t: Tree): nat {
    if t.Nil? then 0 else (if t.term.Some? then 1 else 0) + Terms(t.left) + Terms(t.right)
  }

  // How many inner positions come before p in that order; for an inner p, its number.
  function Index(t: Tree, p: Bits): nat
    requires Full(t) && Has(t, p)
  {
    if p == [] then 0
    else
      PresentChild(t, p);
      Offset(t, p[0]) + Index(Child(t, p[0]), p[1..])
  }

  // How many inner positions come before those under a child.
  function Offset(t: Tree, b: bool): nat
    requires t.Node?
  {
    if b then 1 + Count(t.left) else 1
  }

  lemma PresentChild(t: Tree, p: Bits)
    requires Full(t) && Has(t, p) && p != []
    ensures t.term.None? && Full(Child(t, p[0])) && At(t, p) == At(Child(t, p[0]), p[1..])
  {
    assert At(t, p) == At(Child(t, p[0]), p[1..]);
  }

  lemma {:induction false} IndexStep(t: Tree, p: Bits, b: bool)
    requires Full(t) && Inner(t, p)
    ensures Full(At(t, p)) && Has(t, p + [b])
    ensures Index(t, p + [b]) == Index(t, p) + Offset(At(t, p), b)
  {
    if p == [] {
      assert p + [b] == [b];
      assert At(t, [b]) == At(Child(t, b), []);
      assert Index(Child(t, b), []) == 0;
    } else {
      PresentChild(t, p);
      assert (p + [b])[1..] == p[1..] + [b];
      IndexStep(Child(t, p[0]), p[1..], b);
    }
  }

  function Under(b: bool, ps: seq<Bits>): (r: seq<Bits>)
    ensures |r| == |ps| && forall i :: 0 <= i < |ps| ==> r[i] == [b] + ps[i]
  {
    seq(|ps|, i requires 0 <= i < |ps| => [b] + ps[i])
  }

  // All inner positions in the order node, left, right.
  function Preorder(t: Tree): (ps: seq<Bits>)
    ensures |ps| == Count(t)
  {
    if t.Nil? || t.term.Some? then []
    else [[]] + Under(false, Preorder(t.left)) + Under(true, Preorder(t.right))
  }

  lemma InnerPreorder(t: Tree)
    requires t.Node? && t.term.None?
    ensures Preorder(t) == [[]] + Under(false, Preorder(t.left)) + Under(true, Preorder(t.right))
    ensures Count(t) == 1 + Count(t.left) + Count(t.right)
  {
  }

  lemma Parts<T>(a: T, b: seq<T>, c: seq<T>, i: nat)
    ensures i < |b| ==> ([a] + b + c)[1 + i] == b[i]
    ensures i < |c| ==> ([a] + b + c)[1 + |b| + i] == c[i]
  {
  }

  lemma PreorderChild(t: Tree, b: bool, i: nat)
    requires t.Node? && t.term.None? && i < Count(Child(t, b))
    ensures Offset(t, b) + i < Count(t)
    ensures Preorder(t)[Offset(t, b) + i] == [b] + Preorder(Child(t, b))[i]
  {
    hide Preorder, Count;
    InnerPreorder(t);
    Parts([], Under(false, Preorder(t.left)), Under(true, Preorder(t.right)), i);
  }

  lemma PreorderRoot(t: Tree)
    requires t.Node? && t.term.None?
    ensures |Preorder(t)| > 0 && Preorder(t)[0] == []
  {
  }

  lemma {:induction false} IndexInverse(t: Tree, p: Bits)
    requires Full(t) && Inner(t, p)
    ensures Index(t, p) < Count(t)
    ensures Preorder(t)[Index(t, p)] == p
  {
    hide Preorder;
    if p == [] {
      PreorderRoot(t);
    } else {
      PresentChild(t, p);
      IndexInverse(Child(t, p[0]), p[1..]);
      PreorderChild(t, p[0], Index(Child(t, p[0]), p[1..]));
      assert p == [p[0]] + p[1..];
    }
  }

  lemma {:induction false} PreorderInverse(t: Tree, i: nat)
    requires Full(t) && i < Count(t)
    ensures Inner(t, Preorder(t)[i])
    ensures Index(t, Preorder(t)[i]) == i
  {
    hide Preorder;
    if i == 0 {
      PreorderRoot(t);
    } else {
      var b := i > Count(t.left);
      var j := i - Offset(t, b);
      PreorderInverse(Child(t, b), j);
      PreorderChild(t, b, j);
      var p, q := Preorder(t)[i], Preorder(Child(t, b))[j];
      assert p[0] == b && p[1..] == q;
      assert At(t, p) == At(Child(t, b), q);
    }
  }

  lemma {:induction false} FullCount(t: Tree)
    requires Full(t)
    ensures Terms(t) == Count(t) + 1
  {
    if t.term.None? {
      FullCount(t.left);
      FullCount(t.right);
    }
  }

  lemma {:induction false} InsertTerms(t: Tree, sym: nat, bits: Bits)
    requires t.Node?
    ensures Terms(Insert(t, sym, bits)) == Terms(t) + if Term(t, bits).Some? then 0 else 1
    decreases bits
  {
    if bits != [] {
      var c := Child(t, bits[0]);
      InsertTerms(if c.Nil? then BARE else c, sym, bits[1..]);
      BareAt(bits[1..]);
      assert At(t, bits) == At(c, bits[1..]);
    }
  }

  lemma {:induction false} TreeOfTerms(book: Book)
    requires PrefixFree(book)
    ensures Terms(TreeOf(book)) == |book|
  {
    if book != [] {
      var front, last := book[..|book| - 1], book[|book| - 1];
      FrontPrefixFree(book);
      TreeOfTerms(front);
      TreeOfTerm(front, last.bits);
      forall i | 0 <= i < |front|
        ensures front[i].bits != last.bits
      {
        assert !(book[i].bits <= last.bits);
      }
      InsertTerms(TreeOf(front), last.sym, last.bits);
    }
  }

  /** A complete code of n + 1 symbols has exactly n inner nodes, numbered one to one by 0..n-1. */
  lemma Numbering(book: Book)
    requires PrefixFree(book) && Complete(book)
    ensures Full(TreeOf(book)) && Count(TreeOf(book)) == |book| - 1
    ensures forall p :: Inner(TreeOf(book), p) ==>
      Index(TreeOf(book), p) < |book| - 1 && Preorder(TreeOf(book))[Index(TreeOf(book), p)] == p
    ensures forall i :: 0 <= i < |book| - 1 ==>
      Inner(TreeOf(book), Preorder(TreeOf(book))[i]) && Index(TreeOf(book), Preorder(TreeOf(book))[i]) == i
  {
    var t := TreeOf(book);
    FullTree(book);
    FullCount(t);
    TreeOfTerms(book);
    forall p | Inner(t, p)
      ensures Index(t, p) < |book| - 1 && Preorder(t)[Index(t, p)] == p
    {
      IndexInverse(t, p);
    }
    forall i | 0 <= i < |book| - 1
      ensures Inner(t, Preorder(t)[i]) && Index(t, Preorder(t)[i]) == i
    {
      PreorderInverse(t, i);
    }
  }

  // --- one table row ---

  // A finished four-bit traversal: None when it fails, otherwise the node reached and the symbol completed.
  datatype Hop = Fail | Goto(path: Bits, sym: Option<nat>)

  function Reset(t: Tree, p: Bits): Bits {
    if Term(t, p).Some? then [] else p
  }

  function Seen(t: Tree, p: Bits, sym: Option<nat>): Option<nat> {
    if Term(t, p).Some? then Term(t, p) else sym
  }

  function Finish(p: Bits, sym: Option<nat>): Hop {
    if sym == Some(EOS) then Fail else Goto(p, sym)
  }

  // Both children in turn, `left` levels deep: the traversals in the order of their bit strings.
  function Hops(t: Tree, p: Bits, sym: Option<nat>, left: nat): (hs: seq<Hop>)
    ensures |hs| == Pow2(left)
    decreases left, p
  {
    if left == 0 then [Finish(p, sym)]
    else
      var q := Reset(t, p);
      Hops(t, q + [false], Seen(t, q + [false], sym), left - 1) +
      Hops(t, q + [true], Seen(t, q + [true], sym), left - 1)
  }

  // The single traversal along given bits.
  function HopAlong(t: Tree, p: Bits, sym: Option<nat>, bits: Bits): Hop
    decreases |bits|
  {
    if bits == [] then Finish(p, sym)
    else
      var q := Reset(t, p) + [bits[0]];
      HopAlong(t, q, Seen(t, q, sym), bits[1..])
  }

  lemma {:induction false} HopsInOrder(t: Tree, p: Bits, sym: Option<nat>, left: nat, k: nat)
    requires k < Pow2(left)
    ensures Hops(t, p, sym, left)[k] == HopAlong(t, p, sym, BitsOf(k, left))
    decreases left
  {
    if left > 0 {
      var half, q := Pow2(left - 1), Reset(t, p);
      var b := k >= half;
      HalfBit(k, half);
      HopsInOrder(t, q + [b], Seen(t, q + [b], sym), left - 1, k % half);
      assert BitsOf(k, left)[1..] == BitsOf(k % half, left - 1);
    }
  }

  // --- the emitted table ---

  const ACCEPTED: bv8 := 1
  const SYM: bv8 := 2
  const FAIL: bv8 := 4

  datatype Entry = Entry(state: nat, flags: bv8, sym: nat)

  type Row = seq<Entry>

  // Positions whose bits may stand as padding: a most significant part of EOS below one octet.
  predicate Padding(p: Bits) {
    |p| <= 7 && AllOnes(p)
  }

  function EntryOf(t: Tree, h: Hop): Entry
    requires Full(t)
  {
    var flags: bv8 := if h.Goto? && h.sym.Some? then SYM else 0;
    var out := if h.Goto? && h.sym.Some? then h.sym.value else 0;
    if h.Fail? then Entry(0, flags | FAIL, out)
    else if Inner(t, h.path) then
      Entry(Index(t, h.path), if Padding(h.path) then flags | ACCEPTED else flags, out)
    else Entry(0, flags | ACCEPTED, out)
  }

  // The row of position p: entry k is the traversal along the four bits of k.
  function RowOf(t: Tree, p: Bits): (row: Row)
    requires Full(t)
    ensures |row| == 16 && forall k :: 0 <= k < 16 ==> row[k] == EntryOf(t, HopAlong(t, p, None, BitsOf(k, 4)))
  {
    seq(16, k requires 0 <= k => EntryOf(t, HopAlong(t, p, None, BitsOf(k, 4))))
  }

  /** Row i belongs to the node numbered i. */
  ghost predicate IsTable(t: Tree, table: seq<Row>)
    requires Full(t)
  {
    |table| == Count(t) && forall i :: 0 <= i < |table| ==> table[i] == RowOf(t, Preorder(t)[i])
  }

  // --- the walk one bit at a time ---

  datatype Walk = Live(path: Bits, out: seq<nat>) | Dead(out: seq<nat>)

  // Move down by b; at a code end emit its symbol and return to the root, or fail on EOS.
  function WalkBit(t: Tree, w: Walk, b: bool): Walk {
    if w.Dead? then w
    else
      var q := w.path + [b];
      match Term(t, q)
      case None => Live(q, w.out)
      case Some(s) => if s == EOS then Dead(w.out) else Live([], w.out + [s])
  }

  function WalkBits(t: Tree, w: Walk, bits: Bits): Walk
    decreases |bits|
  {
    if bits == [] then w else WalkBits(t, WalkBit(t, w, bits[0]), bits[1..])
  }

  lemma {:induction false} WalkConcat(t: Tree, w: Walk, a: Bits, b: Bits)
    ensures WalkBits(t, w, a + b) == WalkBits(t, WalkBits(t, w, a), b)
    decreases |a|
  {
    if a == [] {
      assert a + b == b;
    } else {
      assert (a + b)[1..] == a[1..] + b;
      WalkConcat(t, WalkBit(t, w, a[0]), a[1..], b);
    }
  }

  lemma {:induction false} WalkDead(t: Tree, out: seq<nat>, bits: Bits)
    ensures WalkBits(t, Dead(out), bits) == Dead(out)
    decreases |bits|
  {
    if bits != [] {
      WalkDead(t, out, bits[1..]);
    }
  }

  lemma StepInside(t: Tree, p: Bits, b: bool)
    requires Full(t) && Inner(t, p)
    ensures Has(t, p + [b])
  {
    FullAt(t, p);
    AtStep(t, p, b);
  }

  // --- a nibble never completes two symbols ---

  ghost predicate CodesAtLeast(t: Tree, n: nat) {
    forall p :: |p| < n ==> Term(t, p).None?
  }

  lemma LongCodes(book: Book)
    requires PrefixFree(book) && forall i :: 0 <= i < |book| ==> |book[i].bits| >= 4
    ensures CodesAtLeast(TreeOf(book), 4) && Inner(TreeOf(book), [])
  {
    forall p: Bits | |p| < 4
      ensures Term(TreeOf(book), p).None?
    {
      TreeOfTerm(book, p);
    }
  }

  // With a symbol already completed, too few bits remain to reach another code end.
  predicate OneSymbol(t: Tree, p: Bits, sym: Option<nat>, left: nat) {
    sym.Some? ==> |Reset(t, p)| + left < 4
  }

  function Emitted(sym: Option<nat>): seq<nat> {
    if sym.Some? then [sym.value] else []
  }

  function Landed(t: Tree, out: seq<nat>, h: Hop): Walk {
    if h.Fail? then Dead(out) else Live(Reset(t, h.path), out + Emitted(h.sym))
  }

  lemma NextSymbol(t: Tree, p: Bits, b: bool, sym: Option<nat>, left: nat)
    requires CodesAtLeast(t, 4)
    requires 0 < left <= 4 && OneSymbol(t, p, sym, left)
    ensures var q := Reset(t, p) + [b];
            (Term(t, q).Some? ==> sym.None?) && OneSymbol(t, q, Seen(t, q, sym), left - 1)
  {
  }

  // The traversal of a row agrees with the bit walk, from any point inside a nibble.
  lemma {:induction false} HopIsWalk(t: Tree, p: Bits, sym: Option<nat>, bits: Bits, out: seq<nat>)
    requires Full(t) && CodesAtLeast(t, 4) && Has(t, p) && |bits| <= 4
    requires OneSymbol(t, p, sym, |bits|)
    ensures var h := HopAlong(t, p, sym, bits);
            (h.Goto? ==> Has(t, h.path)) &&
            WalkBits(t, Landed(t, out, Finish(p, sym)), bits) == Landed(t, out, h)
    decreases |bits|
  {
    if bits != [] {
      var b, r := bits[0], Reset(t, p);
      var q := r + [b];
      assert CodesAtLeast(t, 4) && Term(t, []).None?;
      StepInside(t, r, b);
      NextSymbol(t, p, b, sym, |bits|);
      HopIsWalk(t, q, Seen(t, q, sym), bits[1..], out);
      var w := Landed(t, out, Finish(p, sym));
      if w.Live? {
        assert sym.None? ==> out + Emitted(sym) == out;
        assert Landed(t, out, Finish(q, Seen(t, q, sym))) == WalkBit(t, w, b);
      }
    }
  }

  // --- running the table ---

  type Nibble = k: nat | k < 16

  datatype Run = Running(state: nat, out: seq<nat>, accepted: bool) | Failed(out: seq<nat>)

  ghost predicate Closed(table: seq<Row>) {
    forall i :: 0 <= i < |table| ==>
      |table[i]| == 16 && forall k :: 0 <= k < 16 ==> table[i][k].state < |table|
  }

  ghost predicate Inside(table: seq<Row>, r: Run) {
    r.Running? ==> r.state < |table|
  }

  function ApplyEntry(e: Entry, out: seq<nat>): Run {
    if e.flags & FAIL != 0 then Failed(out)
    else Running(e.state, out + (if e.flags & SYM != 0 then [e.sym] else []), e.flags & ACCEPTED != 0)
  }

  function RunNibble(table: seq<Row>, r: Run, k: Nibble): Run
    requires Closed(table) && Inside(table, r)
    ensures Inside(table, RunNibble(table, r, k))
  {
    if r.Failed? then r else ApplyEntry(table[r.state][k], r.out)
  }

  function RunTable(table: seq<Row>, r: Run, ks: seq<Nibble>): Run
    requires Closed(table) && Inside(table, r)
    ensures Inside(table, RunTable(table, r, ks))
    decreases |ks|
  {
    if ks == [] then r else RunTable(table, RunNibble(table, r, ks[0]), ks[1..])
  }

  function NibbleBits(ks: seq<Nibble>): Bits {
    if ks == [] then [] else BitsOf(ks[0], 4) + NibbleBits(ks[1..])
  }

  /** The generated table only names its own rows. */
  lemma TableClosed(t: Tree, table: seq<Row>)
    requires Full(t) && Inner(t, []) && IsTable(t, table)
    ensures Closed(table) && |table| > 0
  {
    forall i, k | 0 <= i < |table| && 0 <= k < 16
      ensures |table[i]| == 16 && table[i][k].state < |table|
    {
      assert table[i] == RowOf(t, Preorder(t)[i]);
      var h := HopAlong(t, Preorder(t)[i], None, BitsOf(k, 4));
      assert table[i][k] == EntryOf(t, h);
      if h.Goto? && Inner(t, h.path) {
        IndexInverse(t, h.path);
      }
    }
  }

  // The table state that stands for a walk.
  function Encoded(t: Tree, w: Walk): Run
    requires Full(t) && (w.Live? ==> Inner(t, w.path))
  {
    if w.Dead? then Failed(w.out) else Running(Index(t, w.path), w.out, Padding(w.path))
  }

  // Entry k of a row, applied to the state of its node, is the walk over the bits of k.
  lemma RowStep(t: Tree, p: Bits, out: seq<nat>, k: Nibble)
    requires Full(t) && CodesAtLeast(t, 4) && Inner(t, p) && Inner(t, [])
    ensures var w := WalkBits(t, Live(p, out), BitsOf(k, 4));
            (w.Live? ==> Inner(t, w.path)) && ApplyEntry(RowOf(t, p)[k], out) == Encoded(t, w)
  {
    var h := HopAlong(t, p, None, BitsOf(k, 4));
    HopIsWalk(t, p, None, BitsOf(k, 4), out);
    assert Landed(t, out, Finish(p, None)) == Live(p, out) by { assert out + [] == out; }
    assert RowOf(t, p)[k] == EntryOf(t, h);
  }

  lemma NibbleStep(t: Tree, table: seq<Row>, w: Walk, k: Nibble)
    requires Full(t) && CodesAtLeast(t, 4) && Inner(t, []) && IsTable(t, table) && Closed(table)
    requires w.Live? ==> Inner(t, w.path)
    ensures var w' := WalkBits(t, w, BitsOf(k, 4));
            (w'.Live? ==> Inner(t, w'.path)) &&
            Inside(table, Encoded(t, w)) &&
            RunNibble(table, Encoded(t, w), k) == Encoded(t, w')
  {
    if w.Dead? {
      WalkDead(t, w.out, BitsOf(k, 4));
    } else {
      IndexInverse(t, w.path);
      RowStep(t, w.path, w.out, k);
    }
  }

  /** For every nibble string the table is exactly the bit-by-bit walk: same symbols, same failure,
      same resting node, and its last flag tells whether the unfinished bits may be padding. */
  lemma {:induction false} TableIsWalk(t: Tree, table: seq<Row>, w: Walk, ks: seq<Nibble>)
    requires Full(t) && CodesAtLeast(t, 4) && Inner(t, []) && IsTable(t, table) && Closed(table)
    requires w.Live? ==> Inner(t, w.path)
    ensures var w' := WalkBits(t, w, NibbleBits(ks));
            (w'.Live? ==> Inner(t, w'.path)) &&
            Inside(table, Encoded(t, w)) &&
            RunTable(table, Encoded(t, w), ks) == Encoded(t, w')
    decreases |ks|
  {
    if ks == [] {
      if w.Live? {
        IndexInverse(t, w.path);
      }
    } else {
      NibbleStep(t, table, w, ks[0]);
      var w1 := WalkBits(t, w, BitsOf(ks[0], 4));
      TableIsWalk(t, table, w1, ks[1..]);
      WalkConcat(t, w, BitsOf(ks[0], 4), NibbleBits(ks[1..]));
    }
  }
}
