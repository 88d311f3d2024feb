/** The code tree of mkhufftbl.py as a value, and what inserting a code list into it yields. */
module HuffmanTree {
  import opened Wrappers
  import opened BitStrings

  // In a code or a position of the tree, false is '0' (left) and true is '1' (right).
  datatype Code = Code(sym: nat, bits: Bits)

  type Book = seq<Code>

  // Nil is a missing child; `term` is the symbol of a node that ends a code.
  datatype Tree = Nil | Node(term: Option<nat>, left: Tree, right: Tree)

  const BARE: Tree := Node(None, Nil, Nil)

  function Child(t: Tree, b: bool): Tree
    requires t.Node?
  {
    if b then t.right else t.left
  }

  // The subtree reached from the root of t along p, Nil when p leaves the tree.
  function At(t: Tree, p: Bits): Tree {
    if p == [] || t.Nil? then t else At(Child(t, p[0]), p[1..])
  }

  predicate Has(t: Tree, p: Bits) {
    At(t, p).Node?
  }

  function Term(t: Tree, p: Bits): Option<nat> {
    if Has(t, p) then At(t, p).term else None
  }

  // A position that still waits for bits: present, and no code ends there.
  predicate Inner(t: Tree, p: Bits) {
    Has(t, p) && Term(t, p).None?
  }

  function Insert(t: Tree, sym: nat, bits: Bits): Tree
    requires t.Node?
    ensures Insert(t, sym, bits).Node?
    decreases bits
  {
    if bits == [] then
      t.(term := Some(sym))
    else
      var c := Child(t, bits[0]);
      var c' := Insert(if c.Nil? then BARE else c, sym, bits[1..]);
      if bits[0] then t.(right := c') else t.(left := c')
  }

  function TreeOf(book: Book): Tree
    ensures TreeOf(book).Node?
  {
    if book == [] then BARE
    else Insert(TreeOf(book[..|book| - 1]), book[|book| - 1].sym, book[|book| - 1].bits)
  }

  /** Every present node either ends a code and is childless, or has both children. */
  predicate Full(t: Tree) {
    t.Node? && (if t.term.Some? then t.left.Nil? && t.right.Nil? else Full(t.left) && Full(t.right))
  }

  // --- positions ---

  lemma {:induction false} AtConcat(t: Tree, p: Bits, q: Bits)
    ensures At(t, p + q) == At(At(t, p), q)
  {
    if p == [] {
      assert p + q == q;
    } else if t.Node? {
      assert (p + q)[1..] == p[1..] + q;
      AtConcat(Child(t, p[0]), p[1..], q);
    }
  }

  lemma AtStep(t: Tree, p: Bits, b: bool)
    ensures At(t, p + [b]) == if Has(t, p) then Child(At(t, p), b) else Nil
  {
    AtConcat(t, p, [b]);
    if Has(t, p) {
      assert At(At(t, p), [b]) == At(Child(At(t, p), b), []);
    }
  }

  // --- insertion ---

  lemma {:induction false} InsertHas(t: Tree, sym: nat, bits: Bits, p: Bits)
    requires t.Node?
    ensures Has(Insert(t, sym, bits), p) <==> Has(t, p) || p <= bits
    ensures Term(Insert(t, sym, bits), p) == if p == bits then Some(sym) else Term(t, p)
    decreases bits
  {
    var t' := Insert(t, sym, bits);
    if p != [] && bits != [] {
      assert p == [p[0]] + p[1..] && bits == [bits[0]] + bits[1..];
      assert At(t', p) == At(Child(t', p[0]), p[1..]);
      if p[0] == bits[0] {
        var c := Child(t, bits[0]);
        var base := if c.Nil? then BARE else c;
        InsertHas(base, sym, bits[1..], p[1..]);
        assert Child(t', p[0]) == Insert(base, sym, bits[1..]);
        assert At(t, p) == At(c, p[1..]);
        BareAt(p[1..]);
        assert p <= bits <==> p[1..] <= bits[1..];
      }
    }
  }

  lemma BareAt(p: Bits)
    ensures Has(BARE, p) <==> p == []
    ensures Term(BARE, p) == None
  {
    if p != [] {
      assert At(BARE, p) == At(Nil, p[1..]);
    }
  }

  lemma {:induction false} TreeOfHas(book: Book, p: Bits)
    ensures Has(TreeOf(book), p) <==> p == [] || exists i :: 0 <= i < |book| && p <= book[i].bits
  {
    if book == [] {
      BareAt(p);
    } else {
      var front, last := book[..|book| - 1], book[|book| - 1];
      TreeOfHas(front, p);
      InsertHas(TreeOf(front), last.sym, last.bits, p);
      if p != [] && Has(TreeOf(front), p) {
        var i :| 0 <= i < |front| && p <= front[i].bits;
        assert p <= book[i].bits;
      } else if exists i :: 0 <= i < |book| && p <= book[i].bits {
        var i :| 0 <= i < |book| && p <= book[i].bits;
        assert i < |front| ==> front[i] == book[i];
      }
    }
  }

  lemma {:induction false} TreeOfTerm(book: Book, p: Bits)
    requires PrefixFree(book)
    ensures Term(TreeOf(book), p).None? <==> forall i :: 0 <= i < |book| ==> book[i].bits != p
    ensures forall i :: 0 <= i < |book| && book[i].bits == p ==> Term(TreeOf(book), p) == Some(book[i].sym)
  {
    if book == [] {
      BareAt(p);
    } else {
      var front, last := book[..|book| - 1], book[|book| - 1];
      FrontPrefixFree(book);
      TreeOfTerm(front, p);
      InsertHas(TreeOf(front), last.sym, last.bits, p);
      forall i | 0 <= i < |book|
        ensures book[i].bits == p ==> Term(TreeOf(book), p) == Some(book[i].sym)
      {
        if i < |front| {
          assert front[i] == book[i];
          assert !(book[i].bits <= last.bits);
        }
      }
      assert Term(TreeOf(book), p).None? ==> forall i :: 0 <= i < |book| ==> book[i].bits != p;
      if forall i :: 0 <= i < |book| ==> book[i].bits != p {
        assert forall i :: 0 <= i < |front| ==> front[i] == book[i];
      }
    }
  }

  // --- code lists ---

  /** No code is a prefix of another one. */
  ghost predicate PrefixFree(book: Book) {
    forall i, j :: 0 <= i < |book| && 0 <= j < |book| && i != j ==> !(book[i].bits <= book[j].bits)
  }

  lemma FrontPrefixFree(book: Book)
    requires book != [] && PrefixFree(book)
    ensures PrefixFree(book[..|book| - 1])
  {
  }

  ghost predicate Meets(book: Book, w: Bits) {
    exists i :: 0 <= i < |book| && (book[i].bits <= w || w <= book[i].bits)
  }

  /** Every bit string runs into some code: no string can be added without a conflict. */
  ghost predicate Complete(book: Book) {
    forall w: Bits :: Meets(book, w)
  }

  // Two comparable codes of a prefix-free list are the same entry.
  lemma SameEntry(book: Book, i: nat, j: nat, p: Bits)
    requires PrefixFree(book) && i < |book| && j < |book|
    requires book[i].bits <= p <= book[j].bits
    ensures i == j
  {
    assert book[i].bits <= book[j].bits;
  }

  lemma Extendable(book: Book, p: Bits, b: bool)
    requires PrefixFree(book) && Complete(book)
    requires Inner(TreeOf(book), p)
    ensures Has(TreeOf(book), p + [b])
  {
    var q := p + [b];
    TreeOfHas(book, p);
    TreeOfTerm(book, p);
    TreeOfHas(book, q);
    assert Meets(book, q);
    var j: nat :| j < |book| && (book[j].bits <= q || q <= book[j].bits);
    if !(q <= book[j].bits) {
      assert book[j].bits <= p by {
        assert |book[j].bits| <= |p| && q[..|p|] == p;
      }
      if p != [] {
        var i: nat :| i < |book| && p <= book[i].bits;
        SameEntry(book, j, i, p);
      }
    }
  }

  lemma NoExtension(book: Book, p: Bits, b: bool)
    requires PrefixFree(book)
    requires Term(TreeOf(book), p).Some?
    ensures !Has(TreeOf(book), p + [b])
  {
    TreeOfTerm(book, p);
    TreeOfHas(book, p + [b]);
    var j: nat :| j < |book| && book[j].bits == p;
    forall i: nat | i < |book|
      ensures !(p + [b] <= book[i].bits)
    {
      if p + [b] <= book[i].bits {
        SameEntry(book, j, i, p);
      }
    }
  }

  lemma {:induction false} FullBelow(book: Book, p: Bits)
    requires PrefixFree(book) && Complete(book)
    requires Has(TreeOf(book), p)
    ensures Full(At(TreeOf(book), p))
    decreases At(TreeOf(book), p)
  {
    var t := TreeOf(book);
    AtStep(t, p, false);
    AtStep(t, p, true);
    if Term(t, p).None? {
      Extendable(book, p, false);
      Extendable(book, p, true);
      FullBelow(book, p + [false]);
      FullBelow(book, p + [true]);
    } else {
      NoExtension(book, p, false);
      NoExtension(book, p, true);
    }
  }

  /** A complete prefix-free code list builds a tree with no dangling branch. */
  lemma FullTree(book: Book)
    requires PrefixFree(book) && Complete(book)
    ensures Full(TreeOf(book))
  {
    FullBelow(book, []);
  }

  lemma {:induction false} FullAt(t: Tree, p: Bits)
    requires Full(t) && Has(t, p)
    ensures Full(At(t, p))
  {
    if p != [] {
      assert At(t, p) == At(Child(t, p[0]), p[1..]);
      assert t.term.None?;
      FullAt(Child(t, p[0]), p[1..]);
    }
  }

  // Above a present position the walk has not ended a code yet.
  lemma InnerAbove(t: Tree, q: Bits, rest: Bits)
    requires Full(t) && Has(t, q + rest) && rest != []
    ensures Inner(t, q)
  {
    AtConcat(t, q, rest);
    FullAt(t, q);
  }
}
