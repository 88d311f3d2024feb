/** mkhufftbl.py itself: nodes linked in the heap, updated in place, and the table it prints. */
module HuffmanCompiler {
  import opened Wrappers
  import opened BitStrings
  import opened HuffmanTree
  import opened HuffmanTable

  class Node {
    var term: Option<nat>
    var left: Node?
    var right: Node?
    var trans: seq<(Node?, Option<nat>)>
    var id: Option<nat>
    var accept: bool

    constructor ()
      ensures term == None && left == null && right == null && trans == [] && id == None && !accept
    {
      term, left, right, trans, id, accept := None, null, null, [], None, false;
    }
  }

  class Context {
    var nextId: nat
    var root: Node

    constructor ()
      ensures nextId == 0 && fresh(root)
      ensures root.term == None && root.left == null && root.right == null
      ensures root.trans == [] && root.id == None && !root.accept
    {
      nextId := 0;
      root := new Node();
    }

    method NextId() returns (id: nat)
      modifies this`nextId
      ensures id == old(nextId) && nextId == old(nextId) + 1
    {
      id := nextId;
      nextId := nextId + 1;
    }
  }

  // The nodes of a tree by their positions.
  type Nodes = map<Bits, Node>

  ghost function Ref(ns: Nodes, p: Bits): Node? {
    if p in ns then ns[p] else null
  }

  /** ns names every node of a tree once, and child links follow the positions. */
  ghost predicate Linked(ns: Nodes)
    reads ns.Values`left, ns.Values`right
  {
    && (forall p {:trigger ns[p].left} :: p in ns ==> ns[p].left == Ref(ns, p + [false]))
    && (forall p {:trigger ns[p].right} :: p in ns ==> ns[p].right == Ref(ns, p + [true]))
    && (forall p, b :: p + [b] in ns ==> p in ns)
    && (forall p, q :: p in ns && q in ns && ns[p] == ns[q] ==> p == q)
  }

  /** The linked nodes are exactly those of t, with its terms. */
  ghost predicate Carries(ns: Nodes, t: Tree)
    reads ns.Values`term
  {
    IsShape(TermMap(ns), t)
  }

  ghost predicate IsShape(m: map<Bits, Option<nat>>, t: Tree) {
    forall p :: (p in m <==> Has(t, p)) && (p in m ==> m[p] == Term(t, p))
  }

  ghost predicate Pristine(ns: Nodes)
    reads ns.Values`trans, ns.Values`id, ns.Values`accept
  {
    forall p :: p in ns ==> ns[p].trans == [] && ns[p].id == None && !ns[p].accept
  }

  lemma SnocInjective(p: Bits, a: bool, q: Bits, b: bool)
    requires p + [a] == q + [b]
    ensures p == q && a == b
  {
    assert (p + [a])[..|p|] == p && (q + [b])[..|q|] == q;
    assert (p + [a])[|p|] == a && (q + [b])[|q|] == b;
  }

  ghost function TermMap(ns: Nodes): map<Bits, Option<nat>>
    reads ns.Values`term
  {
    map p | p in ns :: ns[p].term
  }

  // The term map after a code is written below path.
  function Grow(m: map<Bits, Option<nat>>, path: Bits, sym: nat, bits: Bits): map<Bits, Option<nat>>
    decreases |bits|
  {
    if bits == [] then m[path := Some(sym)]
    else
      var q := path + [bits[0]];
      Grow(if q in m then m else m[q := None], q, sym, bits[1..])
  }

  // Nodes were only added.
  ghost predicate Keeps(ns: Nodes, ns': Nodes) {
    forall p :: p in ns ==> p in ns' && ns'[p] == ns[p]
  }

  // The child of a node along b, linked in first if it is missing.
  method ChildOrNew(node: Node, b: bool, ghost ns: Nodes, ghost path: Bits) returns (child: Node, ghost ns': Nodes)
    requires Linked(ns) && Pristine(ns) && path in ns && ns[path] == node
    modifies node`left, node`right
    ensures Linked(ns') && Pristine(ns') && path + [b] in ns' && ns'[path + [b]] == child
    ensures if path + [b] in ns then ns' == ns else ns' == ns[path + [b] := child] && fresh(child)
    ensures path + [b] !in ns ==> child.term == None
  {
    ns' := ns;
    forall p, a | p + [a] == path + [b]
      ensures p == path && a == b
    {
      SnocInjective(p, a, path, b);
    }
    var next := if b then node.right else node.left;
    if next == null {
      child := new Node();
      ns' := ns[path + [b] := child];
      if b {
        node.right := child;
      } else {
        node.left := child;
      }
    } else {
      child := next;
    }
  }

  // The same, by what it does to the terms.
  method Descend(node: Node, b: bool, ghost ns: Nodes, ghost path: Bits) returns (child: Node, ghost ns': Nodes)
    requires Linked(ns) && Pristine(ns) && path in ns && ns[path] == node
    modifies node`left, node`right
    ensures Linked(ns') && Pristine(ns') && path + [b] in ns' && ns'[path + [b]] == child
    ensures Keeps(ns, ns') && fresh(ns'.Values - ns.Values)
    ensures TermMap(ns') ==
      if path + [b] in ns then old(TermMap(ns)) else old(TermMap(ns))[path + [b] := None]
  {
    hide Linked, Pristine;
    child, ns' := ChildOrNew(node, b, ns, path);
  }

  method SetTerm(node: Node, sym: nat, ghost ns: Nodes, ghost path: Bits)
    requires Linked(ns) && path in ns && ns[path] == node
    modifies node`term
    ensures TermMap(ns) == old(TermMap(ns))[path := Some(sym)]
  {
    node.term := Some(sym);
  }

  method Add(node: Node, sym: nat, bits: Bits, ghost ns: Nodes, ghost path: Bits) returns (ghost ns': Nodes)
    requires Linked(ns) && Pristine(ns) && path in ns && ns[path] == node
    modifies ns.Values`term, ns.Values`left, ns.Values`right
    ensures Linked(ns') && Pristine(ns') && fresh(ns'.Values - ns.Values) && Keeps(ns, ns')
    ensures TermMap(ns') == Grow(old(TermMap(ns)), path, sym, bits)
    decreases |bits|
  {
    hide Linked, Pristine, TermMap;
    ns' := ns;
    if |bits| == 0 {
      SetTerm(node, sym, ns, path);
    } else {
      TermKeys(ns);
      var child;
      child, ns' := Descend(node, bits[0], ns, path);
      ns' := Add(child, sym, bits[1..], ns', path + [bits[0]]);
    }
  }

  lemma TermKeys(ns: Nodes)
    ensures TermMap(ns).Keys == ns.Keys
  {
  }

  lemma {:induction false} GrowAt(m: map<Bits, Option<nat>>, path: Bits, sym: nat, bits: Bits, p: Bits)
    requires path in m
    ensures var m' := Grow(m, path, sym, bits);
            (p in m' <==> p in m || path <= p <= path + bits) &&
            (p in m' ==> m'[p] == if p == path + bits then Some(sym) else if p in m then m[p] else None)
    decreases |bits|
  {
    if bits == [] {
      assert path + bits == path;
      assert path <= p <= path ==> p == path;
    } else {
      var q := path + [bits[0]];
      assert path + bits == q + bits[1..];
      if path <= p <= path + bits {
        BelowChild(path, p);
      }
      GrowAt(if q in m then m else m[q := None], q, sym, bits[1..], p);
    }
  }

  // A position at or below path is path itself or lies below one of its children.
  lemma BelowChild(path: Bits, p: Bits)
    requires path <= p
    ensures p == path || path + [p[|path|]] <= p
    ensures forall b :: path + [b] <= p ==> p != path && p[|path|] == b
  {
  }

  lemma GrowShape(m: map<Bits, Option<nat>>, t: Tree, sym: nat, bits: Bits)
    requires t.Node? && IsShape(m, t)
    ensures IsShape(Grow(m, [], sym, bits), Insert(t, sym, bits))
  {
    assert [] + bits == bits && [] in m;
    forall p: Bits
      ensures var m', t' := Grow(m, [], sym, bits), Insert(t, sym, bits);
              (p in m' <==> Has(t', p)) && (p in m' ==> m'[p] == Term(t', p))
    {
      GrowAt(m, [], sym, bits, p);
      InsertHas(t, sym, bits, p);
    }
  }

  lemma JustRoot(root: Node)
    requires root.left == null && root.right == null && root.trans == [] && root.id == None && !root.accept
    ensures Linked(map[[] := root]) && Pristine(map[[] := root])
  {
  }

  /** Inserting the codes one after the other links the nodes of the tree of the whole list. */
  method AddAll(ctx: Context, book: Book) returns (ghost ns: Nodes)
    requires ctx.root.term == None && ctx.root.left == null && ctx.root.right == null
    requires ctx.root.trans == [] && ctx.root.id == None && !ctx.root.accept
    modifies ctx.root
    ensures Linked(ns) && Pristine(ns) && Carries(ns, TreeOf(book))
    ensures [] in ns && ns[[]] == ctx.root && fresh(ns.Values - {ctx.root})
  {
    hide Pristine, Linked;
    ns := map[[] := ctx.root];
    JustRoot(ctx.root);
    forall p: Bits
      ensures Has(BARE, p) <==> p == []
    {
      BareAt(p);
    }
    for i := 0 to |book|
      invariant Linked(ns) && Pristine(ns) && Carries(ns, TreeOf(book[..i]))
      invariant [] in ns && ns[[]] == ctx.root && fresh(ns.Values - {ctx.root})
    {
      assert book[..i + 1][..i] == book[..i];
      GrowShape(TermMap(ns), TreeOf(book[..i]), book[i].sym, book[i].bits);
      ns := Add(ctx.root, book[i].sym, book[i].bits, ns, []);
    }
    assert book[..|book|] == book;
  }

  lemma NodeAt(ns: Nodes, t: Tree, p: Bits)
    requires Carries(ns, t)
    ensures p in ns <==> Has(t, p)
    ensures p in ns ==> ns[p].term == Term(t, p)
  {
    assert p in ns <==> p in TermMap(ns);
  }

  // From path downwards the nodes are those of s, and an inner node has both children.
  ghost predicate Holds(m: map<Bits, Option<nat>>, path: Bits, s: Tree)
    decreases s
  {
    s.Node? && path in m && m[path] == s.term &&
    (s.term.None? ==> Holds(m, path + [false], s.left) && Holds(m, path + [true], s.right))
  }

  lemma {:induction false} ShapeHolds(m: map<Bits, Option<nat>>, t: Tree, path: Bits)
    requires IsShape(m, t) && Full(t) && Has(t, path)
    ensures Full(At(t, path)) && Holds(m, path, At(t, path))
    decreases At(t, path)
  {
    FullAt(t, path);
    AtStep(t, path, false);
    AtStep(t, path, true);
    if Term(t, path).None? {
      ShapeHolds(m, t, path + [false]);
      ShapeHolds(m, t, path + [true]);
    }
  }

  // --- numbering ---

  datatype Mark = Mark(id: Option<nat>, accept: bool)

  ghost function Marks(ns: Nodes): map<Bits, Mark>
    reads ns.Values`id, ns.Values`accept
  {
    map p | p in ns :: Mark(ns[p].id, ns[p].accept)
  }

  // The marks after the subtree s at path is numbered from `next` on, node first, then left, then right.
  function Assign(m: map<Bits, Mark>, path: Bits, s: Tree, next: nat): map<Bits, Mark>
    decreases s
  {
    if s.Nil? || s.term.Some? then m
    else
      var m1 := m[path := Mark(Some(next), (path in m && m[path].accept) || Padding(path))];
      var m2 := Assign(m1, path + [false], s.left, next + 1);
      Assign(m2, path + [true], s.right, next + 1 + Count(s.left))
  }

  lemma MapsAt(ns: Nodes, p: Bits)
    ensures p in ns <==> p in TermMap(ns)
    ensures p in ns ==> TermMap(ns)[p] == ns[p].term && p in Marks(ns) && Marks(ns)[p] == Mark(ns[p].id, ns[p].accept)
  {
  }

  // The part of _set_node_id that writes to the node itself.
  method MarkNode(ctx: Context, node: Node, prefix: Bits, ghost ns: Nodes)
    requires Linked(ns) && prefix in ns && ns[prefix] == node
    modifies ctx`nextId, node`id, node`accept
    ensures ctx.nextId == old(ctx.nextId) + 1
    ensures Marks(ns) ==
      old(Marks(ns))[prefix := Mark(Some(old(ctx.nextId)), old(node.accept) || Padding(prefix))]
  {
    if |prefix| <= 7 && AllOnes(prefix) {
      node.accept := true;
    }
    var id := ctx.NextId();
    node.id := Some(id);
  }

  lemma AssignLeaf(m: map<Bits, Mark>, path: Bits, s: Tree, next: nat)
    requires s.Node? && s.term.Some?
    ensures Assign(m, path, s, next) == m
  {
  }

  lemma AssignInner(m: map<Bits, Mark>, path: Bits, s: Tree, next: nat,
                    m1: map<Bits, Mark>, m2: map<Bits, Mark>, m3: map<Bits, Mark>)
    requires s.Node? && s.term.None? && path in m
    requires m1 == m[path := Mark(Some(next), m[path].accept || Padding(path))]
    requires m2 == Assign(m1, path + [false], s.left, next + 1)
    requires m3 == Assign(m2, path + [true], s.right, next + 1 + Count(s.left))
    ensures m3 == Assign(m, path, s, next)
  {
  }

  method SetNodeId(ctx: Context, node: Node, prefix: Bits, ghost ns: Nodes, ghost s: Tree)
    requires Linked(ns) && prefix in ns && ns[prefix] == node
    requires Holds(TermMap(ns), prefix, s)
    modifies ctx`nextId, ns.Values`id, ns.Values`accept
    ensures ctx.nextId == old(ctx.nextId) + Count(s)
    ensures Marks(ns) == Assign(old(Marks(ns)), prefix, s, old(ctx.nextId))
    decreases s
  {
    hide Assign, Padding, TermMap, Marks;
    MapsAt(ns, prefix);
    if node.term.Some? {
      AssignLeaf(Marks(ns), prefix, s, ctx.nextId);
      return;
    }
    ghost var terms, m, n := TermMap(ns), Marks(ns), ctx.nextId;
    MapsAt(ns, prefix + [false]);
    MapsAt(ns, prefix + [true]);
    MarkNode(ctx, node, prefix, ns);
    ghost var m1 := Marks(ns);
    SetNodeId(ctx, node.left, prefix + [false], ns, s.left);
    ghost var m2 := Marks(ns);
    assert TermMap(ns) == terms;
    SetNodeId(ctx, node.right, prefix + [true], ns, s.right);
    ghost var m3 := Marks(ns);
    AssignInner(m, prefix, s, n, m1, m2, m3);
  }

  // Below path, an inner position q of s gets number next + Index(s, q); nothing else is touched.
  lemma {:induction false} AssignAt(m: map<Bits, Mark>, path: Bits, s: Tree, next: nat, p: Bits)
    requires Full(s) && p in m
    ensures p in Assign(m, path, s, next)
    ensures Assign(m, path, s, next)[p] ==
      if path <= p && Inner(s, p[|path|..])
      then Mark(Some(next + Index(s, p[|path|..])), m[p].accept || Padding(p))
      else m[p]
    decreases s
  {
    if s.term.Some? {
      if path <= p && Inner(s, p[|path|..]) {
        assert p[|path|..] != [] ==> At(s, p[|path|..]).Nil?;
      }
    } else {
      var m1 := m[path := Mark(Some(next), (path in m && m[path].accept) || Padding(path))];
      var m2 := Assign(m1, path + [false], s.left, next + 1);
      AssignAt(m1, path + [false], s.left, next + 1, p);
      AssignAt(m2, path + [true], s.right, next + 1 + Count(s.left), p);
      if path <= p {
        BelowChild(path, p);
        if p != path {
          var q, b := p[|path|..], p[|path|];
          assert q[1..] == p[|path + [b]|..];
          assert At(s, q) == At(Child(s, b), q[1..]);
        } else {
          assert p[|path|..] == [];
        }
      }
    }
  }

  // --- transitions ---

  type Target = (Node?, Option<nat>)

  ghost function TargetOf(ns: Nodes, h: Hop): Target {
    if h.Fail? then (null, None) else (Ref(ns, h.path), h.sym)
  }

  ghost function Targets(ns: Nodes, hs: seq<Hop>): seq<Target> {
    seq(|hs|, i requires 0 <= i < |hs| => TargetOf(ns, hs[i]))
  }

  lemma TargetsConcat(ns: Nodes, a: seq<Hop>, b: seq<Hop>)
    ensures Targets(ns, a + b) == Targets(ns, a) + Targets(ns, b)
  {
  }

  // What a step of the traversal finds at both children of a node, or of the root after a code end.
  lemma NextNodes(ns: Nodes, t: Tree, path: Bits)
    requires Linked(ns) && Carries(ns, t) && Full(t) && path in ns && Inner(t, [])
    ensures ns[path].term == Term(t, path) && Has(t, path) && [] in ns
    ensures var r := Reset(t, path);
            r in ns && r + [false] in ns && r + [true] in ns &&
            ns[r].left == ns[r + [false]] && ns[r].right == ns[r + [true]] &&
            ns[r + [false]].term == Term(t, r + [false]) && ns[r + [true]].term == Term(t, r + [true])
  {
    NodeAt(ns, t, path);
    NodeAt(ns, t, []);
    var r := Reset(t, path);
    StepInside(t, r, false);
    StepInside(t, r, true);
    NodeAt(ns, t, r);
    NodeAt(ns, t, r + [false]);
    NodeAt(ns, t, r + [true]);
  }

  // The linked nodes carry the tree, from the given root.
  ghost predicate Grown(ns: Nodes, t: Tree, root: Node)
    reads ns.Values`left, ns.Values`right, ns.Values`term
  {
    Linked(ns) && Carries(ns, t) && Full(t) && CodesAtLeast(t, 4) && Inner(t, []) && [] in ns && ns[[]] == root
  }

  // The step of the traversal at path goes to both children of r, with what they may still meet.
  lemma BothWays(ns: Nodes, t: Tree, root: Node, path: Bits, r: Bits, sym: Option<nat>, left: nat)
    requires Grown(ns, t, root) && path in ns && r == Reset(t, path)
    requires 0 < left <= 4 && OneSymbol(t, path, sym, left)
    ensures r in ns && ns[r] == (if ns[path].term.Some? then root else ns[path])
    ensures r + [false] in ns && ns[r].left == ns[r + [false]]
    ensures r + [true] in ns && ns[r].right == ns[r + [true]]
    ensures Term(t, r + [false]).Some? || Term(t, r + [true]).Some? ==> sym.None?
    ensures OneSymbol(t, r + [false], Seen(t, r + [false], sym), left - 1)
    ensures OneSymbol(t, r + [true], Seen(t, r + [true], sym), left - 1)
    ensures Hops(t, path, sym, left) ==
      Hops(t, r + [false], Seen(t, r + [false], sym), left - 1) +
      Hops(t, r + [true], Seen(t, r + [true], sym), left - 1)
  {
    NextNodes(ns, t, path);
    NextSymbol(t, path, false, sym, left);
    NextSymbol(t, path, true, sym, left);
  }

  method Traverse(node: Node, sym: Option<nat>, start: Node, root: Node, left: nat,
                  ghost ns: Nodes, ghost t: Tree, ghost path: Bits)
    requires Grown(ns, t, root) && path in ns && ns[path] == node
    requires left <= 4 && OneSymbol(t, path, sym, left)
    modifies start`trans
    ensures start.trans == old(start.trans) + Targets(ns, Hops(t, path, sym, left))
    decreases left, 1
  {
    hide Grown, OneSymbol, Seen, Term, Reset;
    if left == 0 {
      assert Targets(ns, Hops(t, path, sym, left)) == [TargetOf(ns, Finish(path, sym))];
      if sym == Some(EOS) {
        start.trans := start.trans + [(null, None)];
      } else {
        start.trans := start.trans + [(node, sym)];
      }
      return;
    }
    ghost var r := Reset(t, path);
    BothWays(ns, t, root, path, r, sym, left);
    var from := node;
    if node.term.Some? {
      from := root;
    }
    ghost var zeros := Hops(t, r + [false], Seen(t, r + [false], sym), left - 1);
    ghost var ones := Hops(t, r + [true], Seen(t, r + [true], sym), left - 1);
    TargetsConcat(ns, zeros, ones);
    hide Targets, Hops, Ref;
    Go(from.left, sym, start, root, left, ns, t, r + [false]);
    Go(from.right, sym, start, root, left, ns, t, r + [true]);
  }

  lemma CarriesTerm(ns: Nodes, t: Tree, root: Node, path: Bits)
    requires Grown(ns, t, root) && path in ns
    ensures ns[path].term == Term(t, path)
  {
    NodeAt(ns, t, path);
  }

  // One child of a traversal step; at most one code may end within the four bits.
  method Go(node: Node, sym: Option<nat>, start: Node, root: Node, left: nat,
            ghost ns: Nodes, ghost t: Tree, ghost path: Bits)
    requires Grown(ns, t, root) && path in ns && ns[path] == node
    requires 0 < left <= 4 && (Term(t, path).Some? ==> sym.None?)
    requires OneSymbol(t, path, Seen(t, path, sym), left - 1)
    modifies start`trans
    ensures start.trans == old(start.trans) + Targets(ns, Hops(t, path, Seen(t, path, sym), left - 1))
    decreases left, 0
  {
    hide Grown, OneSymbol, Targets, Hops;
    CarriesTerm(ns, t, root, path);
    var nsym := sym;
    if node.term.Some? {
      assert sym.None?;
      nsym := node.term;
    }
    Traverse(node, nsym, start, root, left - 1, ns, t, path);
  }

  ghost function Rows(ns: Nodes): map<Bits, seq<Target>>
    reads ns.Values`trans
  {
    map p | p in ns :: ns[p].trans
  }

  // The sixteen targets of the node at p.
  ghost function NodeTargets(ns: Nodes, t: Tree): Bits -> seq<Target> {
    p => Targets(ns, Hops(t, p, None, 4))
  }

  // The transitions after every node of s, from path downwards, has appended its targets.
  ghost function Fill(f: Bits -> seq<Target>, m: map<Bits, seq<Target>>, path: Bits, s: Tree): map<Bits, seq<Target>>
    decreases s
  {
    if s.Nil? then m
    else
      var m1 := m[path := (if path in m then m[path] else []) + f(path)];
      Fill(f, Fill(f, m1, path + [false], s.left), path + [true], s.right)
  }

  lemma {:induction false} FillAt(f: Bits -> seq<Target>, m: map<Bits, seq<Target>>, path: Bits, s: Tree, p: Bits)
    requires p in m
    ensures p in Fill(f, m, path, s)
    ensures Fill(f, m, path, s)[p] == if path <= p && Has(s, p[|path|..]) then m[p] + f(p) else m[p]
    decreases s
  {
    if s.Node? {
      var m1 := m[path := (if path in m then m[path] else []) + f(path)];
      var m2 := Fill(f, m1, path + [false], s.left);
      FillAt(f, m1, path + [false], s.left, p);
      FillAt(f, m2, path + [true], s.right, p);
      if path <= p {
        BelowChild(path, p);
        if p == path {
          assert p[|path|..] == [];
        } else {
          var q, b := p[|path|..], p[|path|];
          assert q[1..] == p[|path + [b]|..];
          assert At(s, q) == At(Child(s, b), q[1..]);
        }
      }
    }
  }

  lemma FillNode(f: Bits -> seq<Target>, m: map<Bits, seq<Target>>, path: Bits, s: Tree,
                 m1: map<Bits, seq<Target>>, m2: map<Bits, seq<Target>>, m3: map<Bits, seq<Target>>)
    requires s.Node? && path in m
    requires m1 == m[path := m[path] + f(path)]
    requires m2 == Fill(f, m1, path + [false], s.left)
    requires m3 == Fill(f, m2, path + [true], s.right)
    ensures m3 == Fill(f, m, path, s)
  {
  }

  lemma RowUpdated(m: map<Bits, seq<Target>>, m1: map<Bits, seq<Target>>, path: Bits, r: seq<Target>)
    requires path in m && m1.Keys == m.Keys && m1[path] == r
    requires forall p :: p in m && p != path ==> m1[p] == m[p]
    ensures m1 == m[path := r]
  {
  }

  // The transitions of a node itself.
  method FillOne(ctx: Context, node: Node, ghost ns: Nodes, ghost t: Tree, ghost path: Bits)
    requires Linked(ns) && Carries(ns, t) && Full(t) && CodesAtLeast(t, 4) && Inner(t, [])
    requires path in ns && ns[path] == node && [] in ns && ns[[]] == ctx.root
    modifies node`trans
    ensures node.trans == old(node.trans) + NodeTargets(ns, t)(path)
  {
    Traverse(node, None, node, ctx.root, 4, ns, t, path);
  }

  method BuildTransitionTable(ctx: Context, node: Node?, ghost ns: Nodes, ghost t: Tree, ghost path: Bits)
    requires Linked(ns) && Carries(ns, t) && Full(t) && CodesAtLeast(t, 4) && Inner(t, [])
    requires node == Ref(ns, path) && [] in ns && ns[[]] == ctx.root
    modifies ns.Values`trans
    ensures Rows(ns) == Fill(NodeTargets(ns, t), old(Rows(ns)), path, At(t, path))
    decreases At(t, path)
  {
    hide IsShape, CodesAtLeast, Full, NodeTargets;
    NodeAt(ns, t, path);
    if node == null {
      return;
    }
    ghost var f, m := NodeTargets(ns, t), Rows(ns);
    FillOne(ctx, node, ns, t, path);
    ghost var m1 := Rows(ns);
    RowUpdated(m, m1, path, m[path] + f(path));
    AtStep(t, path, false);
    AtStep(t, path, true);
    BuildTransitionTable(ctx, node.left, ns, t, path + [false]);
    ghost var m2 := Rows(ns);
    BuildTransitionTable(ctx, node.right, ns, t, path + [true]);
    ghost var m3 := Rows(ns);
    FillNode(f, m, path, At(t, path), m1, m2, m3);
  }

  // --- printing ---

  /** Every node carries its number and padding mark, and the targets of its sixteen nibbles. */
  ghost predicate Prepared(ns: Nodes, t: Tree)
    requires Full(t)
    reads ns.Values`id, ns.Values`accept, ns.Values`trans
  {
    forall p :: p in ns ==>
      Marks(ns)[p] == MarkOf(t, p) && ns[p].trans == Targets(ns, Hops(t, p, None, 4))
  }

  // An inner node has its rank in the order node, left, right as its number, and its padding mark;
  // a code end has neither.
  function MarkOf(t: Tree, p: Bits): Mark
    requires Full(t)
  {
    if Inner(t, p) then Mark(Some(Index(t, p)), Padding(p)) else Mark(None, false)
  }

  // A row and the node number printed in front of it.
  datatype Line = Line(id: nat, row: Row)

  function LineOf(t: Tree, p: Bits): Line
    requires Full(t)
  {
    Line(if Has(t, p) then Index(t, p) else 0, RowOf(t, p))
  }

  // All lines of the subtree s at path, node first, then left, then right.
  ghost predicate IsPrinted(t: Tree, path: Bits, s: Tree, lines: seq<Line>)
    requires Full(t)
  {
    |lines| == Count(s) && forall i :: 0 <= i < |lines| ==> lines[i] == LineOf(t, path + Preorder(s)[i])
  }

  lemma RowTargets(t: Tree, p: Bits, k: nat)
    requires Full(t) && CodesAtLeast(t, 4) && Inner(t, []) && Has(t, p) && k < 16
    ensures |Hops(t, p, None, 4)| == 16
    ensures Hops(t, p, None, 4)[k] == HopAlong(t, p, None, BitsOf(k, 4))
    ensures var h := HopAlong(t, p, None, BitsOf(k, 4)); h.Goto? ==> Has(t, h.path)
  {
    HopsInOrder(t, p, None, 4, k);
    HopIsWalk(t, p, None, BitsOf(k, 4), []);
  }

  // One printed entry: no node fails, a node without number is a code end.
  method PrintEntry(nd: Node?, sym: Option<nat>, ghost t: Tree, ghost h: Hop) returns (e: Entry)
    requires Full(t)
    requires if h.Fail? then nd == null && sym == None
             else nd != null && sym == h.sym && Mark(nd.id, nd.accept) == MarkOf(t, h.path)
    ensures e == EntryOf(t, h)
  {
    var flags: bv8 := 0;
    var out := 0;
    if sym.Some? {
      out := sym.value;
      flags := flags | SYM;
    }
    var id := 0;
    if nd == null {
      flags := flags | FAIL;
    } else if nd.id == None {
      flags := flags | ACCEPTED;
    } else {
      id := nd.id.value;
      if nd.accept {
        flags := flags | ACCEPTED;
      }
    }
    e := Entry(id, flags, out);
  }

  // The k-th stored target of a prepared node, as the walk along the bits of k sees it.
  lemma StoredTarget(ns: Nodes, t: Tree, p: Bits, k: nat)
    requires Carries(ns, t) && Full(t) && CodesAtLeast(t, 4) && Inner(t, []) && Prepared(ns, t)
    requires p in ns && Has(t, p) && k < 16
    ensures var h := HopAlong(t, p, None, BitsOf(k, 4));
            |ns[p].trans| == 16 && ns[p].trans[k] == TargetOf(ns, h) &&
            (h.Goto? ==> h.path in ns && Mark(ns[h.path].id, ns[h.path].accept) == MarkOf(t, h.path))
  {
    RowTargets(t, p, k);
    var h := HopAlong(t, p, None, BitsOf(k, 4));
    if h.Goto? {
      NodeAt(ns, t, h.path);
      assert Marks(ns)[h.path] == MarkOf(t, h.path);
    }
  }

  method PrintRow(node: Node, ghost ns: Nodes, ghost t: Tree, ghost path: Bits) returns (row: Row)
    requires Carries(ns, t) && Full(t) && CodesAtLeast(t, 4) && Inner(t, [])
    requires path in ns && ns[path] == node && Has(t, path) && Prepared(ns, t)
    ensures row == RowOf(t, path)
  {
    hide IsShape, CodesAtLeast, Full, Inner, EntryOf, HopAlong, Hops, Prepared;
    StoredTarget(ns, t, path, 0);
    row := [];
    ghost var whole := RowOf(t, path);
    for k := 0 to |node.trans|
      invariant |node.trans| == |whole| == 16 && row == whole[..k]
    {
      StoredTarget(ns, t, path, k);
      var (nd, sym) := node.trans[k];
      var e := PrintEntry(nd, sym, t, HopAlong(t, path, None, BitsOf(k, 4)));
      assert e == whole[k];
      row := row + [e];
    }
  }

  // The lines of a node and of the subtrees of its children, put in order.
  lemma PrintedNode(t: Tree, path: Bits, s: Tree, zeros: seq<Line>, ones: seq<Line>)
    requires Full(t) && s.Node? && s.term.None?
    requires IsPrinted(t, path + [false], s.left, zeros) && IsPrinted(t, path + [true], s.right, ones)
    ensures IsPrinted(t, path, s, [LineOf(t, path)] + zeros + ones)
  {
    hide LineOf, Full, Preorder;
    var lines := [LineOf(t, path)] + zeros + ones;
    assert Preorder(s)[0] == [] by { PreorderRoot(s); }
    forall i | 0 <= i < |lines|
      ensures lines[i] == LineOf(t, path + Preorder(s)[i])
    {
      if i == 0 {
        assert path + [] == path;
      } else {
        var b := i > Count(s.left);
        var j := i - Offset(s, b);
        PreorderChild(s, b, j);
        assert path + ([b] + Preorder(Child(s, b))[j]) == path + [b] + Preorder(Child(s, b))[j];
      }
    }
  }

  method PrintTransitionTable(node: Node, ghost ns: Nodes, ghost t: Tree, ghost path: Bits) returns (lines: seq<Line>)
    requires Linked(ns) && Carries(ns, t) && Full(t) && CodesAtLeast(t, 4) && Inner(t, [])
    requires path in ns && ns[path] == node && Prepared(ns, t)
    ensures IsPrinted(t, path, At(t, path), lines)
    decreases At(t, path)
  {
    NodeAt(ns, t, path);
    if node.term.Some? {
      return [];
    }
    NextNodes(ns, t, path);
    AtStep(t, path, false);
    AtStep(t, path, true);
    assert Marks(ns)[path] == MarkOf(t, path);
    var row := PrintRow(node, ns, t, path);
    var zeros := PrintTransitionTable(node.left, ns, t, path + [false]);
    var ones := PrintTransitionTable(node.right, ns, t, path + [true]);
    PrintedNode(t, path, At(t, path), zeros, ones);
    lines := [Line(node.id.value, row)] + zeros + ones;
  }

  // After both passes every node is prepared.
  lemma BothPasses(ns: Nodes, t: Tree, marks: map<Bits, Mark>, rows: map<Bits, seq<Target>>)
    requires Carries(ns, t) && Full(t)
    requires marks.Keys == ns.Keys && rows.Keys == ns.Keys
    requires forall p :: p in ns ==> marks[p] == Mark(None, false) && rows[p] == []
    requires Marks(ns) == Assign(marks, [], t, 0)
    requires Rows(ns) == Fill(NodeTargets(ns, t), rows, [], t)
    ensures Prepared(ns, t)
  {
    hide IsShape, Full, Hops, Assign, Fill, Index;
    forall p | p in ns
      ensures Marks(ns)[p] == MarkOf(t, p) && ns[p].trans == Targets(ns, Hops(t, p, None, 4))
    {
      NodeAt(ns, t, p);
      assert p[0..] == p;
      AssignAt(marks, [], t, 0, p);
      FillAt(NodeTargets(ns, t), rows, [], t, p);
      assert Rows(ns)[p] == [] + Targets(ns, Hops(t, p, None, 4));
    }
  }

  function TableRows(lines: seq<Line>): (table: seq<Row>)
    ensures |table| == |lines| && forall i :: 0 <= i < |lines| ==> table[i] == lines[i].row
  {
    seq(|lines|, i requires 0 <= i < |lines| => lines[i].row)
  }

  lemma PristineMaps(ns: Nodes)
    requires Pristine(ns)
    ensures Marks(ns).Keys == ns.Keys && Rows(ns).Keys == ns.Keys
    ensures forall p :: p in ns ==> Marks(ns)[p] == Mark(None, false) && Rows(ns)[p] == []
  {
  }

  // The three passes over the tree, before printing.
  method Prepare(ctx: Context, book: Book) returns (ghost ns: Nodes)
    requires PrefixFree(book) && Complete(book)
    requires Full(TreeOf(book)) && CodesAtLeast(TreeOf(book), 4) && Inner(TreeOf(book), [])
    requires ctx.nextId == 0 && ctx.root.term == None && ctx.root.left == null && ctx.root.right == null
    requires ctx.root.trans == [] && ctx.root.id == None && !ctx.root.accept
    modifies ctx`nextId, ctx.root
    ensures Linked(ns) && Carries(ns, TreeOf(book)) && Prepared(ns, TreeOf(book))
    ensures [] in ns && ns[[]] == ctx.root
  {
    hide Marks, Rows, TermMap, Assign, Fill, Full, CodesAtLeast, Complete, PrefixFree, TreeOf, Prepared, NodeTargets;
    ghost var t := TreeOf(book);
    ns := AddAll(ctx, book);
    NodeAt(ns, t, []);
    ShapeHolds(TermMap(ns), t, []);
    ghost var marks, rows := Marks(ns), Rows(ns);
    PristineMaps(ns);
    SetNodeId(ctx, ctx.root, [], ns, t);
    ghost var marks' := Marks(ns);
    assert Rows(ns) == rows;
    BuildTransitionTable(ctx, ctx.root, ns, t, []);
    assert Marks(ns) == marks';
    BothPasses(ns, t, marks, rows);
  }

  // Lines printed from the root number themselves 0, 1, 2, ...
  lemma PrintedInOrder(t: Tree, lines: seq<Line>)
    requires Full(t) && IsPrinted(t, [], t, lines)
    ensures |lines| == Count(t) && IsTable(t, TableRows(lines))
    ensures forall i :: 0 <= i < |lines| ==> lines[i].id == i
  {
    hide RowOf;
    forall i | 0 <= i < |lines|
      ensures lines[i] == LineOf(t, Preorder(t)[i]) && lines[i].id == i
    {
      assert [] + Preorder(t)[i] == Preorder(t)[i];
      PreorderInverse(t, i);
    }
  }

  /** The whole generator: for a complete prefix-free code without codes shorter than a nibble, the lines
      printed are numbered in order and are the table of its tree, one row for each inner node. */
  method Compile(book: Book) returns (lines: seq<Line>)
    requires PrefixFree(book) && Complete(book)
    requires forall i :: 0 <= i < |book| ==> |book[i].bits| >= 4
    ensures Full(TreeOf(book)) && |lines| == |book| - 1
    ensures forall i :: 0 <= i < |lines| ==> lines[i].id == i
    ensures IsTable(TreeOf(book), TableRows(lines))
  {
    Numbering(book);
    LongCodes(book);
    var ctx := new Context();
    ghost var ns := Prepare(ctx, book);
    lines := PrintTransitionTable(ctx.root, ns, TreeOf(book), []);
    PrintedInOrder(TreeOf(book), lines);
  }
}
