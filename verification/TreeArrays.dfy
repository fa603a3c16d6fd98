/** The procedures of lptree.c that write node arrays. */
module TreeArrays {
  import opened Common
  import opened Patterns
  import opened Analysis
  import opened Grammars
  import opened Builders
  import opened Layout

  /** `memmove` towards lower addresses. */
  method MoveDown(a: array<Node>, to: nat, from: nat, n: nat)
    requires to <= from && from + n <= a.Length
    modifies a
    ensures SameBlock(old(a[..]), from, a[..], to, n)
    ensures forall j :: 0 <= j < a.Length && !(to <= j < to + n) ==> a[j] == old(a[j])
  {
    for k := 0 to n
      invariant forall j :: from <= j < from + k ==> old(a[j]) == a[j - from + to]
      invariant forall j :: 0 <= j < a.Length && !(to <= j < to + k) ==> a[j] == old(a[j])
    {
      a[to + k] := a[from + k];
    }
  }

  /** `memcpy` of a whole tree. */
  method CopyTree(a: array<Node>, to: nat, part: seq<Node>)
    requires to + |part| <= a.Length
    modifies a
    ensures SameBlock(part, 0, a[..], to, |part|)
    ensures forall j :: 0 <= j < a.Length && !(to <= j < to + |part|) ==> a[j] == old(a[j])
  {
    for k := 0 to |part|
      invariant forall j :: 0 <= j < k ==> part[j] == a[j + to]
      invariant forall j :: 0 <= j < a.Length && !(to <= j < to + k) ==> a[j] == old(a[j])
    {
      a[to + k] := part[k];
    }
  }

  // ---------- correctassociativity ----------

  /** One rotation. */
  function Once(t: Tree): Tree
    requires Binary(t) && Binary(t.p1) && OpTag(t) == OpTag(t.p1)
  {
    if t.TSeq? then TSeq(t.p1.p1, TSeq(t.p1.p2, t.p2)) else TChoice(t.p1.p1, TChoice(t.p1.p2, t.p2))
  }

  lemma RotatedOnce(t: Tree)
    requires Binary(t)
    ensures Binary(t.p1) && OpTag(t) == OpTag(t.p1) ==> Rotated(t) == Rotated(Once(t)) && Size(Once(t)) == Size(t)
    ensures !(Binary(t.p1) && OpTag(t) == OpTag(t.p1)) ==> Rotated(t) == t
  {
    hide Size;
    if Binary(t.p1) && OpTag(t) == OpTag(t.p1) {
      SizeParts(t);
      SizeParts(t.p1);
      SizeParts(Once(t));
      SizeParts(Once(t).p2);
    }
  }

  lemma TailHolds(a: seq<Node>, b: seq<Node>, from: nat, at: nat, u: Tree)
    requires from <= at && Holds(a, at, u, Open) && |b| == |a|
    requires forall j :: from <= j < |a| ==> b[j] == a[j]
    ensures Holds(b, at, u, Open)
  {
    HoldsMoved(a, at, b, at, u, Open);
  }

  /** The array after one round of `correctassociativity` holds the rotated tree. */
  lemma OnceHolds(a: seq<Node>, b: seq<Node>, t: nat, u: Tree)
    requires Binary(u) && Binary(u.p1) && OpTag(u) == OpTag(u.p1)
    requires Holds(a, t, u, Open) && |b| == |a| && t + Size(u) <= |a|
    requires var n := Size(u.p1.p1);
      && SameBlock(a, t + 2, b, t + 1, n)
      && t + n + 1 < |b|
      && b[t].Node? && b[t].tag == OpTag(u) && b[t].u == n + 1
      && b[t + n + 1].Node? && b[t + n + 1].tag == OpTag(u) && b[t + n + 1].u == Size(u.p1.p2) + 1
    requires forall j :: t + 2 + Size(u.p1.p1) <= j < |a| ==> b[j] == a[j]
    ensures Holds(b, t, Once(u), Open)
  {
    hide Holds, Size;
    var n := Size(u.p1.p1);
    var v := Once(u);
    SizeParts(u); SizeParts(u.p1); SizeParts(v); SizeParts(v.p2);
    BinaryParts(a, t, u, Open);
    BinaryParts(a, t + 1, u.p1, Open);
    HoldsMoved(a, t + 2, b, t + 1, u.p1.p1, Open);
    TailHolds(a, b, t + 2 + n, t + 2 + n, u.p1.p2);
    TailHolds(a, b, t + 2 + n, t + 1 + Size(u.p1), u.p2);
    BinaryParts(b, t + 1 + n, v.p2, Open);
    BinaryParts(b, t, v, Open);
  }

  /** lptree.c's `correctassociativity` on the tree at `t`. */
  method CorrectAssociativity(a: array<Node>, t: nat, ghost tree: Tree)
    requires Binary(tree) && Holds(a[..], t, tree, Open)
    modifies a
    ensures Holds(a[..], t, Rotated(tree), Open)
    ensures forall j :: 0 <= j < a.Length && !(t <= j < t + Size(tree)) ==> a[j] == old(a[j])
  {
    hide Holds, Size, Rotated, Shaped;
    ghost var u := tree;
    Shape(a[..], t, u);
    while Continues(a, t, u)
      invariant Binary(u) && Size(u) == Size(tree) && Rotated(u) == Rotated(tree)
      invariant Holds(a[..], t, u, Open) && Shaped(a[..], t, u)
      invariant forall j :: 0 <= j < a.Length && !(t <= j < t + Size(tree)) ==> a[j] == old(a[j])
      decreases u.p1
    {
      RotatedOnce(u);
      RotateRight(a, t, u);
      u := Once(u);
      Shape(a[..], t, u);
    }
    RotatedOnce(u);
  }

  /** The condition of the loop: the first sibling is the same operator. */
  predicate Continues(a: array<Node>, t: nat, ghost u: Tree)
    requires Binary(u) && Shaped(a[..], t, u)
    reads a
    ensures Continues(a, t, u) <==> Binary(u.p1) && OpTag(u.p1) == OpTag(u)
  {
    a[t + 1].tag == a[t].tag
  }

  /** The body of the loop. */
  method RotateRight(a: array<Node>, t: nat, ghost u: Tree)
    requires Binary(u) && Binary(u.p1) && OpTag(u) == OpTag(u.p1)
    requires Holds(a[..], t, u, Open) && Shaped(a[..], t, u)
    modifies a
    ensures Holds(a[..], t, Once(u), Open)
    ensures forall j :: 0 <= j < a.Length && !(t <= j < t + Size(u)) ==> a[j] == old(a[j])
  {
    hide Holds, Size, SameBlock;
    ghost var before := a[..];
    var n1size := a[t].u - 1;
    var n11size := a[t + 1].u - 1;
    var n12size := n1size - n11size - 1;
    MoveDown(a, t + 1, t + 2, n11size);
    ghost var moved := a[..];
    a[t] := a[t].(u := n11size + 1);
    var sib2 := t + a[t].u;
    a[sib2] := WithTagU(a[sib2], a[t].tag, n12size + 1);
    BlockKept(before, t + 2, moved, t + 1, n11size, a[..]);
    OnceHolds(before, a[..], t, u);
  }

  /** What `correctassociativity` reads of a tree. */
  ghost predicate Shaped(a: seq<Node>, t: nat, u: Tree)
    requires Binary(u)
  {
    && t + Size(u) <= |a| && t + 1 < |a|
    && a[t].Node? && a[t].tag == OpTag(u) && a[t].u == 1 + Size(u.p1)
    && a[t + 1].Node?
    && (a[t + 1].tag == OpTag(u) <==> Binary(u.p1) && OpTag(u.p1) == OpTag(u))
    && Size(u) == 1 + Size(u.p1) + Size(u.p2)
    && (Binary(u.p1) ==>
      && a[t + 1].u == 1 + Size(u.p1.p1)
      && Size(u.p1) == 1 + Size(u.p1.p1) + Size(u.p1.p2))
  }

  lemma Shape(a: seq<Node>, t: nat, u: Tree)
    requires Binary(u) && Holds(a, t, u, Open)
    ensures Shaped(a, t, u)
  {
    hide Holds, Size;
    SizeParts(u);
    BinaryParts(a, t, u, Open);
    RootTag(a, t + 1, u.p1, Open);
    if Binary(u.p1) {
      SizeParts(u.p1);
      BinaryParts(a, t + 1, u.p1, Open);
    }
  }

  // ---------- finalfix ----------

  /** Slot `j` is the node of rule `n` of the grammar that calls refer to. */
  ghost predicate IsRule(link: Link, j: int, n: nat) {
    link.Closed? && n < |link.rules| && j == link.base + 1 + Start(link.rules, n)
  }

  lemma OneRule(link: Link, j: int, n: nat, m: nat)
    requires IsRule(link, j, n) && IsRule(link, j, m)
    ensures n == m
  {
    if n < m { StartMonotone(link.rules, n, m); }
    if m < n { StartMonotone(link.rules, m, n); }
  }

  /** The key that fixing the calls of `t` leaves in slot `j`, or 0 if it leaves none. */
  ghost function KeyAt(t: Tree, link: Link, j: int): nat {
    if exists n: nat :: IsRule(link, j, n) && Calls(t, n) then
      var n: nat :| IsRule(link, j, n) && Calls(t, n);
      n + 1
    else 0
  }

  function Keyed(node: Node, key: nat): Node {
    if key > 0 && node.Node? then node.(key := key) else node
  }

  lemma KeyAtIs(t: Tree, link: Link, j: int, n: nat)
    requires IsRule(link, j, n)
    ensures KeyAt(t, link, j) == if Calls(t, n) then n + 1 else 0
  {
    if exists m: nat :: IsRule(link, j, m) && Calls(t, m) {
      var m: nat :| IsRule(link, j, m) && Calls(t, m) && KeyAt(t, link, j) == m + 1;
      OneRule(link, j, n, m);
    }
  }

  /** Every slot outside the tree at `t` is as before, but for the keys of the rules called. */
  ghost predicate OnlyKeys(a: seq<Node>, b: seq<Node>, t: nat, tree: Tree, link: Link) {
    |a| == |b| && forall j :: 0 <= j < |a| && !(t <= j < t + Size(tree)) ==> b[j] == Keyed(a[j], KeyAt(tree, link, j))
  }

  /** All calls of `t` have a rule to go to. */
  ghost predicate Defined(t: Tree, link: Link) {
    forall n: nat :: Calls(t, n) ==> link.Closed? && n < |link.rules|
  }

  /** The rules of the grammar are outside of the tree at `t`, and their nodes are there. */
  ghost predicate Apart(a: seq<Node>, t: nat, size: nat, link: Link) {
    forall n :: link.Closed? && 0 <= n < |link.rules| ==>
      var j := link.base + 1 + Start(link.rules, n);
      j < |a| && !(t <= j < t + size) && a[j].Node? && a[j].tag == NRule
  }

  /** Where calls go: nowhere, or into a grammar at `base` with the given position table. */
  datatype Host = NoGrammar | Grammar(base: nat, postable: seq<nat>)

  ghost predicate Agree(g: Host, link: Link) {
    && (g.NoGrammar? <==> link.Open?)
    && (g.Grammar? ==>
      && g.base == link.base
      && |g.postable| == |link.rules|
      && forall n :: 0 <= n < |link.rules| ==> g.postable[n] == 1 + Start(link.rules, n))
  }

  /** lptree.c's `fixonecall`, and the error for a call outside of any grammar. */
  method FixOneCall(a: array<Node>, g: Host, t: nat, ghost n: nat, ghost link: Link) returns (ok: bool)
    requires Agree(g, link) && Holds(a[..], t, TCall(n), Open) && Apart(a[..], t, 1, link)
    modifies a
    ensures ok <==> Defined(TCall(n), link)
    ensures ok ==> Holds(a[..], t, TCall(n), link) && OnlyKeys(old(a[..]), a[..], t, TCall(n), link)
  {
    hide Start;
    assert Calls(TCall(n), n);
    var key := a[t].key;
    if g.NoGrammar? || key > |g.postable| { return false; }
    ghost var before := a[..];
    var pos := g.postable[key - 1];
    a[t] := a[t].(tag := NCall, u := pos - (t - g.base));
    var sib2 := t + a[t].u;
    a[sib2] := a[sib2].(key := key);
    forall j | 0 <= j < a.Length && j != t ensures a[j] == Keyed(before[j], KeyAt(TCall(n), link, j)) {
      if j == sib2 { KeyAtIs(TCall(n), link, j, n); }
    }
    return true;
  }

  lemma CallsParts(t: Tree, n: nat)
    ensures Unary(t) ==> (Calls(t, n) <==> Calls(t.p, n))
    ensures Binary(t) ==> (Calls(t, n) <==> Calls(t.p1, n) || Calls(t.p2, n))
    ensures !Unary(t) && !Binary(t) && !t.TCall? ==> !Calls(t, n)
  {
  }

  lemma DefinedParts(t: Tree, link: Link)
    ensures Unary(t) ==> (Defined(t, link) <==> Defined(t.p, link))
    ensures Binary(t) ==> (Defined(t, link) <==> Defined(t.p1, link) && Defined(t.p2, link))
    ensures !Unary(t) && !Binary(t) && !t.TCall? ==> Defined(t, link)
  {
    hide Calls;
    forall n: nat { CallsParts(t, n); }
  }

  lemma KeyAtParts(t: Tree, link: Link, j: int)
    ensures Unary(t) ==> KeyAt(t, link, j) == KeyAt(t.p, link, j)
    ensures Binary(t) ==> forall node ::
      Keyed(Keyed(node, KeyAt(t.p1, link, j)), KeyAt(t.p2, link, j)) == Keyed(node, KeyAt(t, link, j))
    ensures !Unary(t) && !Binary(t) && !t.TCall? ==> KeyAt(t, link, j) == 0
  {
    hide Calls, IsRule, KeyAt;
    if n: nat :| IsRule(link, j, n) {
      CallsParts(t, n);
      KeyAtIs(t, link, j, n);
      if Unary(t) { KeyAtIs(t.p, link, j, n); }
      if Binary(t) { KeyAtIs(t.p1, link, j, n); KeyAtIs(t.p2, link, j, n); }
    } else {
      NoKey(t, link, j);
      if Unary(t) { NoKey(t.p, link, j); }
      if Binary(t) { NoKey(t.p1, link, j); NoKey(t.p2, link, j); }
    }
  }

  lemma NoKey(t: Tree, link: Link, j: int)
    requires forall n: nat :: !IsRule(link, j, n)
    ensures KeyAt(t, link, j) == 0
  {
  }


  /** Rules that are apart from a tree are apart from its parts, and stay apart when only keys change. */
  lemma ApartKeeps(a: seq<Node>, b: seq<Node>, t: nat, n: nat, x: nat, tree: Tree, link: Link)
    requires Apart(a, t, n, link) && t <= x && x + Size(tree) <= t + n
    requires OnlyKeys(a, b, x, tree, link)
    ensures Apart(b, t, n, link)
    ensures forall j :: t <= j < t + n && j < |a| && !(x <= j < x + Size(tree)) ==> b[j] == a[j]
  {
    hide Start, Size, KeyAt;
    forall j | t <= j < t + n && j < |a| && !(x <= j < x + Size(tree)) ensures b[j] == a[j] {
      forall m: nat ensures !IsRule(link, j, m) {}
      NoKey(tree, link, j);
    }
  }

  lemma ApartPart(a: seq<Node>, t: nat, n: nat, x: nat, m: nat, link: Link)
    requires Apart(a, t, n, link) && t <= x && x + m <= t + n
    ensures Apart(a, x, m, link)
  {
    hide Start;
  }

  /** Changes inside of the tree do not matter to the rules. */
  lemma ApartInside(a: seq<Node>, b: seq<Node>, t: nat, n: nat, link: Link)
    requires Apart(a, t, n, link) && |a| == |b|
    requires forall j :: 0 <= j < |a| && !(t <= j < t + n) ==> b[j] == a[j]
    ensures Apart(b, t, n, link)
  {
    hide Start;
  }

  /** `finalfix` on a node with one sibling, once the sibling is done. */
  lemma FixedOne(a: seq<Node>, b: seq<Node>, t: nat, tree: Tree, link: Link)
    requires Unary(tree) && Holds(a, t, tree, Open) && Apart(a, t, Size(tree), link)
    requires Holds(b, t + 1, Fixed(tree.p), link) && OnlyKeys(a, b, t + 1, tree.p, link)
    ensures Holds(b, t, Fixed(tree), link) && OnlyKeys(a, b, t, tree, link)
  {
    hide Holds, Size, Fixed, OnlyKeys, Apart, KeyAt, Root;
    SizeParts(tree);
    UnaryParts(a, t, tree, Open);
    ApartKeeps(a, b, t, Size(tree), t + 1, tree.p, link);
    assert |a| == |b| by { KeysLength(a, b, t + 1, tree.p, link); }
    FixedUnary(tree, a[t], t, link);
    FixedShape(tree);
    UnaryParts(b, t, Fixed(tree), link);
    assert OnlyKeys(a, b, t, tree, link) by { KeysOne(a, b, t, tree, link); }
  }

  lemma KeysLength(a: seq<Node>, b: seq<Node>, t: nat, tree: Tree, link: Link)
    requires OnlyKeys(a, b, t, tree, link)
    ensures |a| == |b|
  {
  }

  lemma KeysOne(a: seq<Node>, b: seq<Node>, t: nat, tree: Tree, link: Link)
    requires Unary(tree) && OnlyKeys(a, b, t + 1, tree.p, link)
    ensures OnlyKeys(a, b, t, tree, link)
  {
    hide Size, KeyAt;
    SizeParts(tree);
    forall j | 0 <= j < |a| && !(t <= j < t + Size(tree)) ensures b[j] == Keyed(a[j], KeyAt(tree, link, j)) {
      KeyAtParts(tree, link, j);
    }
  }

  lemma FixedUnary(t: Tree, node: Node, at: nat, link: Link)
    requires Unary(t) && Root(node, at, t, Open)
    ensures Unary(Fixed(t)) && Fixed(t).p == Fixed(t.p) && Root(node, at, Fixed(t), link)
  {
  }

  lemma FixedBinary(t: Tree)
    requires Binary(t)
    ensures Binary(Rotated(t)) && Binary(Fixed(t)) && OpTag(Rotated(t)) == OpTag(Fixed(t)) == OpTag(t)
    ensures Fixed(t).p1 == Fixed(Rotated(t).p1) && Fixed(t).p2 == Fixed(Rotated(t).p2)
    ensures Size(Rotated(t)) == Size(t)
  {
    RotatedSize(t);
  }

  /** The second sibling is untouched while the first is fixed. */
  lemma SecondStays(a: seq<Node>, b: seq<Node>, t: nat, r: Tree, link: Link)
    requires Binary(r) && Holds(a, t, r, Open) && Apart(a, t, Size(r), link)
    requires OnlyKeys(a, b, t + 1, r.p1, link)
    ensures Apart(b, t, Size(r), link) && |a| == |b| && t + Size(r) <= |a|
    ensures b[t].Node? && b[t].tag == OpTag(r) && b[t].u == 1 + Size(r.p1)
    ensures Holds(b, t + 1 + Size(r.p1), r.p2, Open)
  {
    hide Holds, Size, Apart, KeyAt;
    SizeParts(r);
    BinaryParts(a, t, r, Open);
    ApartKeeps(a, b, t, Size(r), t + 1, r.p1, link);
    HoldsFrame(a, b, t + 1 + Size(r.p1), r.p2, Open);
  }

  /** `finalfix` on a node with two siblings, once both are done. */
  lemma FixedTwo(a: seq<Node>, b: seq<Node>, c: seq<Node>, t: nat, tree: Tree, link: Link)
    requires Binary(tree)
    requires var r := Rotated(tree);
      && Binary(r) && Holds(a, t, r, Open) && Apart(a, t, Size(r), link)
      && OnlyKeys(a, b, t + 1, r.p1, link) && Holds(b, t + 1, Fixed(r.p1), link)
      && OnlyKeys(b, c, t + 1 + Size(r.p1), r.p2, link) && Holds(c, t + 1 + Size(r.p1), Fixed(r.p2), link)
    ensures Holds(c, t, Fixed(tree), link)
    ensures OnlyKeys(a, c, t, Rotated(tree), link)
  {
    hide Holds, Size, Apart, KeyAt, Rotated, Fixed, OnlyKeys;
    var r := Rotated(tree);
    SizeParts(r);
    SecondStays(a, b, t, r, link);
    FixedBinary(tree);
    FixedShape(tree);
    FixedShape(r.p1);
    KeysLength(b, c, t + 1 + Size(r.p1), r.p2, link);
    ApartKeeps(b, c, t, Size(r), t + 1 + Size(r.p1), r.p2, link);
    HoldsFrame(b, c, t + 1, Fixed(r.p1), link);
    BinaryParts(c, t, Fixed(tree), link);
    KeysTwo(a, b, c, t, r, link);
  }

  lemma KeysTwo(a: seq<Node>, b: seq<Node>, c: seq<Node>, t: nat, r: Tree, link: Link)
    requires Binary(r) && OnlyKeys(a, b, t + 1, r.p1, link) && OnlyKeys(b, c, t + 1 + Size(r.p1), r.p2, link)
    ensures OnlyKeys(a, c, t, r, link)
  {
    hide Size, KeyAt;
    SizeParts(r);
    forall j | 0 <= j < |a| && !(t <= j < t + Size(r)) ensures c[j] == Keyed(a[j], KeyAt(r, link, j)) {
      KeyAtParts(r, link, j);
      assert b[j] == Keyed(a[j], KeyAt(r.p1, link, j));
      assert c[j] == Keyed(b[j], KeyAt(r.p2, link, j));
    }
  }

  /** Rotating does not change what is called. */
  lemma RotatedKeys(a0: seq<Node>, a: seq<Node>, c: seq<Node>, t: nat, tree: Tree, link: Link)
    requires Binary(tree) && |a0| == |a|
    requires forall j :: 0 <= j < |a| && !(t <= j < t + Size(tree)) ==> a[j] == a0[j]
    requires OnlyKeys(a, c, t, Rotated(tree), link)
    ensures OnlyKeys(a0, c, t, tree, link)
    ensures Defined(Rotated(tree), link) <==> Defined(tree, link)
  {
    hide Size, KeyAt, Calls, Rotated;
    RotatedSize(tree);
    forall j | 0 <= j < |a| && !(t <= j < t + Size(tree))
      ensures KeyAt(tree, link, j) == KeyAt(Rotated(tree), link, j)
    {
      if n: nat :| IsRule(link, j, n) {
        KeyAtIs(tree, link, j, n);
        KeyAtIs(Rotated(tree), link, j, n);
      } else {
        NoKey(tree, link, j);
        NoKey(Rotated(tree), link, j);
      }
    }
  }

  lemma RotatedDefined(tree: Tree, link: Link)
    ensures Defined(Rotated(tree), link) <==> Defined(tree, link)
  {
    hide Calls, Rotated;
    RotatedSize(tree);
  }

  /** A node without siblings is left alone. */
  lemma FixedLeaf(a: seq<Node>, t: nat, tree: Tree, link: Link)
    requires !Unary(tree) && !Binary(tree) && !tree.TCall? && Holds(a, t, tree, Open)
    ensures Holds(a, t, Fixed(tree), link) && OnlyKeys(a, a, t, tree, link) && Defined(tree, link)
  {
    hide Holds, Size, KeyAt;
    LeafLink(a, t, tree, link);
    DefinedParts(tree, link);
    forall j: int { KeyAtParts(tree, link, j); }
  }

  /** The tag of the root decides how many siblings there are. */
  lemma RootKind(a: seq<Node>, t: nat, tree: Tree)
    requires Holds(a, t, tree, Open)
    ensures t + Size(tree) <= |a| && a[t].Node?
    ensures a[t].tag == NOpenCall <==> tree.TCall?
    ensures a[t].tag in {NSeq, NChoice} <==> Binary(tree)
    ensures a[t].tag in {NRep, NNot, NAnd, NBehind, NCapture} <==> Unary(tree)
  {
  }

  /** lptree.c's `finalfix`. It fails if and only if some call has no rule to go to. */
  method FinalFix(a: array<Node>, g: Host, t: nat, ghost tree: Tree, ghost link: Link) returns (ok: bool)
    requires Agree(g, link) && Holds(a[..], t, tree, Open) && Apart(a[..], t, Size(tree), link)
    modifies a
    ensures ok <==> Defined(tree, link)
    ensures ok ==> Holds(a[..], t, Fixed(tree), link) && OnlyKeys(old(a[..]), a[..], t, tree, link)
    decreases Size(tree)
  {
    hide Agree, Holds, Size, Apart, Defined, OnlyKeys, Fixed, Rotated, Root;
    ghost var before := a[..];
    RootKind(a[..], t, tree);
    DefinedParts(tree, link);
    SizeParts(tree);
    var tag := a[t].tag;
    if tag == NOpenCall {
      CallSize(tree);
      ok := FixOneCall(a, g, t, tree.rule, link);
    } else if tag == NSeq || tag == NChoice {
      CorrectAssociativity(a, t, tree);
      ghost var mid, r := a[..], Rotated(tree);
      FixedBinary(tree); RotatedDefined(tree, link); DefinedParts(r, link); SizeParts(r);
      ApartInside(before, mid, t, Size(tree), link);
      BinaryParts(mid, t, r, Open);
      ApartPart(mid, t, Size(r), t + 1, Size(r.p1), link);
      ok := FinalFix(a, g, t + 1, r.p1, link);
      if ok {
        ghost var last := a[..];
        SecondStays(mid, last, t, r, link);
        ApartPart(last, t, Size(r), t + 1 + Size(r.p1), Size(r.p2), link);
        ok := FinalFix(a, g, t + a[t].u, r.p2, link);
        if ok {
          FixedTwo(mid, last, a[..], t, tree, link);
          RotatedKeys(before, mid, a[..], t, tree, link);
        }
      }
    } else if tag == NRep || tag == NNot || tag == NAnd || tag == NBehind || tag == NCapture {
      UnaryParts(before, t, tree, Open);
      ApartPart(before, t, Size(tree), t + 1, Size(tree.p), link);
      ok := FinalFix(a, g, t + 1, tree.p, link);
      if ok { FixedOne(before, a[..], t, tree, link); }
    } else {
      ok := true;
      FixedLeaf(a[..], t, tree, link);
    }
  }

  lemma CallSize(t: Tree)
    ensures t.TCall? ==> Size(t) == 1 && Fixed(t) == t
  {
  }

  // ---------- Grammars ----------

  /** Rule number `k` of the grammar at slot 0: its node, and its pattern `t`. */
  ghost predicate RuleAt(a: seq<Node>, rules: seq<Tree>, k: nat, t: Tree, link: Link)
    requires k < |rules|
  {
    var at := 1 + Start(rules, k);
    && at < |a| && a[at].Node? && a[at].tag == NRule && a[at].cap == k % 256 && a[at].u == 1 + Size(rules[k])
    && Holds(a, at + 1, t, link)
  }

  /** The root of a grammar, and the node that ends its list of rules. */
  ghost predicate Brackets(a: seq<Node>, rules: seq<Tree>) {
    var n := Start(rules, |rules|);
    && |a| == 2 + n
    && a[0].Node? && a[0].tag == NGrammar && a[0].u == |rules|
    && a[1 + n].Node? && a[1 + n].tag == NTrue
  }

  /** The trees that the rules are built from, as their own arrays hold them. */
  ghost predicate Parts(parts: seq<seq<Node>>, rules: seq<Tree>) {
    |parts| == |rules| && forall k :: 0 <= k < |parts| ==>
      |parts[k]| == Size(rules[k]) && Holds(parts[k], 0, rules[k], Open)
  }

  lemma RuleKept(a: seq<Node>, b: seq<Node>, rules: seq<Tree>, k: nat, t: Tree, link: Link)
    requires k < |rules| && RuleAt(a, rules, k, t, link) && Size(t) == Size(rules[k]) && |a| == |b|
    requires forall j :: 1 + Start(rules, k) <= j < 1 + Start(rules, k + 1) && j < |a| ==> a[j] == b[j]
    ensures RuleAt(b, rules, k, t, link)
  {
    hide Holds, Size;
    hide Start;
    StartNext(rules, k);
    var at := 1 + Start(rules, k);
    assert at + 1 + Size(t) <= |a| by { HoldsRoom(a, at + 1, t, link); }
    HoldsFrame(a, b, at + 1, t, link);
  }

  lemma HoldsRoom(a: seq<Node>, at: nat, t: Tree, link: Link)
    requires Holds(a, at, t, link)
    ensures at + Size(t) <= |a|
  {
  }

  /** The position table and the total size that `collectrules` finds. */
  method CollectRules(parts: seq<seq<Node>>, ghost rules: seq<Tree>) returns (postable: seq<nat>, size: nat)
    requires Parts(parts, rules)
    ensures Agree(Grammar(0, postable), Closed(0, rules))
    ensures size == 2 + Start(rules, |rules|)
  {
    hide Holds, Size, Start;
    StartZero(rules);
    size := 1;
    postable := [];
    for k := 0 to |parts|
      invariant |postable| == k && size == 1 + Start(rules, k)
      invariant forall i :: 0 <= i < k ==> postable[i] == 1 + Start(rules, i)
    {
      postable := postable + [size];
      StartNext(rules, k);
      size := size + 1 + |parts[k]|;
    }
    size := size + 1;
  }

  /** Rule `k` stands in the array as it came, and has no key yet. */
  ghost predicate FreshRule(a: seq<Node>, rules: seq<Tree>, k: nat)
    requires k < |rules|
  {
    RuleAt(a, rules, k, rules[k], Open) && a[1 + Start(rules, k)].key == 0
  }

  lemma FreshKept(a: seq<Node>, b: seq<Node>, rules: seq<Tree>, k: nat)
    requires k < |rules| && FreshRule(a, rules, k) && |a| == |b|
    requires forall j :: 1 + Start(rules, k) <= j < 1 + Start(rules, k + 1) && j < |a| ==> a[j] == b[j]
    ensures FreshRule(b, rules, k)
  {
    hide Holds, Size, Start;
    StartNext(rules, k);
    RuleKept(a, b, rules, k, rules[k], Open);
  }

  /** `buildgrammar`. The number of a rule goes into a byte. */
  method BuildGrammar(a: array<Node>, parts: seq<seq<Node>>, ghost rules: seq<Tree>)
    requires Parts(parts, rules) && a.Length == 2 + Start(rules, |rules|)
    requires a[0] == Node(NGrammar, 0, 0, |parts|)
    modifies a
    ensures Brackets(a[..], rules)
    ensures forall k :: 0 <= k < |rules| ==> FreshRule(a[..], rules, k)
  {
    hide Holds, Size, FreshRule, Start;
    StartZero(rules);
    var nd := 1;
    for k := 0 to |parts|
      invariant nd == 1 + Start(rules, k)
      invariant a[0] == Node(NGrammar, 0, 0, |parts|)
      invariant forall i :: 0 <= i < k ==> FreshRule(a[..], rules, i)
    {
      ghost var before := a[..];
      StartNext(rules, k);
      a[nd] := Node(NRule, k % 256, 0, |parts[k]| + 1);
      CopyTree(a, nd + 1, parts[k]);
      HoldsMoved(parts[k], 0, a[..], nd + 1, rules[k], Open);
      NewRule(a[..], rules, k);
      forall i | 0 <= i < k ensures FreshRule(a[..], rules, i) {
        StartMonotone(rules, i, k);
        StartNext(rules, i);
        FreshKept(before, a[..], rules, i);
      }
      nd := nd + 1 + |parts[k]|;
    }
    ghost var before := a[..];
    a[nd] := WithTag(a[nd], NTrue);
    forall i | 0 <= i < |rules| ensures FreshRule(a[..], rules, i) {
      StartNext(rules, i);
      FreshKept(before, a[..], rules, i);
    }
  }

  lemma StartZero(rules: seq<Tree>)
    ensures Start(rules, 0) == 0
  {
  }

  lemma StartNext(rules: seq<Tree>, k: nat)
    requires k < |rules|
    ensures Start(rules, k + 1) == Start(rules, k) + 1 + Size(rules[k]) <= Start(rules, |rules|)
  {
    StartMonotone(rules, k, |rules|);
  }

  lemma NewRule(a: seq<Node>, rules: seq<Tree>, k: nat)
    requires k < |rules| && 1 + Start(rules, k) < |a|
    requires a[1 + Start(rules, k)] == Node(NRule, k % 256, 0, 1 + Size(rules[k]))
    requires Holds(a, 2 + Start(rules, k), rules[k], Open)
    ensures FreshRule(a, rules, k)
  {
  }

  /** After `finalfix` has been through the first `done` rules. */
  ghost predicate Progress(a: seq<Node>, rules: seq<Tree>, done: nat) {
    && Brackets(a, rules)
    && forall i :: 0 <= i < |rules| ==>
      && (if i < done then RuleAt(a, rules, i, Fixed(rules[i]), Closed(0, rules))
          else RuleAt(a, rules, i, rules[i], Open))
      && a[1 + Start(rules, i)].key == if CalledBefore(rules, done, i) then i + 1 else 0
  }

  /** One of the first `done` rules calls rule `i`. */
  ghost predicate CalledBefore(rules: seq<Tree>, done: nat, i: nat) {
    exists m :: 0 <= m < done && m < |rules| && Calls(rules[m], i)
  }

  /** No node of the pattern of rule `k` is a rule of the same grammar. */
  lemma BodyIsNoRule(rules: seq<Tree>, k: nat, j: int, n: nat)
    requires k < |rules| && 1 + Start(rules, k) < j < 1 + Start(rules, k + 1)
    ensures !IsRule(Closed(0, rules), j, n)
  {
    StartNext(rules, k);
    if n < k && n < |rules| { StartMonotone(rules, n, k); }
    if k < n && n < |rules| { StartMonotone(rules, k, n); }
  }

  lemma ProgressRule(a: seq<Node>, rules: seq<Tree>, k: nat, n: nat)
    requires n < |rules| && Progress(a, rules, k)
    ensures var j := 1 + Start(rules, n); j < |a| && a[j].Node? && a[j].tag == NRule
  {
    hide Holds, Size, Start, Fixed, CalledBefore;
  }

  lemma ProgressApart(a: seq<Node>, rules: seq<Tree>, k: nat)
    requires k < |rules| && Progress(a, rules, k)
    ensures Apart(a, 2 + Start(rules, k), Size(rules[k]), Closed(0, rules))
  {
    hide Holds, Size, Start, Fixed, CalledBefore;
    StartNext(rules, k);
    forall n | 0 <= n < |rules|
      ensures var j := 1 + Start(rules, n);
        j < |a| && !(2 + Start(rules, k) <= j < 2 + Start(rules, k) + Size(rules[k])) && a[j].Node? && a[j].tag == NRule
    {
      ProgressRule(a, rules, k, n);
      hide Progress;
      var j := 1 + Start(rules, n);
      if 1 + Start(rules, k) < j < 1 + Start(rules, k + 1) { BodyIsNoRule(rules, k, j, n); }
    }
  }

  /** The other rules keep their patterns while one rule is fixed. */
  lemma OtherRules(a: seq<Node>, b: seq<Node>, rules: seq<Tree>, k: nat, i: nat, t: Tree, link: Link)
    requires k < |rules| && i < |rules| && i != k
    requires OnlyKeys(a, b, 2 + Start(rules, k), rules[k], Closed(0, rules))
    requires RuleAt(a, rules, i, t, link) && Size(t) == Size(rules[i])
    ensures RuleAt(b, rules, i, t, link)
  {
    hide Holds, Size, KeyAt, Start, IsRule;
    StartNext(rules, k);
    StartNext(rules, i);
    if i < k { StartMonotone(rules, i, k); } else { StartMonotone(rules, k, i); }
    var at := 1 + Start(rules, i);
    HoldsRoom(a, at + 1, t, link);
    forall j | at < j < at + 1 + Size(t) ensures b[j] == a[j] {
      forall n: nat { BodyIsNoRule(rules, i, j, n); }
      NoKey(rules[k], Closed(0, rules), j);
    }
    HoldsFrame(a, b, at + 1, t, link);
  }

  lemma ProgressStep(a: seq<Node>, b: seq<Node>, rules: seq<Tree>, k: nat)
    requires k < |rules| && Progress(a, rules, k)
    requires OnlyKeys(a, b, 2 + Start(rules, k), rules[k], Closed(0, rules))
    requires Holds(b, 2 + Start(rules, k), Fixed(rules[k]), Closed(0, rules))
    ensures Progress(b, rules, k + 1)
  {
    hide Holds, Size, RuleAt, OnlyKeys, Fixed, Start, Brackets, Calls;
    forall i | 0 <= i < |rules|
      ensures if i < k + 1 then RuleAt(b, rules, i, Fixed(rules[i]), Closed(0, rules))
        else RuleAt(b, rules, i, rules[i], Open)
      ensures 1 + Start(rules, i) < |b| && b[1 + Start(rules, i)].Node?
      ensures b[1 + Start(rules, i)].key == if CalledBefore(rules, k + 1, i) then i + 1 else 0
    {
      FixedShape(rules[i]);
      RuleNode(a, rules, i, if i < k then Fixed(rules[i]) else rules[i], if i < k then Closed(0, rules) else Open);
      RuleKey(a, b, rules, k, i);
      assert CalledBefore(rules, k + 1, i) <==> CalledBefore(rules, k, i) || Calls(rules[k], i);
      if i == k {
        FixedRule(a, b, rules, k);
      } else {
        OtherRules(a, b, rules, k, i, if i < k then Fixed(rules[i]) else rules[i],
                   if i < k then Closed(0, rules) else Open);
      }
    }
    BracketsKept(a, b, rules, k);
  }

  lemma RuleNode(a: seq<Node>, rules: seq<Tree>, k: nat, t: Tree, link: Link)
    requires k < |rules| && RuleAt(a, rules, k, t, link)
    ensures 1 + Start(rules, k) < |a| && a[1 + Start(rules, k)].Node?
  {
  }

  lemma RuleKey(a: seq<Node>, b: seq<Node>, rules: seq<Tree>, k: nat, i: nat)
    requires k < |rules| && i < |rules| && 1 + Start(rules, i) < |a| && a[1 + Start(rules, i)].Node?
    requires OnlyKeys(a, b, 2 + Start(rules, k), rules[k], Closed(0, rules))
    ensures |a| == |b|
    ensures b[1 + Start(rules, i)] == Keyed(a[1 + Start(rules, i)], if Calls(rules[k], i) then i + 1 else 0)
  {
    hide KeyAt, Calls, Size, Start;
    var j := 1 + Start(rules, i);
    StartNext(rules, k);
    if 1 + Start(rules, k) < j < 1 + Start(rules, k + 1) { BodyIsNoRule(rules, k, j, i); }
    KeyAtIs(rules[k], Closed(0, rules), j, i);
  }

  lemma FixedRule(a: seq<Node>, b: seq<Node>, rules: seq<Tree>, k: nat)
    requires k < |rules| && RuleAt(a, rules, k, rules[k], Open)
    requires OnlyKeys(a, b, 2 + Start(rules, k), rules[k], Closed(0, rules))
    requires Holds(b, 2 + Start(rules, k), Fixed(rules[k]), Closed(0, rules))
    ensures RuleAt(b, rules, k, Fixed(rules[k]), Closed(0, rules))
  {
    hide Holds, Size, Start;
    RuleKey(a, b, rules, k, k);
  }

  lemma BracketsKept(a: seq<Node>, b: seq<Node>, rules: seq<Tree>, k: nat)
    requires k < |rules| && Brackets(a, rules)
    requires OnlyKeys(a, b, 2 + Start(rules, k), rules[k], Closed(0, rules))
    ensures Brackets(b, rules)
  {
    hide KeyAt, Size, Start;
    StartNext(rules, k);
  }

  lemma {:induction false} FixedStart(rules: seq<Tree>, k: nat)
    requires k <= |rules|
    ensures Start(FixedRules(rules), k) == Start(rules, k)
    decreases k
  {
    hide Size, Fixed;
    if k > 0 {
      FixedStart(rules, k - 1);
      FixedShape(rules[k - 1]);
    }
  }

  lemma RootLink(node: Node, at: nat, t: Tree, was: Link, now: Link)
    requires Unary(t) && Root(node, at, t, was)
    ensures Root(node, at, t, now)
  {
  }

  lemma LeafLinks(a: seq<Node>, at: nat, t: Tree, was: Link, now: Link)
    requires !Unary(t) && !Binary(t) && !t.TCall? && Holds(a, at, t, was)
    ensures Holds(a, at, t, now)
  {
  }

  lemma CallLink(a: seq<Node>, at: nat, n: nat, rules: seq<Tree>)
    requires Holds(a, at, TCall(n), Closed(0, rules))
    ensures Holds(a, at, TCall(n), Closed(0, FixedRules(rules)))
  {
    hide Start, Fixed;
    FixedStart(rules, n);
  }

  /** Only the positions of the rules matter to a call. */
  lemma {:induction false} LinkFixed(a: seq<Node>, at: nat, t: Tree, rules: seq<Tree>)
    requires Holds(a, at, t, Closed(0, rules))
    ensures Holds(a, at, t, Closed(0, FixedRules(rules)))
    decreases t
  {
    hide Size, Start, Fixed, Holds, Root;
    var was, now := Closed(0, rules), Closed(0, FixedRules(rules));
    if Unary(t) {
      UnaryParts(a, at, t, was);
      LinkFixed(a, at + 1, t.p, rules);
      RootLink(a[at], at, t, was, now);
      UnaryParts(a, at, t, now);
    } else if Binary(t) {
      BinaryParts(a, at, t, was);
      LinkFixed(a, at + 1, t.p1, rules);
      LinkFixed(a, at + 1 + Size(t.p1), t.p2, rules);
      BinaryParts(a, at, t, now);
    } else if t.TCall? {
      CallLink(a, at, t.rule, rules);
    } else {
      LeafLinks(a, at, t, was, now);
    }
  }

  /** Once all rules are done, the array holds the grammar of the rearranged rules. */
  lemma {:induction false} RulesHold(a: seq<Node>, rules: seq<Tree>, k: nat)
    requires k <= |rules| && Progress(a, rules, |rules|)
    ensures HoldsRules(a, 0, FixedRules(rules), k, Closed(0, FixedRules(rules)))
    decreases |rules| - k
  {
    hide Holds, Size, Start, Fixed, CalledBefore;
    FixedStart(rules, k);
    if k < |rules| {
      RulesHold(a, rules, k + 1);
      FixedShape(rules[k]);
      LinkFixed(a, 2 + Start(rules, k), Fixed(rules[k]), rules);
    }
  }

  lemma GrammarHolds(a: seq<Node>, rules: seq<Tree>)
    requires Progress(a, rules, |rules|)
    ensures Holds(a, 0, TGrammar(FixedRules(rules)), Open)
  {
    hide Size, Start, Fixed, RuleAt, CalledBefore;
    SizeParts(TGrammar(FixedRules(rules)));
    FixedStart(rules, |rules|);
    RulesHold(a, rules, 0);
  }

  /** All calls in all rules have a rule to go to. */
  ghost predicate AllDefined(rules: seq<Tree>, k: nat) {
    forall m :: 0 <= m < k && m < |rules| ==> Defined(rules[m], Closed(0, rules))
  }

  lemma ProgressStart(a: seq<Node>, rules: seq<Tree>)
    requires Brackets(a, rules) && forall k :: 0 <= k < |rules| ==> FreshRule(a, rules, k)
    ensures Progress(a, rules, 0)
  {
    hide Holds, Start, Size;
    forall k | 0 <= k < |rules| ensures RuleAt(a, rules, k, rules[k], Open) && a[1 + Start(rules, k)].key == 0 {
      assert FreshRule(a, rules, k);
    }
  }

  lemma ProgressRead(a: seq<Node>, rules: seq<Tree>, k: nat)
    requires k <= |rules| && Progress(a, rules, k)
    ensures var t := 1 + Start(rules, k);
      && t < |a| && a[t].Node?
      && (a[t].tag == NRule <==> k < |rules|)
      && (k < |rules| ==> a[t].u == 1 + Size(rules[k]) && Holds(a, t + 1, rules[k], Open))
  {
    hide Holds, Start, Size, Fixed, CalledBefore;
  }

  /** `finalfix` on the list of rules of a grammar. */
  method FixRules(a: array<Node>, g: Host, ghost rules: seq<Tree>) returns (ok: bool)
    requires Agree(g, Closed(0, rules)) && Progress(a[..], rules, 0)
    modifies a
    ensures ok <==> AllDefined(rules, |rules|)
    ensures ok ==> Progress(a[..], rules, |rules|)
  {
    hide Holds, Start, Size, Progress, Fixed, Agree, Defined;
    StartZero(rules);
    var t := 1;
    ghost var k := 0;
    ProgressRead(a[..], rules, 0);
    while a[t].tag == NRule
      invariant k <= |rules| && t == 1 + Start(rules, k)
      invariant Progress(a[..], rules, k) && AllDefined(rules, k)
      invariant t < a.Length && a[t].Node? && (a[t].tag == NRule <==> k < |rules|)
      decreases |rules| - k
    {
      var size;
      ok, size := FixRule(a, g, t, k, rules);
      if !ok { return; }
      t := t + size;
      k := k + 1;
      ProgressRead(a[..], rules, k);
    }
    ok := true;
  }

  /** One round: fixes the pattern of rule `k` at `t`. */
  method FixRule(a: array<Node>, g: Host, t: nat, ghost k: nat, ghost rules: seq<Tree>) returns (ok: bool, size: nat)
    requires Agree(g, Closed(0, rules)) && k < |rules| && t == 1 + Start(rules, k) && Progress(a[..], rules, k)
    modifies a
    ensures ok <==> Defined(rules[k], Closed(0, rules))
    ensures ok ==> Progress(a[..], rules, k + 1) && t + size == 1 + Start(rules, k + 1)
  {
    hide Holds, Start, Size, Progress, Fixed, Agree, Defined, OnlyKeys, Apart;
    ghost var before := a[..];
    StartNext(rules, k);
    ProgressRead(before, rules, k);
    ProgressApart(before, rules, k);
    size := a[t].u;
    ok := FinalFix(a, g, t + 1, rules[k], Closed(0, rules));
    if ok { ProgressStep(before, a[..], rules, k); }
  }

  /** Giving the initial rule a name does not matter to the tree. */
  lemma NamedFirst(a: seq<Node>, b: seq<Node>, rules: seq<Tree>, name: nat)
    requires Progress(a, rules, |rules|) && |rules| > 0 && name > 0
    requires |a| > 1 && a[1].Node? && b == a[1 := a[1].(key := if a[1].key == 0 then name else a[1].key)]
    ensures Holds(b, 0, TGrammar(FixedRules(rules)), Open)
    ensures forall k :: 0 <= k < |rules| ==>
      1 + Start(rules, k) < |b| && b[1 + Start(rules, k)].Node? && (b[1 + Start(rules, k)].key != 0 <==> Used(rules, k))
  {
    hide Holds, Start, Size, Fixed, Used, CalledBefore;
    StartZero(rules);
    forall k | 0 <= k < |rules|
      ensures 1 + Start(rules, k) < |b| && b[1 + Start(rules, k)].Node?
      ensures b[1 + Start(rules, k)].key != 0 <==> Used(rules, k)
    {
      if k > 0 { StartMonotone(rules, 0, k); }
      UsedIs(rules, k);
    }
    GrammarHolds(a, rules);
    FirstKey(a, b, FixedRules(rules));
  }

  lemma UsedIs(rules: seq<Tree>, k: nat)
    requires k < |rules|
    ensures Used(rules, k) <==> k == 0 || CalledBefore(rules, |rules|, k)
  {
  }

  /** The key of the first rule is not part of what a grammar's nodes mean. */
  lemma FirstKey(a: seq<Node>, b: seq<Node>, rules: seq<Tree>)
    requires |rules| > 0 && Holds(a, 0, TGrammar(rules), Open)
    requires |a| > 1 && a[1].Node? && |b| == |a| && b[1].Node? && b[1] == a[1].(key := b[1].key)
    requires forall j :: 0 <= j < |a| && j != 1 ==> b[j] == a[j]
    ensures Holds(b, 0, TGrammar(rules), Open)
  {
    assert HoldsRules(a, 0, rules, 0, Closed(0, rules));
    hide Size, Start;
    StartZero(rules);
    SizeParts(TGrammar(rules));
    assert Holds(a, 2, rules[0], Closed(0, rules));
    HoldsRoom(a, 2, rules[0], Closed(0, rules));
    HoldsFrame(a, b, 2, rules[0], Closed(0, rules));
    RulesFrame(a, b, rules, 1);
  }

  lemma {:induction false} RulesFrame(a: seq<Node>, b: seq<Node>, rules: seq<Tree>, k: nat)
    requires 1 <= k <= |rules| && HoldsRules(a, 0, rules, k, Closed(0, rules)) && |b| == |a|
    requires forall j :: 2 <= j < |a| ==> b[j] == a[j]
    ensures HoldsRules(b, 0, rules, k, Closed(0, rules))
    decreases |rules| - k
  {
    hide Size, Start, Holds;
    StartMonotone(rules, 0, k);
    if k < |rules| {
      HoldsRoom(a, 2 + Start(rules, k), rules[k], Closed(0, rules));
      HoldsFrame(a, b, 2 + Start(rules, k), rules[k], Closed(0, rules));
      RulesFrame(a, b, rules, k + 1);
    }
  }

  /** lptree.c's `newgrammar` without `verifygrammar`. `name` is the ktable index for the name of an initial rule that
      nothing calls. */
  method NewGrammar(parts: seq<seq<Node>>, name: nat, ghost rules: seq<Tree>) returns (ok: bool, a: array<Node>)
    requires Parts(parts, rules) && |rules| > 0 && name > 0
    ensures ok <==> |rules| <= MAXRULES && AllDefined(rules, |rules|)
    ensures ok ==> a.Length == Size(TGrammar(rules)) && Holds(a[..], 0, TGrammar(FixedRules(rules)), Open)
    ensures ok ==> forall k :: 0 <= k < |rules| ==>
      && 1 + Start(rules, k) < a.Length && a[1 + Start(rules, k)].Node?
      && (a[1 + Start(rules, k)].key != 0 <==> Used(rules, k))
  {
    hide Holds, Start, Size, Progress, Fixed, Agree, Defined, AllDefined, Used, FreshRule;
    var postable, size := CollectRules(parts, rules);
    a := new Node[size];
    SizeParts(TGrammar(rules));
    if |parts| > MAXRULES { return false, a; }
    a[0] := Node(NGrammar, 0, 0, |parts|);
    BuildGrammar(a, parts, rules);
    ProgressStart(a[..], rules);
    ok := FixRules(a, Grammar(0, postable), rules);
    if !ok { return; }
    ghost var before := a[..];
    StartZero(rules);
    ProgressFirst(before, rules);
    if a[1].key == 0 { a[1] := a[1].(key := name); }
    assert a[..] == before[1 := before[1].(key := if before[1].key == 0 then name else before[1].key)];
    NamedFirst(before, a[..], rules, name);
  }

  lemma ProgressFirst(a: seq<Node>, rules: seq<Tree>)
    requires Progress(a, rules, |rules|) && |rules| > 0
    ensures |a| == 2 + Start(rules, |rules|) && |a| > 1 && a[1].Node?
  {
    hide Holds, Start, Size, Fixed, CalledBefore;
    StartZero(rules);
  }

  // ---------- Repetitions ----------

  /** The allocation of `lp_star` is exactly the size of its tree. */
  lemma {:induction false} StarSize(p: Tree, n: int)
    ensures Size(Star(p, n)) == if n >= 0 then (n + 1) * (Size(p) + 1) else -n * (Size(p) + 3) - 1
    decreases if n < 0 then -n else n
  {
    hide Size, Star;
    StarParts(p, n);
    if n > 0 {
      StarSize(p, n - 1);
      Distribute(n, 1, Size(p) + 1);
    } else if n < -1 {
      StarSize(p, n + 1);
      Distribute(-(n + 1), 1, Size(p) + 3);
    }
  }

  lemma Distribute(a: int, b: int, c: int)
    ensures (a + b) * c == a * c + b * c
  {
  }

  lemma StarParts(p: Tree, n: int)
    ensures n > 0 ==> Star(p, n) == TSeq(p, Star(p, n - 1)) && Size(Star(p, n)) == 1 + Size(p) + Size(Star(p, n - 1))
    ensures Star(p, 0) == TRep(p) && Size(TRep(p)) == 1 + Size(p)
    ensures Star(p, -1) == TChoice(p, TTrue) && Size(Star(p, -1)) == 2 + Size(p)
    ensures n < -1 ==>
      && Star(p, n) == TChoice(TSeq(p, Star(p, n + 1)), TTrue)
      && Size(Star(p, n)) == 3 + Size(p) + Size(Star(p, n + 1))
  {
    assert Size(TTrue) == 1;
    hide Size;
    var u := Star(p, n);
    SizeParts(u);
    if n < -1 { SizeParts(u.p1); }
    SizeParts(TRep(p));
    SizeParts(TChoice(p, TTrue));
  }

  /** The nodes that one round of `lp_star` leaves at `t`, with `n` still to go. */
  ghost predicate Level(a: seq<Node>, p: Tree, t: nat, n: int) {
    && t + Size(Star(p, n)) <= |a|
    && (n > 0 ==> a[t].Node? && a[t].tag == NSeq && a[t].u == 1 + Size(p) && Holds(a, t + 1, p, Open))
    && (n < -1 ==>
      && var last := t + Size(Star(p, n)) - 1;
      && a[t].Node? && a[t].tag == NChoice && t + a[t].u == last
      && a[last].Node? && a[last].tag == NTrue
      && t + 1 < |a| && a[t + 1].Node? && a[t + 1].tag == NSeq && a[t + 1].u == 1 + Size(p)
      && Holds(a, t + 2, p, Open))
  }

  /** How far the next level is. */
  function Stride(p: Tree, n: int): nat {
    if n > 0 then 1 + Size(p) else 2 + Size(p)
  }

  function Next(n: int): int {
    if n > 0 then n - 1 else n + 1
  }

  /** All levels from `t` with `n` to go down to `m` to go are in place. */
  ghost predicate Levels(a: seq<Node>, p: Tree, t: nat, n: int, m: int)
    requires 0 <= m <= n || n <= m <= -1
    decreases if n < 0 then -n else n
  {
    n != m ==> Level(a, p, t, n) && Levels(a, p, t + Stride(p, n), Next(n), m)
  }

  /** Where the levels with `m` to go begin. */
  function LevelAt(p: Tree, t: nat, n: int, m: int): nat
    requires 0 <= m <= n || n <= m <= -1
    decreases if n < 0 then -n else n
  {
    if n == m then t else LevelAt(p, t + Stride(p, n), Next(n), m)
  }

  lemma LevelHolds(a: seq<Node>, p: Tree, t: nat, n: int)
    requires n > 0 || n < -1
    requires Level(a, p, t, n) && Holds(a, t + Stride(p, n), Star(p, Next(n)), Open)
    ensures Holds(a, t, Star(p, n), Open)
  {
    hide Holds, Size, Star;
    StarParts(p, n);
    var u := Star(p, n);
    SizeParts(u);
    if n < 0 {
      SizeParts(u.p1);
      BinaryParts(a, t + 1, u.p1, Open);
      TrueHolds(a, t + a[t].u);
    }
    BinaryParts(a, t, u, Open);
  }

  lemma TrueHolds(a: seq<Node>, t: nat)
    requires t < |a| && a[t].Node? && a[t].tag == NTrue
    ensures Holds(a, t, TTrue, Open) && Size(TTrue) == 1
  {
  }

  lemma {:induction false} LevelsHold(a: seq<Node>, p: Tree, t: nat, n: int, m: int)
    requires 0 == m <= n || n <= m == -1
    requires Levels(a, p, t, n, m) && Holds(a, LevelAt(p, t, n, m), Star(p, m), Open)
    ensures Holds(a, t, Star(p, n), Open)
    decreases if n < 0 then -n else n
  {
    hide Holds, Level, Star;
    if n != m {
      LevelsHold(a, p, t + Stride(p, n), Next(n), m);
      LevelHolds(a, p, t, n);
    }
  }

  /** Levels are not disturbed by writing where the rest of the tree goes. */
  lemma LevelKept(a: seq<Node>, b: seq<Node>, p: Tree, t: nat, n: int, lo: nat, hi: nat)
    requires n > 0 || n < -1
    requires Level(a, p, t, n) && |a| == |b|
    requires t + Stride(p, n) <= lo && (n < 0 ==> hi < t + Size(Star(p, n)))
    requires forall j :: 0 <= j < |a| && !(lo <= j < hi) ==> b[j] == a[j]
    ensures Level(b, p, t, n)
  {
    hide Holds, Size, Star;
    StarParts(p, n);
    if n > 0 {
      HoldsFrame(a, b, t + 1, p, Open);
    } else {
      HoldsFrame(a, b, t + 2, p, Open);
    }
  }

  lemma {:induction false} LevelsKept(a: seq<Node>, b: seq<Node>, p: Tree, t: nat, n: int, m: int)
    requires 0 <= m <= n || n <= m <= -1
    requires Levels(a, p, t, n, m) && |a| == |b|
    requires forall j :: 0 <= j < |a| && !(LevelAt(p, t, n, m) <= j < LevelAt(p, t, n, m) + Size(Star(p, m))) ==>
      b[j] == a[j]
    ensures Levels(b, p, t, n, m)
    decreases if n < 0 then -n else n
  {
    hide Level, Size, Star, Holds;
    if n != m {
      LevelsKept(a, b, p, t + Stride(p, n), Next(n), m);
      Inside(p, t + Stride(p, n), Next(n), m);
      StarParts(p, n);
      LevelKept(a, b, p, t, n, LevelAt(p, t, n, m), LevelAt(p, t, n, m) + Size(Star(p, m)));
    }
  }

  /** What is still to be written lies inside of the tree. */
  lemma {:induction false} Inside(p: Tree, t: nat, n: int, m: int)
    requires 0 <= m <= n || n <= m <= -1
    ensures t <= LevelAt(p, t, n, m)
    ensures LevelAt(p, t, n, m) + Size(Star(p, m)) <= t + Size(Star(p, n))
    decreases if n < 0 then -n else n
  {
    hide Size, Star;
    if n != m {
      Inside(p, t + Stride(p, n), Next(n), m);
      StarParts(p, n);
    }
  }

  lemma {:induction false} LevelsMore(a: seq<Node>, p: Tree, t: nat, n: int, m: int)
    requires 0 < m <= n || n <= m < -1
    requires Levels(a, p, t, n, m) && Level(a, p, LevelAt(p, t, n, m), m)
    ensures Levels(a, p, t, n, Next(m))
    ensures LevelAt(p, t, n, Next(m)) == LevelAt(p, t, n, m) + Stride(p, m)
    decreases if n < 0 then -n else n
  {
    hide Level, Size;
    if n != m { LevelsMore(a, p, t + Stride(p, n), Next(n), m); }
  }

  /** lptree.c's `seqaux` */
  method SeqAux(a: array<Node>, t: nat, part: seq<Node>, ghost p: Tree) returns (sib2: nat)
    requires Holds(part, 0, p, Open) && |part| == Size(p) && t + 1 + |part| <= a.Length
    modifies a
    ensures sib2 == t + 1 + Size(p)
    ensures a[t].Node? && a[t].tag == NSeq && a[t].u == 1 + Size(p) && Holds(a[..], t + 1, p, Open)
    ensures forall j :: 0 <= j < a.Length && !(t <= j < sib2) ==> a[j] == old(a[j])
  {
    hide Holds, Size;
    a[t] := WithTagU(a[t], NSeq, |part| + 1);
    CopyTree(a, t + 1, part);
    HoldsMoved(part, 0, a[..], t + 1, p, Open);
    sib2 := t + a[t].u;
  }

  /** The first half of `lp_star`: at least `n` repetitions. */
  method AtLeastTree(part: seq<Node>, n: nat, ghost p: Tree) returns (a: array<Node>)
    requires Holds(part, 0, p, Open) && |part| == Size(p)
    ensures fresh(a) && a.Length == Size(Star(p, n)) && Holds(a[..], 0, Star(p, n), Open)
  {
    hide Holds, Size, Star, Level;
    StarSize(p, n);
    StarParts(p, 0);
    a := new Node[(n + 1) * (|part| + 1)];
    var t, k := 0, n;
    while k > 0
      invariant 0 <= k <= n && t == LevelAt(p, 0, n, k) && Levels(a[..], p, 0, n, k)
    {
      ghost var before := a[..];
      StarParts(p, k);
      Inside(p, 0, n, k);
      var next := SeqAux(a, t, part, p);
      NewLevel(a[..], p, t, k);
      LevelsKept(before, a[..], p, 0, n, k);
      LevelsMore(a[..], p, 0, n, k);
      t, k := next, k - 1;
    }
    Inside(p, 0, n, 0);
    ghost var before := a[..];
    a[t] := WithTag(a[t], NRep);
    CopyTree(a, t + 1, part);
    HoldsMoved(part, 0, a[..], t + 1, p, Open);
    RepHolds(a[..], t, p);
    LevelsKept(before, a[..], p, 0, n, 0);
    LevelsHold(a[..], p, 0, n, 0);
  }

  lemma RepHolds(a: seq<Node>, t: nat, p: Tree)
    requires t < |a| && a[t].Node? && a[t].tag == NRep && Holds(a, t + 1, p, Open)
    ensures Holds(a, t, TRep(p), Open)
  {
  }

  lemma NewLevel(a: seq<Node>, p: Tree, t: nat, n: int)
    requires n > 0 && t + Size(Star(p, n)) <= |a| && t < |a|
    requires a[t].Node? && a[t].tag == NSeq && a[t].u == 1 + Size(p) && Holds(a, t + 1, p, Open)
    ensures Level(a, p, t, n)
  {
  }

  lemma NewLevelDown(a: seq<Node>, p: Tree, t: nat, n: int)
    requires n < -1 && t + Size(Star(p, n)) <= |a| && t + 1 < |a|
    requires a[t].Node? && a[t].tag == NChoice && a[t].u == Size(Star(p, n)) - 1
    requires var last := t + Size(Star(p, n)) - 1; a[last].Node? && a[last].tag == NTrue
    requires a[t + 1].Node? && a[t + 1].tag == NSeq && a[t + 1].u == 1 + Size(p) && Holds(a, t + 2, p, Open)
    ensures Level(a, p, t, n)
  {
  }

  /** The second half of `lp_star`: at most `m` repetitions. */
  method AtMostTree(part: seq<Node>, m: nat, ghost p: Tree) returns (a: array<Node>)
    requires Holds(part, 0, p, Open) && |part| == Size(p) && m > 0
    ensures fresh(a) && a.Length == Size(Star(p, 0 - m)) && Holds(a[..], 0, Star(p, 0 - m), Open)
  {
    hide Holds, Size, Star, Level, Levels, LevelAt;
    StarSize(p, 0 - m);
    a := new Node[m * (|part| + 3) - 1];
    var t, n := 0, m;
    NoLevels(a[..], p, 0 - m);
    while n > 1
      invariant 1 <= n <= m && t == LevelAt(p, 0, 0 - m, 0 - n) && Levels(a[..], p, 0, 0 - m, 0 - n)
    {
      Inside(p, 0, 0 - m, 0 - n);
      ghost var before := a[..];
      var next := OptionLevel(a, t, part, n, p);
      LevelsKept(before, a[..], p, 0, 0 - m, 0 - n);
      LevelsMore(a[..], p, 0, 0 - m, 0 - n);
      t, n := next, n - 1;
    }
    Inside(p, 0, 0 - m, -1);
    ghost var before := a[..];
    LastOption(a, t, part, p);
    LevelsKept(before, a[..], p, 0, 0 - m, -1);
    LevelsHold(a[..], p, 0, 0 - m, -1);
  }

  lemma NoLevels(a: seq<Node>, p: Tree, n: int)
    ensures Levels(a, p, 0, n, n) && LevelAt(p, 0, n, n) == 0
  {
  }

  /** The innermost option has no sequence. */
  method LastOption(a: array<Node>, t: nat, part: seq<Node>, ghost p: Tree)
    requires Holds(part, 0, p, Open) && |part| == Size(p) && t + Size(Star(p, -1)) <= a.Length
    modifies a
    ensures Holds(a[..], t, Star(p, -1), Open)
    ensures forall j :: 0 <= j < a.Length && !(t <= j < t + Size(Star(p, -1))) ==> a[j] == old(a[j])
  {
    hide Holds, Size, Star;
    StarParts(p, -1);
    a[t] := WithTagU(a[t], NChoice, |part| + 1);
    var sib2 := t + a[t].u;
    a[sib2] := WithTag(a[sib2], NTrue);
    CopyTree(a, t + 1, part);
    HoldsMoved(part, 0, a[..], t + 1, p, Open);
    TrueHolds(a[..], sib2);
    BinaryParts(a[..], t, Star(p, -1), Open);
  }

  /** One round of the loop. */
  method OptionLevel(a: array<Node>, t: nat, part: seq<Node>, n: nat, ghost p: Tree) returns (next: nat)
    requires Holds(part, 0, p, Open) && |part| == Size(p) && n > 1
    requires t + Size(Star(p, 0 - n)) <= a.Length
    modifies a
    ensures Level(a[..], p, t, 0 - n) && next == t + Stride(p, 0 - n)
    ensures forall j :: 0 <= j < a.Length && !(t <= j < t + Size(Star(p, 0 - n))) ==> a[j] == old(a[j])
  {
    hide Holds, Size, Star, Level;
    StarSize(p, 0 - n);
    StarParts(p, 0 - n);
    a[t] := WithTagU(a[t], NChoice, n * (|part| + 3) - 2);
    var sib2 := t + a[t].u;
    a[sib2] := WithTag(a[sib2], NTrue);
    next := SeqAux(a, t + 1, part, p);
    NewLevelDown(a[..], p, t, 0 - n);
  }

  /** lptree.c's `lp_star`; `nullable` is the answer of `nullable(tree1)`. */
  method StarTree(part: seq<Node>, n: int, nullable: bool, ghost p: Tree) returns (ok: bool, a: array<Node>)
    requires Holds(part, 0, p, Open) && |part| == Size(p)
    ensures ok <==> n < 0 || !nullable
    ensures ok ==> fresh(a) && a.Length == Size(Star(p, n)) && Holds(a[..], 0, Star(p, n), Open)
  {
    if n >= 0 {
      if nullable { return false, new Node[0]; }
      ok := true;
      a := AtLeastTree(part, n, p);
    } else {
      ok := true;
      a := AtMostTree(part, -n, p);
    }
  }

  // ---------- Strings and numbers ----------

  /** What `fillseq` has to build from a string, or without one from `n` times `TAny`. */
  function Filled(n: nat, s: seq<Byte>): Tree
    requires n > 0 && (s == [] || |s| == n)
  {
    if s == [] then Anys(n) else Literal(s)
  }

  lemma FilledParts(n: nat, s: seq<Byte>)
    requires n > 0 && (s == [] || |s| == n)
    ensures n == 1 ==> Filled(n, s) == if s == [] then TAny else TChar(s[0])
    ensures n > 1 ==>
      Filled(n, s) == TSeq(if s == [] then TAny else TChar(s[0]), Filled(n - 1, if s == [] then s else s[1..]))
  {
  }

  lemma {:induction false} FilledSize(n: nat, s: seq<Byte>)
    requires n > 0 && (s == [] || |s| == n)
    ensures Size(Filled(n, s)) == 2 * n - 1
    decreases n
  {
    hide Filled;
    FilledParts(n, s);
    if n > 1 { FilledSize(n - 1, if s == [] then s else s[1..]); }
  }

  /** The node that `fillseq` writes for one character. */
  ghost predicate Unit(node: Node, s: seq<Byte>, i: nat)
    requires s == [] || i < |s|
  {
    node.Node? && if s == [] then node.tag == NAny else node.tag == NChar && node.u == s[i]
  }

  /** The pairs of nodes from number `i` on to number `k`, of a sequence that begins at `t`. */
  ghost predicate Pairs(a: seq<Node>, t: nat, s: seq<Byte>, k: nat)
    requires s == [] || k <= |s|
  {
    && t + 2 * k <= |a|
    && forall i :: 0 <= i < k ==>
      a[t + 2 * i].Node? && a[t + 2 * i].tag == NSeq && a[t + 2 * i].u == 2 && Unit(a[t + 2 * i + 1], s, i)
  }

  lemma {:induction false} PairsHold(a: seq<Node>, t: nat, s: seq<Byte>, n: nat, i: nat)
    requires i < n && (s == [] || |s| == n)
    requires Pairs(a, t, s, n - 1) && t + 2 * n - 1 <= |a| && Unit(a[t + 2 * (n - 1)], s, n - 1)
    ensures Holds(a, t + 2 * i, Filled(n - i, if s == [] then s else s[i..]), Open)
    decreases n - i
  {
    hide Filled, Size, Holds, Unit;
    var rest := if s == [] then s else s[i..];
    FilledParts(n - i, rest);
    UnitHolds(a, t + 2 * (n - 1), s, n - 1);
    if i < n - 1 {
      PairsHold(a, t, s, n, i + 1);
      assert s != [] ==> rest[1..] == s[i + 1..];
      var u := Filled(n - i, rest);
      UnitHolds(a, t + 2 * i + 1, s, i);
      SizeParts(u);
      HoldsRoom(a, t + 2 * (i + 1), u.p2, Open);
      BinaryParts(a, t + 2 * i, u, Open);
    }
  }

  lemma UnitHolds(a: seq<Node>, t: nat, s: seq<Byte>, i: nat)
    requires t < |a| && (s == [] || i < |s|) && Unit(a[t], s, i)
    ensures var u := if s == [] then TAny else TChar(s[i]); Holds(a, t, u, Open) && Size(u) == 1
  {
  }

  lemma UnitIs(node: Node, tag: Tag, s: seq<Byte>, i: nat)
    requires s == [] || i < |s|
    requires if s == [] then tag == NAny else tag == NChar
    requires node.Node? && node.tag == tag && node.u == if s == [] then 0 else s[i]
    ensures Unit(node, s, i)
  {
  }

  /** lptree.c's `fillseq` */
  method FillSeq(a: array<Node>, t: nat, tag: Tag, n: nat, s: seq<Byte>)
    requires n > 0 && t + 2 * n - 1 <= a.Length
    requires if s == [] then tag == NAny else tag == NChar && |s| == n
    modifies a
    ensures Holds(a[..], t, Filled(n, s), Open)
    ensures forall j :: 0 <= j < t ==> a[j] == old(a[j])
  {
    hide Holds, Filled, Unit;
    var tree := t;
    for i := 0 to n - 1
      invariant tree == t + 2 * i && Pairs(a[..], t, s, i)
      invariant forall j :: 0 <= j < t ==> a[j] == old(a[j])
    {
      ghost var before := a[..];
      a[tree] := WithTagU(a[tree], NSeq, 2);
      a[tree + 1] := WithTagU(a[tree + 1], tag, if s == [] then 0 else s[i]);
      UnitIs(a[tree + 1], tag, s, i);
      assert forall j :: 0 <= j < tree ==> a[j] == before[j];
      tree := tree + a[tree].u;
    }
    ghost var before := a[..];
    a[tree] := WithTagU(a[tree], tag, if s == [] then 0 else s[n - 1]);
    UnitIs(a[tree], tag, s, n - 1);
    assert forall j :: 0 <= j < tree ==> a[j] == before[j];
    PairsHold(a[..], t, s, n, 0);
    assert s != [] ==> s[0..] == s;
  }

  /** lptree.c's `numtree` */
  method NumTree(n: int) returns (a: array<Node>)
    ensures a.Length == Size(Num(n)) && Holds(a[..], 0, Num(n), Open)
  {
    hide Holds, Size, Filled, Num;
    NumParts(n);
    if n == 0 {
      a := new Node[1];
      a[0] := WithTag(a[0], NTrue);
      TrueHolds(a[..], 0);
    } else if n > 0 {
      a := new Node[2 * n - 1];
      FillSeq(a, 0, NAny, n, []);
      FilledSize(n, []);
    } else {
      a := new Node[2 * -n];
      a[0] := WithTag(a[0], NNot);
      FillSeq(a, 1, NAny, -n, []);
      FilledSize(-n, []);
      SizeParts(Num(n));
      UnaryParts(a[..], 0, Num(n), Open);
    }
  }

  lemma NumParts(n: int)
    ensures Num(n) == if n == 0 then TTrue else if n > 0 then Filled(n, []) else TNot(Filled(-n, []))
  {
  }
}
