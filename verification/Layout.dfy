/** Pattern trees as lptree.c stores them: a tree is a run of nodes in an array, the first sibling of a node follows it
    directly and the second is found by a relative offset. Building and rearranging trees happens in place. */
module Layout {
  import opened Common
  import opened Patterns
  import opened Analysis
  import opened Grammars
  import opened Builders
  import opened CodeGen

  /** lptree.h's tags. */
  datatype Tag =
    | NChar | NSet | NAny | NTrue | NFalse | NRep | NSeq | NChoice | NNot | NAnd | NCall | NOpenCall | NRule | NGrammar
    | NBehind | NCapture

  /** One slot: a node, where `u` is the union of offset and counter, or a part of the bitmap of a set. */
  datatype Node = Node(tag: Tag, cap: Byte, key: nat, u: int) | Bits(cs: Charset, part: nat)

  /** bytes2slots(CHARSETSIZE) */
  const SETSLOTS: nat := 4

  /** Writes to fields of a slot; the fields not written keep whatever was there. */
  function WithTag(n: Node, tag: Tag): Node {
    if n.Node? then n.(tag := tag) else Node(tag, 0, 0, 0)
  }

  function WithTagU(n: Node, tag: Tag, u: int): Node {
    if n.Node? then Node(tag, n.cap, n.key, u) else Node(tag, 0, 0, u)
  }

  /** The number of slots of a tree. */
  function Size(t: Tree): (n: nat)
    ensures n > 0
    decreases t, 0
  {
    match t
    case TSet(_) => 1 + SETSLOTS
    case TRep(p) => 1 + Size(p)
    case TSeq(p1, p2) => 1 + Size(p1) + Size(p2)
    case TChoice(p1, p2) => 1 + Size(p1) + Size(p2)
    case TNot(p) => 1 + Size(p)
    case TAnd(p) => 1 + Size(p)
    case TGrammar(rules) => 2 + Start(rules, |rules|)
    case TBehind(_, p) => 1 + Size(p)
    case TCapture(_, _, p) => 1 + Size(p)
    case _ => 1
  }

  /** How many slots the first `k` rules take. */
  function Start(rules: seq<Tree>, k: nat): nat
    requires k <= |rules|
    decreases rules, k
  {
    if k == 0 then 0 else Start(rules, k - 1) + 1 + Size(rules[k - 1])
  }

  /** Calls are still open, or they have been directed to the rules of the grammar at `base`. */
  datatype Link = Open | Closed(base: nat, rules: seq<Tree>)

  predicate Unary(t: Tree) {
    t.TRep? || t.TNot? || t.TAnd? || t.TBehind? || t.TCapture?
  }

  predicate Binary(t: Tree) {
    t.TSeq? || t.TChoice?
  }

  /** The node at `at` is the root of the tree `t`. */
  ghost predicate Root(node: Node, at: nat, t: Tree, link: Link) {
    && node.Node?
    && match t
       case TChar(c) => node.tag == NChar && node.u == c
       case TSet(cs) => node.tag == NSet
       case TAny => node.tag == NAny
       case TTrue => node.tag == NTrue
       case TFalse => node.tag == NFalse
       case TRep(_) => node.tag == NRep
       case TSeq(p1, _) => node.tag == NSeq && node.u == 1 + Size(p1)
       case TChoice(p1, _) => node.tag == NChoice && node.u == 1 + Size(p1)
       case TNot(_) => node.tag == NNot
       case TAnd(_) => node.tag == NAnd
       case TCall(n) =>
         && node.key == n + 1
         && if link.Open? then node.tag == NOpenCall
            else node.tag == NCall && n < |link.rules| && at + node.u == link.base + 1 + Start(link.rules, n)
       case TGrammar(rules) => node.tag == NGrammar && node.u == |rules|
       case TBehind(n, _) => node.tag == NBehind && node.u == n
       case TCapture(kind, key, _) => node.tag == NCapture && node.cap == kind && node.key == key
  }

  /** The nodes from `at` on are the tree `t`. */
  ghost predicate Holds(a: seq<Node>, at: nat, t: Tree, link: Link)
    decreases t, 0
  {
    && at + Size(t) <= |a|
    && Root(a[at], at, t, link)
    && (Unary(t) ==> Holds(a, at + 1, t.p, link))
    && (Binary(t) ==> Holds(a, at + 1, t.p1, link) && Holds(a, at + 1 + Size(t.p1), t.p2, link))
    && (t.TSet? ==> forall k :: 0 <= k < SETSLOTS ==> a[at + 1 + k] == Bits(t.cs, k))
    && (t.TGrammar? ==> HoldsRules(a, at, t.rules, 0, Closed(at, t.rules)))
  }

  /** The nodes of a grammar at `base` hold the rules from number `k` on. */
  ghost predicate HoldsRules(a: seq<Node>, base: nat, rules: seq<Tree>, k: nat, link: Link)
    requires k <= |rules|
    decreases rules, |rules| - k
  {
    var at := base + 1 + Start(rules, k);
    && at < |a|
    && a[at].Node?
    && if k == |rules| then a[at].tag == NTrue
       else
         && a[at].tag == NRule
         && a[at].cap == k % 256
         && a[at].u == 1 + Size(rules[k])
         && Holds(a, at + 1, rules[k], link)
         && HoldsRules(a, base, rules, k + 1, link)
  }

  lemma {:induction false} StartMonotone(rules: seq<Tree>, j: nat, k: nat)
    requires j < k <= |rules|
    ensures Start(rules, j) + 1 + Size(rules[j]) <= Start(rules, k)
    decreases k
  {
    if j < k - 1 { StartMonotone(rules, j, k - 1); }
  }

  lemma {:induction false} RuleNode(a: seq<Node>, base: nat, rules: seq<Tree>, k: nat, n: nat, link: Link)
    requires k <= n < |rules| && HoldsRules(a, base, rules, k, link)
    ensures var at := base + 1 + Start(rules, n); at < |a| && a[at].Node? && a[at].tag == NRule && a[at].cap == n % 256
    decreases n - k
  {
    hide Holds;
    if k < n { RuleNode(a, base, rules, k + 1, n, link); }
  }

  /** What `codecall` reads: the second sibling of a call of rule `n` is a rule node, and the number in it is `n` in a
      byte. */
  lemma CalledNumber(a: seq<Node>, x: nat, n: nat, base: nat, rules: seq<Tree>)
    requires Holds(a, base, TGrammar(rules), Open) && Holds(a, x, TCall(n), Closed(base, rules))
    ensures var sib2 := x + a[x].u;
      0 <= sib2 < |a| && a[sib2].Node? && a[sib2].tag == NRule && a[sib2].cap == RuleNumber(AsIs, n)
  {
    RuleNode(a, base, rules, 0, n, Closed(base, rules));
  }

  // ---------- Trees do not depend on where they are ----------

  /** `Closed` calls move along with their grammar. */
  function Moved(link: Link, d: int): (l: Link)
    requires link.Closed? ==> link.base + d >= 0
  {
    if link.Open? then link else Closed(link.base + d, link.rules)
  }

  /** The `n` slots from `at` on in `a` are those from `bt` on in `b`. */
  ghost predicate SameBlock(a: seq<Node>, at: nat, b: seq<Node>, bt: nat, n: nat) {
    at + n <= |a| && bt + n <= |b| && forall j :: at <= j < at + n ==> a[j] == b[j - at + bt]
  }

  lemma SubBlock(a: seq<Node>, at: nat, b: seq<Node>, bt: nat, n: nat, x: nat, m: nat)
    requires SameBlock(a, at, b, bt, n) && x + m <= n
    ensures SameBlock(a, at + x, b, bt + x, m)
    ensures at + n <= |a| && bt + n <= |b|
    ensures x < n ==> a[at + x] == b[bt + x]
  {
  }

  lemma BlockKept(a: seq<Node>, at: nat, b: seq<Node>, bt: nat, n: nat, c: seq<Node>)
    requires SameBlock(a, at, b, bt, n) && |c| == |b|
    requires forall j :: bt <= j < bt + n ==> c[j] == b[j]
    ensures SameBlock(a, at, c, bt, n)
  {
  }

  lemma RootMoved(node: Node, at: nat, bt: nat, t: Tree, link: Link)
    requires Root(node, at, t, link)
    requires link.Closed? ==> link.base + bt - at >= 0
    ensures Root(node, bt, t, Moved(link, bt - at))
  {
  }

  lemma SizeParts(t: Tree)
    ensures Unary(t) ==> Size(t) == 1 + Size(t.p)
    ensures Binary(t) ==> Size(t) == 1 + Size(t.p1) + Size(t.p2)
    ensures t.TSet? ==> Size(t) == 1 + SETSLOTS
    ensures t.TGrammar? ==> Size(t) == 2 + Start(t.rules, |t.rules|)
  {
  }

  /** A block of nodes moved as a whole still holds its tree. */
  lemma {:induction false} HoldsMoved(a: seq<Node>, at: nat, b: seq<Node>, bt: nat, t: Tree, link: Link)
    requires Holds(a, at, t, link) && SameBlock(a, at, b, bt, Size(t))
    requires link.Closed? ==> link.base + bt - at >= 0
    ensures Holds(b, bt, t, Moved(link, bt - at))
    decreases t, 0
  {
    hide SameBlock, Start, Size, Root, HoldsRules;
    var n := Size(t);
    SizeParts(t);
    SubBlock(a, at, b, bt, n, 0, 0);
    RootMoved(a[at], at, bt, t, link);
    if Unary(t) {
      SubBlock(a, at, b, bt, n, 1, Size(t.p));
      HoldsMoved(a, at + 1, b, bt + 1, t.p, link);
    } else if Binary(t) {
      SubBlock(a, at, b, bt, n, 1, Size(t.p1));
      SubBlock(a, at, b, bt, n, 1 + Size(t.p1), Size(t.p2));
      HoldsMoved(a, at + 1, b, bt + 1, t.p1, link);
      HoldsMoved(a, at + 1 + Size(t.p1), b, bt + 1 + Size(t.p1), t.p2, link);
    } else if t.TSet? {
      forall k | 0 <= k < SETSLOTS ensures b[bt + 1 + k] == Bits(t.cs, k) {
        SubBlock(a, at, b, bt, n, 1 + k, 0);
      }
    } else if t.TGrammar? {
      RulesMoved(a, at, b, bt, t.rules, 0);
    }
  }

  lemma {:induction false} RulesMoved(a: seq<Node>, at: nat, b: seq<Node>, bt: nat, rules: seq<Tree>, k: nat)
    requires k <= |rules| && HoldsRules(a, at, rules, k, Closed(at, rules))
    requires SameBlock(a, at, b, bt, 2 + Start(rules, |rules|))
    ensures HoldsRules(b, bt, rules, k, Closed(bt, rules))
    decreases rules, |rules| - k
  {
    hide SameBlock, Start, Holds, Size;
    var x := 1 + Start(rules, k);
    var n := 2 + Start(rules, |rules|);
    if k < |rules| {
      StartMonotone(rules, k, |rules|);
      SubBlock(a, at, b, bt, n, x, 0);
      SubBlock(a, at, b, bt, n, x + 1, Size(rules[k]));
      HoldsMoved(a, at + x + 1, b, bt + x + 1, rules[k], Closed(at, rules));
      RulesMoved(a, at, b, bt, rules, k + 1);
    } else {
      SubBlock(a, at, b, bt, n, x, 0);
    }
  }

  /** The tag of a sequence or choice. */
  function OpTag(t: Tree): Tag
    requires Binary(t)
  {
    if t.TSeq? then NSeq else NChoice
  }

  /** What a tree with two siblings is made of, both ways. */
  lemma BinaryParts(a: seq<Node>, at: nat, t: Tree, link: Link)
    requires Binary(t)
    ensures Holds(a, at, t, link) <==>
      && at + Size(t) <= |a|
      && a[at].Node? && a[at].tag == OpTag(t) && a[at].u == 1 + Size(t.p1)
      && Holds(a, at + 1, t.p1, link)
      && Holds(a, at + 1 + Size(t.p1), t.p2, link)
  {
  }

  /** What a tree with one sibling is made of, both ways. */
  lemma UnaryParts(a: seq<Node>, at: nat, t: Tree, link: Link)
    requires Unary(t)
    ensures Holds(a, at, t, link) <==>
      at + Size(t) <= |a| && Root(a[at], at, t, link) && Holds(a, at + 1, t.p, link)
  {
  }

  /** Whether calls are open does not matter where there are none. */
  lemma LeafLink(a: seq<Node>, at: nat, t: Tree, link: Link)
    requires !Unary(t) && !Binary(t) && !t.TCall? && Holds(a, at, t, Open)
    ensures Holds(a, at, t, link)
  {
  }

  /** The root of a tree shows whether it is a sequence or a choice. */
  lemma RootTag(a: seq<Node>, at: nat, t: Tree, link: Link)
    requires Holds(a, at, t, link)
    ensures at + Size(t) <= |a| && a[at].Node?
    ensures a[at].tag == NSeq <==> t.TSeq?
    ensures a[at].tag == NChoice <==> t.TChoice?
  {
  }

  /** Writing elsewhere does not matter. */
  lemma HoldsFrame(a: seq<Node>, b: seq<Node>, at: nat, t: Tree, link: Link)
    requires Holds(a, at, t, link) && SameBlock(a, at, b, at, Size(t))
    ensures Holds(b, at, t, link)
  {
    HoldsMoved(a, at, b, at, t, link);
  }

  // ---------- Right association ----------

  lemma {:induction false} RotatedSize(t: Tree)
    ensures Size(Rotated(t)) == Size(t)
    ensures forall n: nat :: Calls(Rotated(t), n) <==> Calls(t, n)
    decreases if t.TSeq? || t.TChoice? then t.p1 else t
  {
    if t.TSeq? && t.p1.TSeq? {
      var u := TSeq(t.p1.p1, TSeq(t.p1.p2, t.p2));
      RotatedSize(u);
      assert forall n: nat :: Calls(u, n) <==> Calls(t, n);
    } else if t.TChoice? && t.p1.TChoice? {
      var u := TChoice(t.p1.p1, TChoice(t.p1.p2, t.p2));
      RotatedSize(u);
      assert forall n: nat :: Calls(u, n) <==> Calls(t, n);
    }
  }

  /** The tree that `finalfix` leaves: sequences and choices are right associative everywhere, except inside
      sub-grammars, where that has been done before. */
  function Fixed(t: Tree): Tree
    decreases Size(t)
  {
    match t
    case TRep(p) => TRep(Fixed(p))
    case TSeq(_, _) =>
      RotatedSize(t);
      var r := Rotated(t);
      TSeq(Fixed(r.p1), Fixed(r.p2))
    case TChoice(_, _) =>
      RotatedSize(t);
      var r := Rotated(t);
      TChoice(Fixed(r.p1), Fixed(r.p2))
    case TNot(p) => TNot(Fixed(p))
    case TAnd(p) => TAnd(Fixed(p))
    case TBehind(n, p) => TBehind(n, Fixed(p))
    case TCapture(kind, key, p) => TCapture(kind, key, Fixed(p))
    case _ => t
  }

  function FixedRules(rs: seq<Tree>): (fs: seq<Tree>)
    ensures |fs| == |rs| && forall k :: 0 <= k < |rs| ==> fs[k] == Fixed(rs[k])
  {
    seq(|rs|, k requires 0 <= k < |rs| => Fixed(rs[k]))
  }

  /** No left operand of a sequence is a sequence, and no left operand of a choice is a choice. */
  predicate RightAssociative(t: Tree) {
    match t
    case TRep(p) => RightAssociative(p)
    case TSeq(p1, p2) => !p1.TSeq? && RightAssociative(p1) && RightAssociative(p2)
    case TChoice(p1, p2) => !p1.TChoice? && RightAssociative(p1) && RightAssociative(p2)
    case TNot(p) => RightAssociative(p)
    case TAnd(p) => RightAssociative(p)
    case TBehind(_, p) => RightAssociative(p)
    case TCapture(_, _, p) => RightAssociative(p)
    case _ => true
  }

  lemma {:induction false} FixedShape(t: Tree)
    ensures Size(Fixed(t)) == Size(t)
    ensures RightAssociative(Fixed(t))
    ensures Fixed(t).TSeq? <==> t.TSeq?
    ensures Fixed(t).TChoice? <==> t.TChoice?
    decreases Size(t)
  {
    match t
    case TRep(p) => FixedShape(p);
    case TSeq(_, _) => RotatedSize(t); FixedShape(Rotated(t).p1); FixedShape(Rotated(t).p2);
    case TChoice(_, _) => RotatedSize(t); FixedShape(Rotated(t).p1); FixedShape(Rotated(t).p2);
    case TNot(p) => FixedShape(p);
    case TAnd(p) => FixedShape(p);
    case TBehind(_, p) => FixedShape(p);
    case TCapture(_, _, p) => FixedShape(p);
    case _ =>
  }

  /** Rearranging a pattern and all rules that it may call leaves every outcome the same. */
  lemma {:induction false} FixedSame(rs: seq<Tree>, t: Tree, s: Subject, i: nat, fuel: nat)
    requires i <= |s|
    ensures Match(FixedRules(rs), Fixed(t), s, i, fuel) == Match(rs, t, s, i, fuel)
    decreases fuel, Size(t), 1
  {
    hide Rotated;
    match t
    case TRep(p) =>
      FixedSame(rs, p, s, i, fuel);
      var r := Match(rs, p, s, i, fuel);
      if r.Ok? && fuel > 0 { FixedSame(rs, t, s, r.pos, fuel - 1); }
    case TSeq(_, _) => FixedPair(rs, t, s, i, fuel);
    case TChoice(_, _) => FixedPair(rs, t, s, i, fuel);
    case TNot(p) => FixedSame(rs, p, s, i, fuel);
    case TAnd(p) => FixedSame(rs, p, s, i, fuel);
    case TBehind(n, p) =>
      if n <= i {
        FixedSame(rs, p, s, i - n, fuel);
      }
    case TCapture(_, _, p) => FixedSame(rs, p, s, i, fuel);
    case TCall(n) => if n < |rs| && fuel > 0 { FixedSame(rs, rs[n], s, i, fuel - 1); }
    case _ =>
  }

  lemma {:induction false} FixedPair(rs: seq<Tree>, t: Tree, s: Subject, i: nat, fuel: nat)
    requires i <= |s| && Binary(t)
    ensures Match(FixedRules(rs), Fixed(t), s, i, fuel) == Match(rs, t, s, i, fuel)
    decreases fuel, Size(t), 0
  {
    RotatedSize(t);
    RotatedSame(rs, t);
    var u := Rotated(t);
    hide Rotated;
    FixedSame(rs, u.p1, s, i, fuel);
    if t.TSeq? {
      var r := Match(rs, u.p1, s, i, fuel);
      if r.Ok? { FixedSame(rs, u.p2, s, r.pos, fuel); }
    } else {
      FixedSame(rs, u.p2, s, i, fuel);
    }
  }

  /** Rearranging the rules of a grammar leaves every outcome the same. */
  lemma GrammarSame(rs: seq<Tree>, rules: seq<Tree>, s: Subject, i: nat, fuel: nat)
    requires i <= |s|
    ensures Match(rs, TGrammar(FixedRules(rules)), s, i, fuel) == Match(rs, TGrammar(rules), s, i, fuel)
  {
    if |rules| > 0 { FixedSame(rules, rules[0], s, i, fuel); }
  }
}
