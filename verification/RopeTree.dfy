/** The rope as a value: a treap of buffers, and the operations of `util/rope.cc` on it.
    `RopeHeap` runs the same operations in place on nodes and is proved equal to these. */
module RopeTree {
  import opened Sequences

  const BUFFER_SIZE: nat := 4096

  /** One `Rep`. `data` is the used part of its buffer, `lsize` the cached length of the left subtree. */
  datatype Tree =
    | Empty
    | Node(left: Tree, right: Tree, lsize: nat, data: string, priority: nat)

  /** The random generator: `tape(k)` is the k-th priority drawn, and any tape is possible. */
  type Tape = nat -> nat

  /** How many bytes the subtree holds. */
  function Size(t: Tree): nat {
    if t.Empty? then 0 else Size(t.left) + |t.data| + Size(t.right)
  }

  /** The bytes themselves, in order. */
  function Content(t: Tree): (text: string)
    ensures |text| == Size(t)
  {
    if t.Empty? then [] else Content(t.left) + t.data + Content(t.right)
  }

  function Nodes(t: Tree): nat {
    if t.Empty? then 0 else Nodes(t.left) + 1 + Nodes(t.right)
  }

  /** Every cached size is right and no buffer overflows. */
  predicate Valid(t: Tree) {
    t.Node? ==>
      && Valid(t.left) && Valid(t.right)
      && t.lsize == Size(t.left)
      && |t.data| <= BUFFER_SIZE
  }

  /** No node holds an empty buffer. */
  predicate Packed(t: Tree) {
    t.Node? ==> t.data != [] && Packed(t.left) && Packed(t.right)
  }

  /** The priority of the root is at most `bound`. */
  predicate Below(t: Tree, bound: nat) {
    t.Node? ==> t.priority <= bound
  }

  predicate HeapOrdered(t: Tree) {
    t.Node? ==>
      && HeapOrdered(t.left) && HeapOrdered(t.right)
      && Below(t.left, t.priority) && Below(t.right, t.priority)
  }

  // ----- the sequence operations that the rope stands for

  function Splice(s: string, index: nat, str: string): string
    requires index <= |s|
  {
    s[..index] + str + Suffix(s, index)
  }

  function Cut(s: string, index: nat, size: nat): string
    requires index + size <= |s|
  {
    s[..index] + Suffix(s, index + size)
  }

  // ----- rotations and balancing

  function RotateLeft(t: Tree): (r: Tree)
    requires t.Node? && t.right.Node?
  {
    var peer := t.right;
    peer.(left := t.(right := peer.left), lsize := peer.lsize + t.lsize + |t.data|)
  }

  function RotateRight(t: Tree): (r: Tree)
    requires t.Node? && t.left.Node?
    requires t.left.lsize + |t.left.data| <= t.lsize
  {
    var peer := t.left;
    peer.(right := t.(left := peer.right, lsize := t.lsize - (peer.lsize + |peer.data|)))
  }

  /** `Rope::balance_left`: balance the whole left spine, then rotate once if the left child outranks the root. */
  function BalanceLeft(t: Tree): (r: Tree)
    requires Valid(t) && t.Node?
    ensures Valid(r) && r.Node? && Size(r) == Size(t)
    decreases t
  {
    if t.left.Empty? then t else
    var t1 := t.(left := BalanceLeft(t.left));
    if t1.left.priority > t1.priority then RotateRight(t1) else t1
  }

  /** `Rope::balance_right`, the mirror image. */
  function BalanceRight(t: Tree): (r: Tree)
    requires Valid(t) && t.Node?
    ensures Valid(r) && r.Node? && Size(r) == Size(t)
    decreases t
  {
    if t.right.Empty? then t else
    var t1 := t.(right := BalanceRight(t.right));
    if t1.right.priority > t1.priority then RotateLeft(t1) else t1
  }

  lemma {:induction false} RotateLeftKeeps(t: Tree)
    requires Valid(t) && t.Node? && t.right.Node?
    ensures Valid(RotateLeft(t)) && Content(RotateLeft(t)) == Content(t)
  {
    var peer := t.right;
    var low := t.(right := peer.left);
    assert Content(low) == Content(t.left) + t.data + Content(peer.left);
    assert Valid(low);
    assert Content(t) == Content(low) + peer.data + Content(peer.right);
  }

  lemma {:induction false} RotateRightKeeps(t: Tree)
    requires Valid(t) && t.Node? && t.left.Node?
    ensures t.left.lsize + |t.left.data| <= t.lsize
    ensures Valid(RotateRight(t)) && Content(RotateRight(t)) == Content(t)
  {
    var peer := t.left;
    assert Size(peer) == peer.lsize + |peer.data| + Size(peer.right);
    var low := t.(left := peer.right, lsize := t.lsize - (peer.lsize + |peer.data|));
    assert Content(low) == Content(peer.right) + t.data + Content(t.right);
    assert Valid(low);
    assert Content(t) == Content(peer.left) + peer.data + Content(low);
  }

  lemma {:induction false} BalanceLeftKeeps(t: Tree)
    requires Valid(t) && t.Node?
    ensures Content(BalanceLeft(t)) == Content(t)
    decreases t
  {
    if t.left.Node? {
      BalanceLeftKeeps(t.left);
      var t1 := t.(left := BalanceLeft(t.left));
      if t1.left.priority > t1.priority { RotateRightKeeps(t1); }
    }
  }

  lemma {:induction false} BalanceRightKeeps(t: Tree)
    requires Valid(t) && t.Node?
    ensures Content(BalanceRight(t)) == Content(t)
    decreases t
  {
    if t.right.Node? {
      BalanceRightKeeps(t.right);
      var t1 := t.(right := BalanceRight(t.right));
      if t1.right.priority > t1.priority { RotateLeftKeeps(t1); }
    }
  }

  // ----- insert

  /** A tree together with the number of priorities drawn so far. */
  datatype Grown = Grown(tree: Tree, drawn: nat)

  /** How many bytes of a node's own data stay in it when `size` bytes arrive at `index` and do not fit. */
  function KeptSize(index: nat, size: nat): nat {
    (if BUFFER_SIZE >= index + size then BUFFER_SIZE else index + size) - size
  }

  /** `Rope::insert`. It ends because the bytes to insert, then the bytes already in the subtree, then
      its number of nodes go down lexicographically. */
  function Insert(t: Tree, index: nat, str: string, tape: Tape, drawn: nat): (r: Grown)
    requires Valid(t) && index <= Size(t)
    ensures Valid(r.tree) && r.tree.Node? && Size(r.tree) == Size(t) + |str|
    decreases |str|, Size(t), Nodes(t) + 1
  {
    if t.Empty? then
      Land(Node(Empty, Empty, 0, [], tape(drawn)), 0, str, tape, drawn + 1)
    else if index < t.lsize then
      var g := Insert(t.left, index, str, tape, drawn);
      Grown(BalanceLeft(t.(left := g.tree, lsize := t.lsize + |str|)), g.drawn)
    else if index - t.lsize > |t.data| then
      var g := Insert(t.right, index - t.lsize - |t.data|, str, tape, drawn);
      Grown(BalanceRight(t.(right := g.tree)), g.drawn)
    else
      Land(t, index - t.lsize, str, tape, drawn)
  }

  /** The part of `Rope::insert` that runs at the node the insertion point falls into. */
  function Land(t: Tree, i: nat, str: string, tape: Tape, drawn: nat): (r: Grown)
    requires Valid(t) && t.Node? && i <= |t.data|
    ensures Valid(r.tree) && r.tree.Node? && Size(r.tree) == Size(t) + |str|
    decreases |str|, Size(t), 0
  {
    if |t.data| + |str| <= BUFFER_SIZE then
      Grown(BalanceRight(t.(data := Splice(t.data, i, str))), drawn)
    else
      var kept := KeptSize(i, |str|);
      var g := Insert(t.right, 0, Suffix(t.data, kept), tape, drawn);
      if i + |str| <= BUFFER_SIZE then
        Grown(BalanceRight(t.(right := g.tree, data := Splice(t.data[..kept], i, str))), g.drawn)
      else
        var fit := BUFFER_SIZE - i;
        var g2 := Insert(g.tree, 0, Suffix(str, fit), tape, g.drawn);
        Grown(BalanceRight(t.(right := g2.tree, data := Splice(t.data[..kept], i, str[..fit]))), g2.drawn)
  }

  /** The tree after an insertion holds the old text with the new text spliced in. */
  lemma {:induction false} InsertSplices(t: Tree, index: nat, str: string, tape: Tape, drawn: nat, r: Tree)
    requires Valid(t) && index <= Size(t) && r == Insert(t, index, str, tape, drawn).tree
    ensures Content(r) == Splice(Content(t), index, str)
    decreases |str|, Size(t), Nodes(t) + 1, 1
  {
    if t.Empty? {
      LandSplices(Node(Empty, Empty, 0, [], tape(drawn)), 0, str, tape, drawn + 1, r);
    } else if index < t.lsize {
      InsertLeftSplices(t, index, str, tape, drawn, r);
    } else if index - t.lsize > |t.data| {
      InsertRightSplices(t, index, index - t.lsize - |t.data|, str, tape, drawn, r);
    } else {
      WithinNode(t, index, str);
      LandSplices(t, index - t.lsize, str, tape, drawn, r);
    }
  }

  lemma {:induction false} InsertLeftSplices(t: Tree, index: nat, str: string, tape: Tape, drawn: nat, r: Tree)
    requires Valid(t) && t.Node? && index < t.lsize && r == Insert(t, index, str, tape, drawn).tree
    ensures Content(r) == Splice(Content(t), index, str)
    decreases |str|, Size(t), Nodes(t) + 1, 0
  {
    var left := Insert(t.left, index, str, tape, drawn).tree;
    InsertSplices(t.left, index, str, tape, drawn, left);
    WithLeft(t, index, str, left);
    BalanceLeftKeeps(t.(left := left, lsize := t.lsize + |str|));
  }

  lemma {:induction false} InsertRightSplices(t: Tree, index: nat, i: nat, str: string, tape: Tape, drawn: nat, r: Tree)
    requires Valid(t) && t.Node? && index == t.lsize + |t.data| + i && 0 < i <= Size(t.right)
    requires r == Insert(t, index, str, tape, drawn).tree
    ensures Content(r) == Splice(Content(t), index, str)
    decreases |str|, Size(t), Nodes(t) + 1, 0
  {
    var right := Insert(t.right, i, str, tape, drawn).tree;
    InsertSplices(t.right, i, str, tape, drawn, right);
    WithRight(t, index, i, str, right);
    BalanceRightKeeps(t.(right := right));
  }

  lemma {:induction false} LandSplices(t: Tree, i: nat, str: string, tape: Tape, drawn: nat, r: Tree)
    requires Valid(t) && t.Node? && i <= |t.data| && r == Land(t, i, str, tape, drawn).tree
    ensures Content(r) == Content(t.left) + Splice(t.data, i, str) + Content(t.right)
    decreases |str|, Size(t), 0
  {
    if |t.data| + |str| <= BUFFER_SIZE {
      BalanceRightKeeps(t.(data := Splice(t.data, i, str)));
    } else {
      var kept := KeptSize(i, |str|);
      var tail := Suffix(t.data, kept);
      var g := Insert(t.right, 0, tail, tape, drawn);
      InsertSplices(t.right, 0, tail, tape, drawn, g.tree);
      if i + |str| <= BUFFER_SIZE {
        SpillOnce(t, i, str, g.tree);
        BalanceRightKeeps(t.(right := g.tree, data := Splice(t.data[..kept], i, str)));
      } else {
        var rest := Suffix(str, BUFFER_SIZE - i);
        var g2 := Insert(g.tree, 0, rest, tape, g.drawn);
        InsertSplices(g.tree, 0, rest, tape, g.drawn, g2.tree);
        SpillTwice(t, i, str, g.tree, g2.tree);
        BalanceRightKeeps(t.(right := g2.tree, data := Splice(t.data[..kept], i, str[..BUFFER_SIZE - i])));
      }
    }
  }

  lemma {:induction false} WithLeft(t: Tree, index: nat, str: string, left: Tree)
    requires Valid(t) && t.Node? && index < t.lsize
    requires Valid(left) && Content(left) == Splice(Content(t.left), index, str)
    ensures var r := t.(left := left, lsize := t.lsize + |str|);
            Valid(r) && Content(r) == Splice(Content(t), index, str)
  {
    SpliceBefore(Content(t.left), t.data, Content(t.right), index, str);
  }

  lemma {:induction false} WithRight(t: Tree, index: nat, i: nat, str: string, right: Tree)
    requires Valid(t) && t.Node? && index == t.lsize + |t.data| + i && i <= Size(t.right)
    requires Valid(right) && Content(right) == Splice(Content(t.right), i, str)
    ensures var r := t.(right := right); Valid(r) && Content(r) == Splice(Content(t), index, str)
  {
    SpliceAfter(Content(t.left), t.data, Content(t.right), i, str);
  }

  lemma {:induction false} WithinNode(t: Tree, index: nat, str: string)
    requires Valid(t) && t.Node? && t.lsize <= index <= t.lsize + |t.data|
    ensures Splice(Content(t), index, str)
         == Content(t.left) + Splice(t.data, index - t.lsize, str) + Content(t.right)
  {
    SpliceWithin(Content(t.left), t.data, Content(t.right), index - t.lsize, str);
  }

  lemma {:induction false} SpliceBefore(a: string, b: string, c: string, i: nat, str: string)
    requires i <= |a|
    ensures Splice(a + b + c, i, str) == Splice(a, i, str) + b + c
  {
    assert (a + b + c)[..i] == a[..i];
    assert (a + b + c)[i..] == a[i..] + b + c;
  }

  lemma {:induction false} SpliceWithin(a: string, b: string, c: string, i: nat, str: string)
    requires i <= |b|
    ensures Splice(a + b + c, |a| + i, str) == a + Splice(b, i, str) + c
  {
    assert (a + b + c)[..|a| + i] == a + b[..i];
    assert (a + b + c)[|a| + i..] == b[i..] + c;
  }

  lemma {:induction false} SpliceAfter(a: string, b: string, c: string, i: nat, str: string)
    requires i <= |c|
    ensures Splice(a + b + c, |a| + |b| + i, str) == a + b + Splice(c, i, str)
  {
    assert (a + b + c)[..|a| + |b| + i] == a + b + c[..i];
    assert (a + b + c)[|a| + |b| + i..] == c[i..];
  }

  lemma {:induction false} SpliceFront(s: string, str: string)
    ensures Splice(s, 0, str) == str + s
  {
  }

  lemma {:induction false} SpillOnce(t: Tree, i: nat, str: string, right: Tree)
    requires Valid(t) && t.Node? && i <= |t.data|
    requires i + |str| <= BUFFER_SIZE < |t.data| + |str|
    requires Valid(right)
    requires Content(right) == Splice(Content(t.right), 0, Suffix(t.data, KeptSize(i, |str|)))
    ensures var r := t.(right := right, data := Splice(t.data[..KeptSize(i, |str|)], i, str));
            Valid(r) && Content(r) == Content(t.left) + Splice(t.data, i, str) + Content(t.right)
  {
    SpillText(t.data, i, KeptSize(i, |str|), str, Content(t.right));
    SpliceFront(Content(t.right), Suffix(t.data, KeptSize(i, |str|)));
    Reassociate(Content(t.left), Splice(t.data, i, str), Content(t.right),
                Splice(t.data[..KeptSize(i, |str|)], i, str), Content(right));
  }

  lemma {:induction false} SpillTwice(t: Tree, i: nat, str: string, right1: Tree, right2: Tree)
    requires Valid(t) && t.Node? && i <= |t.data| && i + |str| > BUFFER_SIZE
    requires Valid(right2)
    requires Content(right1) == Splice(Content(t.right), 0, Suffix(t.data, KeptSize(i, |str|)))
    requires Content(right2) == Splice(Content(right1), 0, Suffix(str, BUFFER_SIZE - i))
    ensures var data := Splice(t.data[..KeptSize(i, |str|)], i, str[..BUFFER_SIZE - i]);
            var r := t.(right := right2, data := data);
            Valid(r) && Content(r) == Content(t.left) + Splice(t.data, i, str) + Content(t.right)
  {
    var fit := BUFFER_SIZE - i;
    SpliceFront(Content(t.right), Suffix(t.data, i));
    SpliceFront(Content(right1), Suffix(str, fit));
    OverflowText(t.data, i, fit, str, Content(t.right));
    Reassociate(Content(t.left), Splice(t.data, i, str), Content(t.right),
                Splice(t.data[..i], i, str[..fit]), Content(right2));
  }

  lemma {:induction false} SpillText(data: string, i: nat, kept: nat, str: string, rest: string)
    requires i <= kept <= |data|
    ensures Splice(data[..kept], i, str) + (Suffix(data, kept) + rest) == Splice(data, i, str) + rest
  {
    assert Suffix(data, i) == data[..kept][i..] + Suffix(data, kept);
  }

  lemma {:induction false} OverflowText(data: string, i: nat, fit: nat, str: string, rest: string)
    requires i <= |data| && fit <= |str|
    ensures Splice(data[..i], i, str[..fit]) + (Suffix(str, fit) + (Suffix(data, i) + rest))
         == Splice(data, i, str) + rest
  {
    assert str == str[..fit] + Suffix(str, fit);
  }

  lemma {:induction false} Reassociate(a: string, b: string, c: string, b': string, c': string)
    requires b' + c' == b + c
    ensures a + b' + c' == a + b + c
  {
    assert a + b' + c' == a + (b' + c');
    assert a + b + c == a + (b + c);
  }

  // ----- merge, erase and copy

  /** `Rope::merge`: all of `l` before all of `r`. */
  function Merge(l: Tree, r: Tree): (m: Tree)
    requires Valid(l) && Valid(r)
    ensures Valid(m) && Size(m) == Size(l) + Size(r)
    decreases l
  {
    if l.Empty? then r
    else if r.Empty? then l
    else
      BalanceRight(l.(right := Merge(l.right, r)))
  }

  lemma {:induction false} MergeJoins(l: Tree, r: Tree)
    requires Valid(l) && Valid(r)
    ensures Content(Merge(l, r)) == Content(l) + Content(r)
    decreases l
  {
    if l.Node? && r.Node? {
      MergeJoins(l.right, r);
      MergeText(l, Merge(l.right, r), Content(r));
      BalanceRightKeeps(l.(right := Merge(l.right, r)));
    }
  }

  lemma {:induction false} MergeText(l: Tree, right: Tree, rest: string)
    requires Valid(l) && l.Node? && Valid(right) && Content(right) == Content(l.right) + rest
    ensures Valid(l.(right := right)) && Content(l.(right := right)) == Content(l) + rest
  {
  }

  /** A node whose buffer ran empty is replaced by its merged children. */
  function Settle(t: Tree): (r: Tree)
    requires Valid(t) && t.Node?
    ensures Valid(r) && Size(r) == Size(t)
  {
    if t.data == [] then Merge(t.left, t.right) else t
  }

  lemma {:induction false} SettleKeeps(t: Tree)
    requires Valid(t) && t.Node?
    ensures Content(Settle(t)) == Content(t)
  {
    if t.data == [] { MergeJoins(t.left, t.right); }
  }

  /** `Rope::erase`. */
  function Erase(t: Tree, index: nat, size: nat): (r: Tree)
    requires Valid(t) && index < Size(t) && index + size <= Size(t)
    ensures Valid(r) && Size(r) == Size(t) - size
    decreases t, 1
  {
    Settle(Prune(t, index, size))
  }

  /** `Rope::erase` up to its label `out`: the same root with the range taken out of it and its subtrees. */
  function Prune(t: Tree, index: nat, size: nat): (r: Tree)
    requires Valid(t) && index < Size(t) && index + size <= Size(t)
    ensures Valid(r) && r.Node? && Size(r) == Size(t) - size
    decreases t, 0
  {
    if index >= t.lsize then
      PruneRest(t, index - t.lsize, size)
    else if index + size <= t.lsize then
      t.(left := Erase(t.left, index, size), lsize := t.lsize - size)
    else
      PruneRest(t.(left := Erase(t.left, index, t.lsize - index), lsize := index), 0, index + size - t.lsize)
  }

  /** The part after the left subtree: the root's own bytes, then the right subtree. */
  function PruneRest(t: Tree, i: nat, size: nat): (r: Tree)
    requires Valid(t) && t.Node?
    requires i < |t.data| + Size(t.right) && i + size <= |t.data| + Size(t.right)
    ensures Valid(r) && r.Node? && Size(r) == Size(t) - size
    decreases t.right, 2
  {
    if i >= |t.data| then
      t.(right := Erase(t.right, i - |t.data|, size))
    else if i + size <= |t.data| then
      t.(data := Cut(t.data, i, size))
    else
      t.(data := Cut(t.data, i, |t.data| - i), right := Erase(t.right, 0, i + size - |t.data|))
  }

  lemma {:induction false} PruneSkipsLeft(t: Tree, index: nat, size: nat, goal: Tree)
    requires Valid(t) && index < Size(t) && index + size <= Size(t) && index >= t.lsize
    requires goal == Prune(t, index, size)
    ensures index - t.lsize < |t.data| + Size(t.right) && index - t.lsize + size <= |t.data| + Size(t.right)
    ensures goal == PruneRest(t, index - t.lsize, size)
  {
  }

  lemma {:induction false} PruneInLeft(t: Tree, index: nat, size: nat, goal: Tree)
    requires Valid(t) && t.Node? && index < t.lsize && index + size <= t.lsize
    requires goal == Prune(t, index, size)
    ensures goal == t.(left := Erase(t.left, index, size), lsize := t.lsize - size)
  {
  }

  lemma {:induction false} PrunePastLeft(t: Tree, index: nat, n: nat, more: nat, t1: Tree, goal: Tree)
    requires Valid(t) && t.Node? && index < t.lsize && n == t.lsize - index
    requires 0 < more <= |t.data| + Size(t.right)
    requires t1 == t.(left := Erase(t.left, index, n), lsize := t.lsize - n)
    requires goal == Prune(t, index, n + more)
    ensures Valid(t1) && goal == PruneRest(t1, 0, more)
  {
  }

  /** The tree after an erasure holds the old text with the range cut out. */
  lemma {:induction false} EraseCuts(t: Tree, index: nat, size: nat, r: Tree)
    requires Valid(t) && index < Size(t) && index + size <= Size(t)
    requires r == Erase(t, index, size)
    ensures Content(r) == Cut(Content(t), index, size)
    decreases t, 1
  {
    var t1 := Prune(t, index, size);
    PruneCuts(t, index, size, t1);
    SettleKeeps(t1);
  }

  lemma {:induction false} PruneCuts(t: Tree, index: nat, size: nat, r: Tree)
    requires Valid(t) && index < Size(t) && index + size <= Size(t)
    requires r == Prune(t, index, size)
    ensures Content(r) == Cut(Content(t), index, size)
    decreases t, 0, 1
  {
    if index >= t.lsize {
      PruneSkipsLeftCuts(t, index, size, r);
    } else if index + size <= t.lsize {
      PruneInLeftCuts(t, index, size, r);
    } else {
      PrunePastLeftCuts(t, index, t.lsize - index, index + size - t.lsize, r);
    }
  }

  lemma {:induction false} PruneSkipsLeftCuts(t: Tree, index: nat, size: nat, r: Tree)
    requires Valid(t) && index < Size(t) && index + size <= Size(t) && index >= t.lsize
    requires r == Prune(t, index, size)
    ensures Content(r) == Cut(Content(t), index, size)
    decreases t, 0, 0
  {
    var r1 := PruneSkipsLeftText(t, index, size);
    CutFromRoot(t, index, size, r1);
  }

  lemma {:induction false} PruneSkipsLeftText(t: Tree, index: nat, size: nat) returns (r: Tree)
    requires Valid(t) && index < Size(t) && index + size <= Size(t) && index >= t.lsize
    ensures r == Prune(t, index, size) && r.Node? && r.left == t.left
    ensures index + size - t.lsize <= |t.data| + Size(t.right) && t.lsize == Size(t.left)
    ensures r.data + Content(r.right) == Cut(t.data + Content(t.right), index - t.lsize, size)
    decreases t, 0, 0, 0
  {
    r := Prune(t, index, size);
    PruneRestCuts(t, index - t.lsize, size, r);
  }

  lemma {:induction false} PruneInLeftCuts(t: Tree, index: nat, size: nat, r: Tree)
    requires Valid(t) && t.Node? && index < t.lsize && index + size <= t.lsize
    requires r == Prune(t, index, size)
    ensures Content(r) == Cut(Content(t), index, size)
    decreases t, 0, 0
  {
    PruneInLeft(t, index, size, r);
    EraseCuts(t.left, index, size, r.left);
    CutFromLeft(t, index, size, r);
  }

  lemma {:induction false} CutFromRoot(t: Tree, index: nat, size: nat, r: Tree)
    requires t.Node? && r.Node? && Size(t.left) <= index && index + size <= Size(t) && r.left == t.left
    requires r.data + Content(r.right) == Cut(t.data + Content(t.right), index - Size(t.left), size)
    ensures Content(r) == Cut(Content(t), index, size)
  {
    RootText(t);
    RootText(r);
    CutAfter(Content(t.left), t.data + Content(t.right), index, size);
  }

  lemma {:induction false} CutFromLeft(t: Tree, index: nat, size: nat, r: Tree)
    requires t.Node? && r.Node? && index + size <= Size(t.left) && r.data == t.data && r.right == t.right
    requires Content(r.left) == Cut(Content(t.left), index, size)
    ensures Content(r) == Cut(Content(t), index, size)
  {
    RootText(t);
    RootText(r);
    CutBefore(Content(t.left), t.data + Content(t.right), index, size);
  }

  lemma {:induction false} CutFromBoth(t: Tree, index: nat, n: nat, more: nat, r: Tree)
    requires t.Node? && r.Node? && index + n == Size(t.left) && more <= |t.data| + Size(t.right)
    requires Content(r.left) == Cut(Content(t.left), index, n)
    requires r.data + Content(r.right) == Cut(t.data + Content(t.right), 0, more)
    ensures Content(r) == Cut(Content(t), index, n + more)
  {
    RootText(t);
    RootText(r);
    CutJoins(Content(t.left), t.data + Content(t.right), index, n, more, Content(r.left), r.data + Content(r.right));
  }

  lemma {:induction false} PrunePastLeftCuts(t: Tree, index: nat, n: nat, more: nat, r: Tree)
    requires Valid(t) && t.Node? && index < t.lsize && n == t.lsize - index
    requires 0 < more <= |t.data| + Size(t.right)
    requires r == Prune(t, index, n + more)
    ensures Content(r) == Cut(Content(t), index, n + more)
    decreases t, 0, 0
  {
    PrunePastLeftText(t, index, n, more, r);
    CutFromBoth(t, index, n, more, r);
  }

  lemma {:induction false} PrunePastLeftText(t: Tree, index: nat, n: nat, more: nat, r: Tree)
    requires Valid(t) && t.Node? && index < t.lsize && n == t.lsize - index
    requires 0 < more <= |t.data| + Size(t.right)
    requires r == Prune(t, index, n + more)
    ensures r.Node? && Content(r.left) == Cut(Content(t.left), index, n)
    ensures r.data + Content(r.right) == Cut(t.data + Content(t.right), 0, more)
    decreases t, 0, 0, 0
  {
    var left := Erase(t.left, index, n);
    var t1 := t.(left := left, lsize := t.lsize - n);
    PrunePastLeft(t, index, n, more, t1, r);
    EraseCuts(t.left, index, n, left);
    PruneRestCuts(t1, 0, more, r);
  }

  lemma {:induction false} PruneRestCuts(t: Tree, i: nat, size: nat, r: Tree)
    requires Valid(t) && t.Node?
    requires i < |t.data| + Size(t.right) && i + size <= |t.data| + Size(t.right)
    requires r == PruneRest(t, i, size)
    ensures r.left == t.left && r.data + Content(r.right) == Cut(t.data + Content(t.right), i, size)
    decreases t.right, 2
  {
    if i >= |t.data| {
      CutAfter(t.data, Content(t.right), i, size);
      EraseCuts(t.right, i - |t.data|, size, r.right);
    } else if i + size <= |t.data| {
      CutBefore(t.data, Content(t.right), i, size);
    } else {
      CutAcross(t.data, Content(t.right), i, size);
      EraseCuts(t.right, 0, i + size - |t.data|, r.right);
    }
  }

  lemma {:induction false} RootText(t: Tree)
    requires t.Node?
    ensures Content(t) == Content(t.left) + (t.data + Content(t.right))
  {
  }

  lemma {:induction false} CutBefore(a: string, b: string, index: nat, size: nat)
    requires index + size <= |a|
    ensures Cut(a + b, index, size) == Cut(a, index, size) + b
  {
  }

  lemma {:induction false} CutAcross(a: string, b: string, index: nat, size: nat)
    requires index <= |a| <= index + size <= |a| + |b|
    ensures Cut(a + b, index, size) == Cut(a, index, |a| - index) + Cut(b, 0, index + size - |a|)
  {
  }

  lemma {:induction false} CutJoins(a: string, b: string, index: nat, n: nat, more: nat, a1: string, b1: string)
    requires index + n == |a| && more <= |b| && a1 == Cut(a, index, n) && b1 == Cut(b, 0, more)
    ensures a1 + b1 == Cut(a + b, index, n + more)
  {
    CutAcross(a, b, index, n + more);
  }

  lemma {:induction false} CutAfter(a: string, b: string, index: nat, size: nat)
    requires |a| <= index && index + size <= |a| + |b|
    ensures Cut(a + b, index, size) == a + Cut(b, index - |a|, size)
  {
  }

  /** `Rope::copy`. */
  function Copy(t: Tree, index: nat, size: nat): (r: string)
    requires Valid(t) && index < Size(t) && index + size <= Size(t)
    ensures |r| == size
    decreases t, 1
  {
    if index >= t.lsize then CopyRest(t, index - t.lsize, size)
    else if index + size <= t.lsize then Copy(t.left, index, size)
    else Copy(t.left, index, t.lsize - index) + CopyRest(t, 0, index + size - t.lsize)
  }

  function CopyRest(t: Tree, i: nat, size: nat): (r: string)
    requires Valid(t) && t.Node?
    requires i < |t.data| + Size(t.right) && i + size <= |t.data| + Size(t.right)
    ensures |r| == size
    decreases t.right, 2
  {
    if i >= |t.data| then Copy(t.right, i - |t.data|, size)
    else if i + size <= |t.data| then Slice(t.data, i, size)
    else Suffix(t.data, i) + Copy(t.right, 0, i + size - |t.data|)
  }

  /** A copy reads exactly the range asked for. */
  lemma {:induction false} CopyReads(t: Tree, index: nat, size: nat, r: string)
    requires Valid(t) && index < Size(t) && index + size <= Size(t) && r == Copy(t, index, size)
    ensures r == Content(t)[index..index + size]
    decreases t, 1
  {
    RootText(t);
    if index >= t.lsize {
      SliceAfter(Content(t.left), t.data + Content(t.right), index, size);
      CopyRestReads(t, index - t.lsize, size, r);
    } else if index + size <= t.lsize {
      SliceBefore(Content(t.left), t.data + Content(t.right), index, size);
      CopyReads(t.left, index, size, r);
    } else {
      CopyAcrossReads(t, index, t.lsize - index, index + size - t.lsize, r);
    }
  }

  lemma {:induction false} CopyAcrossReads(t: Tree, index: nat, n: nat, more: nat, r: string)
    requires Valid(t) && t.Node? && index < t.lsize && n == t.lsize - index && 0 < more <= |t.data| + Size(t.right)
    requires r == Copy(t.left, index, n) + CopyRest(t, 0, more)
    ensures r == (Content(t.left) + (t.data + Content(t.right)))[index..index + (n + more)]
    decreases t, 0
  {
    CopyReads(t.left, index, n, Copy(t.left, index, n));
    CopyRestReads(t, 0, more, CopyRest(t, 0, more));
    SliceAcross(Content(t.left), t.data + Content(t.right), index, n, more);
  }

  lemma {:induction false} CopyRestReads(t: Tree, i: nat, size: nat, r: string)
    requires Valid(t) && t.Node?
    requires i < |t.data| + Size(t.right) && i + size <= |t.data| + Size(t.right) && r == CopyRest(t, i, size)
    ensures r == (t.data + Content(t.right))[i..i + size]
    decreases t.right, 2
  {
    if i >= |t.data| {
      SliceAfter(t.data, Content(t.right), i, size);
      CopyReads(t.right, i - |t.data|, size, r);
    } else if i + size <= |t.data| {
      SliceBefore(t.data, Content(t.right), i, size);
    } else {
      CopyPastNodeReads(t, i, |t.data| - i, i + size - |t.data|);
    }
  }

  lemma {:induction false} CopyPastNodeReads(t: Tree, i: nat, n: nat, more: nat)
    requires Valid(t) && t.Node? && i + n == |t.data| && 0 < more <= Size(t.right)
    ensures Suffix(t.data, i) + Copy(t.right, 0, more) == (t.data + Content(t.right))[i..i + (n + more)]
    decreases t.right, 2, 0
  {
    assert Suffix(t.data, i) == t.data[i..i + n];
    CopyReads(t.right, 0, more, Copy(t.right, 0, more));
    SliceAcross(t.data, Content(t.right), i, n, more);
  }

  lemma {:induction false} SliceBefore(a: string, b: string, index: nat, size: nat)
    requires index + size <= |a|
    ensures (a + b)[index..index + size] == a[index..index + size]
  {
  }

  lemma {:induction false} SliceAcross(a: string, b: string, index: nat, n: nat, more: nat)
    requires index + n == |a| && more <= |b|
    ensures (a + b)[index..index + (n + more)] == a[index..index + n] + b[0..0 + more]
  {
  }

  lemma {:induction false} SliceAfter(a: string, b: string, index: nat, size: nat)
    requires |a| <= index && index + size <= |a| + |b|
    ensures (a + b)[index..index + size] == b[index - |a|..index - |a| + size]
  {
  }

  // ----- no empty node survives

  lemma {:induction false} BalanceLeftPacked(t: Tree)
    requires Valid(t) && t.Node?
    ensures Packed(BalanceLeft(t)) == Packed(t)
    decreases t
  {
    if t.left.Node? {
      BalanceLeftPacked(t.left);
      var t1 := t.(left := BalanceLeft(t.left));
      if t1.left.priority > t1.priority { RotateRightKeeps(t1); }
    }
  }

  lemma {:induction false} BalanceRightPacked(t: Tree)
    requires Valid(t) && t.Node?
    ensures Packed(BalanceRight(t)) == Packed(t)
    decreases t
  {
    if t.right.Node? {
      BalanceRightPacked(t.right);
    }
  }

  lemma {:induction false} MergePacked(l: Tree, r: Tree)
    requires Valid(l) && Valid(r) && Packed(l) && Packed(r)
    ensures Packed(Merge(l, r))
    decreases l
  {
    if l.Node? && r.Node? {
      MergePacked(l.right, r);
      BalanceRightPacked(l.(right := Merge(l.right, r)));
    }
  }

  /** Erasing from a rope without empty nodes leaves none behind. */
  lemma {:induction false} ErasePacked(t: Tree, index: nat, size: nat, r: Tree)
    requires Valid(t) && index < Size(t) && index + size <= Size(t)
    requires Packed(t) && r == Erase(t, index, size)
    ensures Packed(r)
    decreases t, 1
  {
    var t1 := Prune(t, index, size);
    PrunePacked(t, index, size, t1);
    SettlePacked(t1);
  }

  lemma {:induction false} PrunePacked(t: Tree, index: nat, size: nat, r: Tree)
    requires Valid(t) && index < Size(t) && index + size <= Size(t)
    requires Packed(t) && r == Prune(t, index, size)
    ensures Packed(r.left) && Packed(r.right)
    decreases t, 0, 1
  {
    if index >= t.lsize {
      PruneSkipsLeft(t, index, size, r);
      PruneRestPacked(t, index - t.lsize, size, r);
    } else if index + size <= t.lsize {
      PruneInLeft(t, index, size, r);
      ErasePacked(t.left, index, size, r.left);
    } else {
      PrunePastLeftPacked(t, index, t.lsize - index, index + size - t.lsize, r);
    }
  }

  lemma {:induction false} PrunePastLeftPacked(t: Tree, index: nat, n: nat, more: nat, r: Tree)
    requires Valid(t) && t.Node? && index < t.lsize && n == t.lsize - index
    requires 0 < more <= |t.data| + Size(t.right)
    requires Packed(t) && r == Prune(t, index, n + more)
    ensures Packed(r.left) && Packed(r.right)
    decreases t, 0, 0
  {
    var left := Erase(t.left, index, n);
    var t1 := t.(left := left, lsize := t.lsize - n);
    PrunePastLeft(t, index, n, more, t1, r);
    ErasePacked(t.left, index, n, left);
    PruneRestPacked(t1, 0, more, r);
  }

  lemma {:induction false} PruneRestPacked(t: Tree, i: nat, size: nat, r: Tree)
    requires Valid(t) && t.Node?
    requires i < |t.data| + Size(t.right) && i + size <= |t.data| + Size(t.right)
    requires Packed(t.left) && Packed(t.right) && r == PruneRest(t, i, size)
    ensures Packed(r.left) && Packed(r.right)
    decreases t.right, 2
  {
    if i >= |t.data| {
      ErasePacked(t.right, i - |t.data|, size, r.right);
    } else if i + size > |t.data| {
      ErasePacked(t.right, 0, i + size - |t.data|, r.right);
    }
  }

  lemma {:induction false} SettlePacked(t: Tree)
    requires Valid(t) && t.Node? && Packed(t.left) && Packed(t.right)
    ensures Packed(Settle(t))
  {
    if t.data == [] { MergePacked(t.left, t.right); }
  }

  /** A fresh node that has not been given bytes yet. */
  predicate Blank(t: Tree) {
    t.Node? && t.left.Empty? && t.right.Empty? && t.data == []
  }

  /** Inserting a non-empty string leaves no empty node. The blank node that a spill of zero bytes
      creates is the one the rest of the string goes to. */
  lemma {:induction false} InsertPacked(t: Tree, index: nat, str: string, tape: Tape, drawn: nat, r: Tree)
    requires Valid(t) && index <= Size(t)
    requires Packed(t) || Blank(t)
    requires r == Insert(t, index, str, tape, drawn).tree
    ensures if str == [] && (t.Empty? || Blank(t)) then Blank(r) else Packed(r)
    decreases |str|, Size(t), Nodes(t) + 1, 1
  {
    if t.Empty? {
      LandPacked(Node(Empty, Empty, 0, [], tape(drawn)), 0, str, tape, drawn + 1, r);
    } else if index < t.lsize {
      InsertLeftPacked(t, index, str, tape, drawn, r);
    } else if index - t.lsize > |t.data| {
      InsertRightPacked(t, index, str, tape, drawn, r);
    } else {
      LandPacked(t, index - t.lsize, str, tape, drawn, r);
    }
  }

  lemma {:induction false} InsertLeftPacked(t: Tree, index: nat, str: string, tape: Tape, drawn: nat, r: Tree)
    requires Valid(t) && t.Node? && index < t.lsize && Packed(t)
    requires r == Insert(t, index, str, tape, drawn).tree
    ensures Packed(r)
    decreases |str|, Size(t), Nodes(t) + 1, 0
  {
    var left := Insert(t.left, index, str, tape, drawn).tree;
    InsertPacked(t.left, index, str, tape, drawn, left);
    BalanceLeftPacked(t.(left := left, lsize := t.lsize + |str|));
  }

  lemma {:induction false} InsertRightPacked(t: Tree, index: nat, str: string, tape: Tape, drawn: nat, r: Tree)
    requires Valid(t) && t.Node? && t.lsize + |t.data| < index <= Size(t) && Packed(t)
    requires r == Insert(t, index, str, tape, drawn).tree
    ensures Packed(r)
    decreases |str|, Size(t), Nodes(t) + 1, 0
  {
    var i := index - t.lsize - |t.data|;
    var right := Insert(t.right, i, str, tape, drawn).tree;
    InsertPacked(t.right, i, str, tape, drawn, right);
    BalanceRightPacked(t.(right := right));
  }

  lemma {:induction false} LandPacked(t: Tree, i: nat, str: string, tape: Tape, drawn: nat, r: Tree)
    requires Valid(t) && t.Node? && i <= |t.data|
    requires Packed(t) || Blank(t)
    requires r == Land(t, i, str, tape, drawn).tree
    ensures if str == [] && Blank(t) then Blank(r) else Packed(r)
    decreases |str|, Size(t), 0, 1
  {
    if |t.data| + |str| <= BUFFER_SIZE {
      BalanceRightPacked(t.(data := Splice(t.data, i, str)));
    } else {
      SpillPacked(t, i, str, tape, drawn, r);
    }
  }

  lemma {:induction false} SpillPacked(t: Tree, i: nat, str: string, tape: Tape, drawn: nat, r: Tree)
    requires Valid(t) && t.Node? && i <= |t.data| && |t.data| + |str| > BUFFER_SIZE
    requires Packed(t) || Blank(t)
    requires r == Land(t, i, str, tape, drawn).tree
    ensures Packed(r)
    decreases |str|, Size(t), 0, 0
  {
    var tail, rest, g, g2, t1 := SpillSteps(t, i, str, tape, drawn);
    InsertPacked(t.right, 0, tail, tape, drawn, g.tree);
    if rest != [] { InsertPacked(g.tree, 0, rest, tape, g.drawn, g2.tree); }
    BalanceRightPacked(t1);
  }

  /** An overflow step by step: `tail` moves right, then `rest`, and what stays fills the node and is balanced. */
  lemma {:induction false} SpillSteps(t: Tree, i: nat, str: string, tape: Tape, drawn: nat)
    returns (tail: string, rest: string, g: Grown, g2: Grown, t1: Tree)
    requires Valid(t) && t.Node? && i <= |t.data| && |t.data| + |str| > BUFFER_SIZE
    ensures Valid(t.right) && |tail| <= |str| && Size(t.right) <= Size(t) - |tail| && |rest| <= |str|
    ensures g == Insert(t.right, 0, tail, tape, drawn) && Valid(g.tree) && Size(g.tree) <= Size(t)
    ensures tail == [] ==> rest != []
    ensures |rest| == |str| ==> Size(g.tree) < Size(t)
    ensures g2 == if rest == [] then g else Insert(g.tree, 0, rest, tape, g.drawn)
    ensures t1.Node? && t1 == t.(right := g2.tree, data := t1.data) && |t1.data| == BUFFER_SIZE && Valid(t1)
    ensures Land(t, i, str, tape, drawn).tree == BalanceRight(t1)
  {
    var kept := KeptSize(i, |str|);
    tail := Suffix(t.data, kept);
    g := Insert(t.right, 0, tail, tape, drawn);
    if i + |str| <= BUFFER_SIZE {
      rest, g2 := [], g;
      t1 := t.(right := g.tree, data := Splice(t.data[..kept], i, str));
    } else {
      rest := Suffix(str, BUFFER_SIZE - i);
      g2 := Insert(g.tree, 0, rest, tape, g.drawn);
      t1 := t.(right := g2.tree, data := Splice(t.data[..kept], i, str[..BUFFER_SIZE - i]));
    }
  }

  // ----- heap order

  lemma {:induction false} BalanceLeftIdentity(t: Tree)
    requires Valid(t) && t.Node? && HeapOrdered(t.left)
    requires Below(t.left, t.priority)
    ensures BalanceLeft(t) == t
    decreases t
  {
    if t.left.Node? { BalanceLeftIdentity(t.left); }
  }

  lemma {:induction false} BalanceRightIdentity(t: Tree)
    requires Valid(t) && t.Node? && HeapOrdered(t.right)
    requires Below(t.right, t.priority)
    ensures BalanceRight(t) == t
    decreases t
  {
    if t.right.Node? { BalanceRightIdentity(t.right); }
  }

  /** Exactly how much one rotation repairs: with ordered subtrees, `balance_left` restores the order if and
      only if the left child, or else its right child, does not outrank the root. */
  lemma {:induction false} BalanceLeftOrdersIff(t: Tree)
    requires Valid(t) && t.Node? && HeapOrdered(t.left) && HeapOrdered(t.right) && Below(t.right, t.priority)
    ensures HeapOrdered(BalanceLeft(t)) <==> Below(t.left, t.priority) || Below(t.left.right, t.priority)
  {
    if t.left.Node? {
      BalanceLeftIdentity(t.left);
      if t.left.priority > t.priority {
        assert BalanceLeft(t).right == t.(left := t.left.right, lsize := t.lsize - (t.left.lsize + |t.left.data|));
      }
    }
  }

  lemma {:induction false} BalanceRightOrdersIff(t: Tree)
    requires Valid(t) && t.Node? && HeapOrdered(t.left) && HeapOrdered(t.right) && Below(t.left, t.priority)
    ensures HeapOrdered(BalanceRight(t)) <==> Below(t.right, t.priority) || Below(t.right.left, t.priority)
  {
    if t.right.Node? {
      BalanceRightIdentity(t.right);
      if t.right.priority > t.priority {
        assert BalanceRight(t).left == t.(right := t.right.left);
      }
    }
  }

  /** Where inside its landing node the insertion point falls. */
  function LandingOffset(t: Tree, index: nat): nat
    requires Valid(t) && index <= Size(t)
  {
    if t.Empty? then 0
    else if index < t.lsize then LandingOffset(t.left, index)
    else if index - t.lsize > |t.data| then LandingOffset(t.right, index - t.lsize - |t.data|)
    else index - t.lsize
  }

  /** `r` is `t` with at most one node added, still heap ordered; the only priority that may exceed the
      old root's is the new root's own. */
  predicate GrownByOne(t: Tree, drawn: nat, r: Grown) {
    && HeapOrdered(r.tree) && r.tree.Node?
    && drawn <= r.drawn <= drawn + 1
    && Nodes(r.tree) == Nodes(t) + (r.drawn - drawn)
    && if t.Empty? then r.tree.left.Empty? && r.tree.right.Empty?
       else Below(r.tree.left, t.priority) && Below(r.tree.right, t.priority)
  }

  /** If the string fits behind the insertion point in the node it lands in, the whole spill cascade
      creates at most one node and one rotation per level restores the heap order. */
  lemma {:induction false} FittingInsertKeepsHeapOrder(t: Tree, index: nat, str: string, tape: Tape, drawn: nat)
    requires Valid(t) && index <= Size(t) && HeapOrdered(t)
    requires LandingOffset(t, index) + |str| <= BUFFER_SIZE
    ensures GrownByOne(t, drawn, Insert(t, index, str, tape, drawn))
    decreases |str|, Size(t), Nodes(t) + 1
  {
    if t.Empty? {
      FittingLand(Node(Empty, Empty, 0, [], tape(drawn)), 0, str, tape, drawn + 1);
    } else if index < t.lsize {
      FittingInsertKeepsHeapOrder(t.left, index, str, tape, drawn);
      var g := Insert(t.left, index, str, tape, drawn);
      BalanceGrownLeft(t, t.(left := g.tree, lsize := t.lsize + |str|), drawn, g);
    } else if index - t.lsize > |t.data| {
      FittingInsertKeepsHeapOrder(t.right, index - t.lsize - |t.data|, str, tape, drawn);
      var g := Insert(t.right, index - t.lsize - |t.data|, str, tape, drawn);
      BalanceGrownRight(t, t.(right := g.tree), drawn, g);
    } else {
      FittingLand(t, index - t.lsize, str, tape, drawn);
    }
  }

  lemma {:induction false} FittingLand(t: Tree, i: nat, str: string, tape: Tape, drawn: nat)
    requires Valid(t) && t.Node? && i <= |t.data| && HeapOrdered(t)
    requires i + |str| <= BUFFER_SIZE
    ensures GrownByOne(t, drawn, Land(t, i, str, tape, drawn))
    ensures |t.data| + |str| <= BUFFER_SIZE ==>
              Land(t, i, str, tape, drawn) == Grown(t.(data := Splice(t.data, i, str)), drawn)
    decreases |str|, Size(t), 0
  {
    if |t.data| + |str| <= BUFFER_SIZE {
      BalanceRightIdentity(t.(data := Splice(t.data, i, str)));
    } else {
      var tail := Suffix(t.data, KeptSize(i, |str|));
      LandingAtFront(t.right);
      FittingInsertKeepsHeapOrder(t.right, 0, tail, tape, drawn);
      var g := Insert(t.right, 0, tail, tape, drawn);
      BalanceGrownRight(t, t.(right := g.tree, data := Splice(t.data[..KeptSize(i, |str|)], i, str)), drawn, g);
    }
  }

  lemma {:induction false} LandingAtFront(t: Tree)
    requires Valid(t)
    ensures LandingOffset(t, 0) == 0
    decreases t
  {
    if t.Node? && 0 < t.lsize { LandingAtFront(t.left); }
  }

  lemma {:induction false} BalanceGrownLeft(before: Tree, t: Tree, drawn: nat, g: Grown)
    requires Valid(t) && t.Node? && t.left == g.tree
    requires before.Node? && HeapOrdered(before) && before.priority == t.priority && before.right == t.right
    requires GrownByOne(before.left, drawn, g)
    ensures GrownByOne(before, drawn, Grown(BalanceLeft(t), g.drawn))
  {
    BalanceLeftIdentity(t.left);
    if t.left.priority > t.priority { RotateRightKeeps(t); }
  }

  lemma {:induction false} BalanceGrownRight(before: Tree, t: Tree, drawn: nat, g: Grown)
    requires Valid(t) && t.Node? && t.right == g.tree
    requires before.Node? && HeapOrdered(before) && before.priority == t.priority && before.left == t.left
    requires GrownByOne(before.right, drawn, g)
    ensures GrownByOne(before, drawn, Grown(BalanceRight(t), g.drawn))
  {
    BalanceRightIdentity(t.right);
  }

  /** The priority of the last node of the right spine, the node that holds the final bytes of `t`. */
  function LastPriority(t: Tree): nat
    requires t.Node?
  {
    if t.right.Empty? then t.priority else LastPriority(t.right)
  }

  /** `merge` rotates once per level, which is not always enough. It keeps the heap order of two ordered
      trees exactly when the left child of the second does not outrank the last node of the first. */
  lemma {:induction false} MergeKeepsHeapOrderIff(l: Tree, r: Tree)
    requires Valid(l) && Valid(r) && l.Node? && r.Node? && HeapOrdered(l) && HeapOrdered(r)
    ensures HeapOrdered(Merge(l, r)) <==> Below(r.left, LastPriority(l))
    ensures var m := Merge(l, r);
            && m.Node? && BalanceRight(m) == m
            && (if r.priority > l.priority
                then m.priority == r.priority && m.left.Node? && m.left.priority == l.priority
                else m.priority == l.priority)
    decreases l
  {
    var m1 := Merge(l.right, r);
    var t := l.(right := m1);
    if l.right.Empty? {
      BalanceRightIdentity(r);
    } else {
      MergeKeepsHeapOrderIff(l.right, r);
    }
    if m1.priority > l.priority { RotatedSpine(t); }
  }

  lemma {:induction false} RotatedSpine(t: Tree)
    requires Valid(t) && t.Node? && t.right.Node? && BalanceRight(t.right) == t.right
    requires t.right.priority > t.priority
    ensures BalanceRight(t) == RotateLeft(t)
    ensures Valid(RotateLeft(t)) && BalanceRight(RotateLeft(t)) == RotateLeft(t)
  {
    RotateLeftKeeps(t);
  }

  /** A node that ran empty is replaced by its merged children, in order exactly when their merge is. */
  lemma {:induction false} SettleKeepsHeapOrderIff(t: Tree)
    requires Valid(t) && t.Node? && HeapOrdered(t)
    ensures HeapOrdered(Settle(t)) <==>
              t.data != [] || t.left.Empty? || t.right.Empty? || Below(t.right.left, LastPriority(t.left))
    ensures Below(Settle(t), t.priority)
  {
    if t.left.Node? && t.right.Node? { MergeKeepsHeapOrderIff(t.left, t.right); }
  }

  /** The subtree whose own bytes hold the byte at `index`, and where among them. */
  function Holder(t: Tree, index: nat): (r: (Tree, nat))
    requires Valid(t) && index < Size(t)
    ensures r.0.Node? && r.1 < |r.0.data| && index + (|r.0.data| - r.1) <= Size(t)
  {
    if index < t.lsize then Holder(t.left, index)
    else if index - t.lsize < |t.data| then (t, index - t.lsize)
    else Holder(t.right, index - t.lsize - |t.data|)
  }

  /** Erasing a range of one node's bytes keeps the heap order exactly when the node keeps some of its bytes or the
      merge of its children keeps their order. */
  lemma {:induction false} EraseHeapOrderIff(t: Tree, index: nat, size: nat, r: Tree)
    requires Valid(t) && HeapOrdered(t) && Packed(t) && index < Size(t)
    requires Holder(t, index).1 + size <= |Holder(t, index).0.data| && r == Erase(t, index, size)
    ensures var n := Holder(t, index).0;
            HeapOrdered(r) <==>
              size < |n.data| || n.left.Empty? || n.right.Empty? || Below(n.right.left, LastPriority(n.left))
    ensures Below(r, t.priority)
    decreases t
  {
    if index < t.lsize {
      var left := EraseInLeft(t, index, size);
      EraseHeapOrderIff(t.left, index, size, left);
    } else if index - t.lsize < |t.data| {
      var t1 := EraseInRoot(t, index, size);
      SettleKeepsHeapOrderIff(t1);
    } else {
      var right := EraseInRight(t, index, size);
      EraseHeapOrderIff(t.right, index - t.lsize - |t.data|, size, right);
    }
  }

  lemma {:induction false} EraseInLeft(t: Tree, index: nat, size: nat) returns (left: Tree)
    requires Valid(t) && t.Node? && t.data != [] && index < t.lsize && index + size <= t.lsize
    ensures left == Erase(t.left, index, size)
    ensures Erase(t, index, size) == t.(left := left, lsize := t.lsize - size)
  {
    left := Erase(t.left, index, size);
    PruneInLeft(t, index, size, Prune(t, index, size));
  }

  lemma {:induction false} EraseInRoot(t: Tree, index: nat, size: nat) returns (t1: Tree)
    requires Valid(t) && t.Node? && t.lsize <= index < t.lsize + |t.data| && index + size <= t.lsize + |t.data|
    ensures t1.Node? && t1 == t.(data := t1.data) && |t1.data| == |t.data| - size && Valid(t1)
    ensures Erase(t, index, size) == Settle(t1)
  {
    t1 := t.(data := Cut(t.data, index - t.lsize, size));
    PruneSkipsLeft(t, index, size, Prune(t, index, size));
  }

  lemma {:induction false} EraseInRight(t: Tree, index: nat, size: nat) returns (right: Tree)
    requires Valid(t) && t.Node? && t.data != [] && t.lsize + |t.data| <= index < Size(t) && index + size <= Size(t)
    ensures right == Erase(t.right, index - t.lsize - |t.data|, size)
    ensures Erase(t, index, size) == t.(right := right)
  {
    right := Erase(t.right, index - t.lsize - |t.data|, size);
    PruneSkipsLeft(t, index, size, Prune(t, index, size));
  }

  /** Two spills in one insert have the same weakness: a string that needs three buffers leaves the
      tree unordered exactly when the three priorities drawn increase. */
  lemma {:induction false} TripleInsertHeapOrderIff(str: string, tape: Tape, drawn: nat)
    requires 2 * BUFFER_SIZE < |str| <= 3 * BUFFER_SIZE
    ensures HeapOrdered(Insert(Empty, 0, str, tape, drawn).tree)
       <==> !(tape(drawn) < tape(drawn + 1) < tape(drawn + 2))
  {
    var tail := Suffix(str, BUFFER_SIZE);
    LandInBlank(Suffix(tail, BUFFER_SIZE), tape(drawn + 2), tape, drawn + 3);
    SpillFromBlank(tail, tape(drawn + 1), tape, drawn + 2);
    SpillFromBlank(str, tape(drawn), tape, drawn + 1);
    ChainHeapOrder(Leaf(str[..BUFFER_SIZE], tape(drawn)), Leaf(tail[..BUFFER_SIZE], tape(drawn + 1)),
                   Leaf(Suffix(tail, BUFFER_SIZE), tape(drawn + 2)));
  }

  function Leaf(data: string, priority: nat): (r: Tree)
    ensures r.Node? && (|data| <= BUFFER_SIZE ==> Valid(r)) && HeapOrdered(r)
  {
    Node(Empty, Empty, 0, data, priority)
  }

  lemma {:induction false} LandInBlank(str: string, priority: nat, tape: Tape, drawn: nat)
    requires |str| <= BUFFER_SIZE
    ensures Land(Leaf([], priority), 0, str, tape, drawn) == Grown(Leaf(str, priority), drawn)
  {
    assert Splice([], 0, str) == str;
  }

  lemma {:induction false} SpillFromBlank(str: string, priority: nat, tape: Tape, drawn: nat)
    requires |str| > BUFFER_SIZE
    ensures var g := Land(Leaf([], tape(drawn)), 0, Suffix(str, BUFFER_SIZE), tape, drawn + 1);
            var t := Leaf(str[..BUFFER_SIZE], priority).(right := g.tree);
            && Valid(t)
            && Land(Leaf([], priority), 0, str, tape, drawn) == Grown(BalanceRight(t), g.drawn)
  {
    var next := Leaf([], tape(drawn));
    assert Insert(Empty, 0, [], tape, drawn) == Grown(next, drawn + 1) by {
      LandInBlank([], tape(drawn), tape, drawn + 1);
    }
    var g := Land(next, 0, Suffix(str, BUFFER_SIZE), tape, drawn + 1);
    assert Insert(next, 0, Suffix(str, BUFFER_SIZE), tape, drawn + 1) == g;
    var head := str[..BUFFER_SIZE];
    var none: string := [];
    assert Splice(none[..0], 0, head) == head;
    assert KeptSize(0, |str|) == 0 && Suffix(none, 0) == none;
  }

  lemma {:induction false} ChainHeapOrder(a: Tree, b: Tree, c: Tree)
    requires a.Node? && a == Leaf(a.data, a.priority) && Valid(a)
    requires b.Node? && b == Leaf(b.data, b.priority) && Valid(b)
    requires c.Node? && c == Leaf(c.data, c.priority) && Valid(c)
    ensures HeapOrdered(BalanceRight(a.(right := BalanceRight(b.(right := c)))))
       <==> !(a.priority < b.priority < c.priority)
  {
    assert BalanceRight(c) == c;
    var x := BalanceRight(b.(right := c));
    if c.priority > b.priority {
      assert x == c.(left := b, lsize := |b.data|);
      assert BalanceRight(x) == x;
      var y := a.(right := x);
      if x.priority > a.priority {
        assert BalanceRight(y) == RotateLeft(y);
        assert RotateLeft(y).left == a.(right := b);
        assert HeapOrdered(a.(right := b)) <==> b.priority <= a.priority;
      } else {
        assert BalanceRight(y) == y;
      }
    } else {
      assert x == b.(right := c);
    }
  }
}
