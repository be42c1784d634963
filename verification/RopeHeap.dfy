/** `util/rope.cc` as it runs: uniquely owned nodes with fixed 4096-byte buffers, changed in place.
    Every operation is proved to do to the nodes what `RopeTree` does to the tree they stand for. */
module RopeHeap {
  import opened RopeTree
  import opened Sequences

  class Rep {
    var lchild: Rep?
    var rchild: Rep?
    var lsize: nat
    var size: nat
    var priority: nat
    const buffer: array<char>

    constructor (priority: nat)
      ensures lchild == null && rchild == null && lsize == 0 && size == 0 && this.priority == priority
      ensures fresh(buffer) && buffer.Length == BUFFER_SIZE
    {
      lchild, rchild, lsize, size := null, null, 0, 0;
      this.priority := priority;
      buffer := new char[BUFFER_SIZE];
    }
  }

  function Min(a: nat, b: nat): nat {
    if a <= b then a else b
  }

  /** Which nodes a subtree consists of. */
  datatype Shape = Nil | Branch(node: Rep, left: Shape, right: Shape)

  function Root(s: Shape): Rep? {
    if s.Nil? then null else s.node
  }

  ghost function Footprint(s: Shape): set<object> {
    if s.Nil? then {} else {s.node, s.node.buffer} + Footprint(s.left) + Footprint(s.right)
  }

  /** No node and no buffer occurs twice: the ownership that `unique_ptr` enforces. */
  ghost predicate Distinct(s: Shape) {
    s.Branch? ==>
      && Distinct(s.left) && Distinct(s.right)
      && {s.node, s.node.buffer} !! Footprint(s.left) !! Footprint(s.right)
  }

  /** The node's own fields, apart from its links, are those of the root of `t`. */
  ghost predicate Own(n: Rep, t: Tree)
    reads n, n.buffer
  {
    && t.Node? && n.lsize == t.lsize && n.priority == t.priority
    && n.buffer.Length == BUFFER_SIZE && n.size <= BUFFER_SIZE && n.buffer[..n.size] == t.data
  }

  /** The nodes of `s` hold the tree `t`. */
  ghost predicate Holds(s: Shape, t: Tree)
    reads Footprint(s)
  {
    match s
    case Nil => t.Empty?
    case Branch(n, l, r) =>
      Own(n, t) && n.lchild == Root(l) && n.rchild == Root(r) && Holds(l, t.left) && Holds(r, t.right)
  }

  lemma {:induction false} Allocated(s: Shape)
    ensures forall o | o in Footprint(s) :: allocated(o)
  {
    if s.Branch? {
      Allocated(s.left);
      Allocated(s.right);
    }
  }

  /** `rep->lchild = l; rep->lsize = lsize`, for a tree `l` that shares nothing with the rest of the node. */
  method SetLeft(rep: Rep, l: Rep?, lsize: nat, ghost s: Shape, ghost t: Tree, ghost sl: Shape, ghost tl: Tree)
    returns (ghost s': Shape)
    requires s.Branch? && Root(s) == rep && Distinct(s) && Own(rep, t)
    requires rep.rchild == Root(s.right) && Holds(s.right, t.right)
    requires Root(sl) == l && Distinct(sl) && Holds(sl, tl)
    requires Footprint(sl) !! {rep, rep.buffer} + Footprint(s.right)
    modifies rep`lchild, rep`lsize
    ensures s' == Branch(rep, sl, s.right) && Distinct(s') && Holds(s', t.(left := tl, lsize := lsize))
  {
    rep.lchild := l;
    rep.lsize := lsize;
    s' := Branch(rep, sl, s.right);
  }

  method SetRight(rep: Rep, r: Rep?, ghost s: Shape, ghost t: Tree, ghost sr: Shape, ghost tr: Tree)
    returns (ghost s': Shape)
    requires s.Branch? && Root(s) == rep && Distinct(s) && Own(rep, t)
    requires rep.lchild == Root(s.left) && Holds(s.left, t.left)
    requires Root(sr) == r && Distinct(sr) && Holds(sr, tr)
    requires Footprint(sr) !! {rep, rep.buffer} + Footprint(s.left)
    modifies rep`rchild
    ensures s' == Branch(rep, s.left, sr) && Distinct(s') && Holds(s', t.(right := tr))
  {
    rep.rchild := r;
    s' := Branch(rep, s.left, sr);
  }

  method RotateLeft(rep: Rep, ghost s: Shape, ghost t: Tree) returns (peer: Rep, ghost s': Shape)
    requires Distinct(s) && Holds(s, t) && Root(s) == rep && rep.rchild != null
    modifies rep, rep.rchild
    ensures Distinct(s') && Footprint(s') == Footprint(s) && Root(s') == peer
    ensures t.Node? && t.right.Node? && Holds(s', RopeTree.RotateLeft(t))
  {
    peer := rep.rchild;
    rep.rchild := peer.lchild;
    peer.lsize := peer.lsize + (rep.lsize + rep.size);
    peer.lchild := rep;
    ghost var r := s.right;
    s' := Branch(peer, Branch(rep, s.left, r.left), r.right);
  }

  method RotateRight(rep: Rep, ghost s: Shape, ghost t: Tree) returns (peer: Rep, ghost s': Shape)
    requires Distinct(s) && Holds(s, t) && Root(s) == rep && rep.lchild != null
    requires t.left.Node? && t.left.lsize + |t.left.data| <= t.lsize
    modifies rep, rep.lchild
    ensures Distinct(s') && Footprint(s') == Footprint(s) && Root(s') == peer
    ensures Holds(s', RopeTree.RotateRight(t))
  {
    peer := rep.lchild;
    rep.lchild := peer.rchild;
    rep.lsize := rep.lsize - (peer.lsize + peer.size);
    peer.rchild := rep;
    ghost var l := s.left;
    s' := Branch(peer, l.left, Branch(rep, l.right, s.right));
  }

  method BalanceLeft(rep: Rep, ghost s: Shape, ghost t: Tree) returns (r: Rep, ghost s': Shape)
    requires Distinct(s) && Holds(s, t) && Root(s) == rep && Valid(t)
    modifies Footprint(s)
    ensures Distinct(s') && Footprint(s') == Footprint(s) && Root(s') == r
    ensures Holds(s', RopeTree.BalanceLeft(t))
    decreases t
  {
    r, s' := rep, s;
    if rep.lchild != null {
      var l; ghost var sl;
      Allocated(s.right);
      l, sl := BalanceLeft(rep.lchild, s.left, t.left);
      s' := SetLeft(rep, l, rep.lsize, s, t, sl, RopeTree.BalanceLeft(t.left));
      ghost var t1 := t.(left := RopeTree.BalanceLeft(t.left));
      if l.priority > rep.priority {
        r, s' := RotateRight(rep, s', t1);
      }
    }
  }

  method BalanceRight(rep: Rep, ghost s: Shape, ghost t: Tree) returns (r: Rep, ghost s': Shape)
    requires Distinct(s) && Holds(s, t) && Root(s) == rep && Valid(t)
    modifies Footprint(s)
    ensures Distinct(s') && Footprint(s') == Footprint(s) && Root(s') == r
    ensures Holds(s', RopeTree.BalanceRight(t))
    decreases t
  {
    r, s' := rep, s;
    if rep.rchild != null {
      var p; ghost var sp;
      Allocated(s.left);
      p, sp := BalanceRight(rep.rchild, s.right, t.right);
      s' := SetRight(rep, p, s, t, sp, RopeTree.BalanceRight(t.right));
      ghost var t1 := t.(right := RopeTree.BalanceRight(t.right));
      if p.priority > rep.priority {
        r, s' := RotateLeft(rep, s', t1);
      }
    }
  }

  /** `rep->size = kept`: forget the tail of the node's bytes. */
  method Truncate(rep: Rep, kept: nat, ghost s: Shape, ghost t: Tree)
    requires s.Branch? && Distinct(s) && Holds(s, t) && Root(s) == rep && kept <= rep.size
    modifies rep`size
    ensures Holds(s, t.(data := t.data[..kept])) && rep.size == kept
  {
    rep.size := kept;
  }

  /** The `memmove` that opens a gap at `i` in the first `size` bytes and the `memcpy` that fills it with `str`. */
  method MoveIn(buffer: array<char>, size: nat, i: nat, str: string)
    requires i <= size && size + |str| <= buffer.Length
    modifies buffer
    ensures buffer[..size + |str|] == Splice(old(buffer[..size]), i, str)
  {
    var n := |str|;
    forall k | i <= k < size { buffer[k + n] := buffer[k]; }
    forall k | 0 <= k < n { buffer[i + k] := str[k]; }
    MovedIn(buffer[..size + n], old(buffer[..size]), i, str);
  }

  lemma {:induction false} MovedIn(now: string, before: string, i: nat, str: string)
    requires i <= |before| && |now| == |before| + |str|
    requires forall k | 0 <= k < i :: now[k] == before[k]
    requires forall k | i <= k < |before| :: now[k + |str|] == before[k]
    requires forall k | 0 <= k < |str| :: now[i + k] == str[k]
    ensures now == Splice(before, i, str)
  {
    assert now[..i] == before[..i];
    assert now[i..i + |str|] == str;
    assert now[i + |str|..] == before[i..];
  }

  /** The `memmove` that closes a gap of `n` bytes at `i` in the first `size` bytes. */
  method MoveOut(buffer: array<char>, size: nat, i: nat, n: nat)
    requires i + n <= size <= buffer.Length
    modifies buffer
    ensures buffer[..size - n] == Cut(old(buffer[..size]), i, n)
  {
    forall k | i + n <= k < size { buffer[k - n] := buffer[k]; }
  }

  /** Put `str` at position `i` of a node with room for it. */
  method Write(rep: Rep, i: nat, str: string, ghost s: Shape, ghost t: Tree)
    requires s.Branch? && Distinct(s) && Holds(s, t) && Root(s) == rep
    requires i <= rep.size && rep.size + |str| <= BUFFER_SIZE
    modifies rep`size, rep.buffer
    ensures Holds(s, t.(data := Splice(t.data, i, str)))
  {
    Allocated(s.left);
    Allocated(s.right);
    MoveIn(rep.buffer, rep.size, i, str);
    rep.size := rep.size + |str|;
  }

  /** `std::make_unique<Rep>()` with a drawn priority. */
  method NewRep(priority: nat) returns (r: Rep, ghost s: Shape)
    ensures Distinct(s) && Root(s) == r
    ensures forall o | o in Footprint(s) :: fresh(o)
    ensures Holds(s, Node(Empty, Empty, 0, [], priority))
  {
    r := new Rep(priority);
    s := Branch(r, Nil, Nil);
    assert Footprint(s) == {r, r.buffer};
  }

  /** `Rope::insert`. */
  method Insert(rep: Rep?, index: nat, str: string, tape: Tape, drawn: nat, ghost s: Shape, ghost t: Tree,
                ghost goal: Grown)
    returns (r: Rep, drawn': nat, ghost s': Shape)
    requires Distinct(s) && Holds(s, t) && Root(s) == rep && Valid(t) && index <= Size(t)
    requires goal == RopeTree.Insert(t, index, str, tape, drawn)
    modifies Footprint(s)
    ensures Distinct(s') && Root(s') == r
    ensures forall o | o in Footprint(s') :: o in Footprint(s) || fresh(o)
    ensures Holds(s', goal.tree) && drawn' == goal.drawn
    decreases |str|, Size(t), Nodes(t) + 1, 1
  {
    if rep == null {
      r, drawn', s' := InsertNew(str, tape, drawn, goal);
    } else if index < rep.lsize {
      r, drawn', s' := InsertLeft(rep, index, str, tape, drawn, s, t, goal);
    } else if index - rep.lsize > rep.size {
      r, drawn', s' := InsertRight(rep, index, str, tape, drawn, s, t, goal);
    } else {
      r, drawn', s' := Land(rep, index - rep.lsize, str, tape, drawn, s, t, goal);
    }
  }

  method InsertNew(str: string, tape: Tape, drawn: nat, ghost goal: Grown)
    returns (r: Rep, drawn': nat, ghost s': Shape)
    requires goal == RopeTree.Insert(Empty, 0, str, tape, drawn)
    ensures Distinct(s') && Root(s') == r
    ensures forall o | o in Footprint(s') :: fresh(o)
    ensures Holds(s', goal.tree) && drawn' == goal.drawn
    decreases |str|, 0, 1, 0
  {
    ghost var s;
    r, s := NewRep(tape(drawn));
    ghost var t := Node(Empty, Empty, 0, [], tape(drawn));
    assert Content(t) == [];
    r, drawn', s' := Land(r, 0, str, tape, drawn + 1, s, t, goal);
  }

  method InsertLeft(rep: Rep, index: nat, str: string, tape: Tape, drawn: nat, ghost s: Shape, ghost t: Tree,
                    ghost goal: Grown)
    returns (r: Rep, drawn': nat, ghost s': Shape)
    requires Distinct(s) && Holds(s, t) && Root(s) == rep && Valid(t) && index < rep.lsize
    requires goal == RopeTree.Insert(t, index, str, tape, drawn)
    modifies Footprint(s)
    ensures Distinct(s') && Root(s') == r
    ensures forall o | o in Footprint(s') :: o in Footprint(s) || fresh(o)
    ensures Holds(s', goal.tree) && drawn' == goal.drawn
    decreases |str|, Size(t), Nodes(t) + 1, 0
  {
    InsertLeftSteps(t, index, str, tape, drawn);
    ghost var g := RopeTree.Insert(t.left, index, str, tape, drawn);
    drawn', s' := GrowLeft(rep, index, str, tape, drawn, s, t, g);
    r, s' := BalanceLeft(rep, s', t.(left := g.tree, lsize := t.lsize + |str|));
  }

  lemma {:induction false} InsertLeftSteps(t: Tree, index: nat, str: string, tape: Tape, drawn: nat)
    requires Valid(t) && t.Node? && index < t.lsize
    ensures index <= Size(t.left) <= Size(t) && Nodes(t.left) < Nodes(t)
    ensures var g := RopeTree.Insert(t.left, index, str, tape, drawn);
            var t1 := t.(left := g.tree, lsize := t.lsize + |str|);
            Valid(t1) && RopeTree.Insert(t, index, str, tape, drawn) == Grown(RopeTree.BalanceLeft(t1), g.drawn)
  {
  }

  /** `rep->lchild = insert(rep->lchild, index, str)` with its `lsize`. */
  method GrowLeft(rep: Rep, index: nat, str: string, tape: Tape, drawn: nat, ghost s: Shape, ghost t: Tree,
                  ghost g: Grown)
    returns (drawn': nat, ghost s': Shape)
    requires Distinct(s) && Holds(s, t) && Root(s) == rep && Valid(t.left) && index <= Size(t.left)
    requires g == RopeTree.Insert(t.left, index, str, tape, drawn)
    modifies rep`lchild, rep`lsize, Footprint(s.left)
    ensures s'.Branch? && Distinct(s') && Root(s') == rep
    ensures forall o | o in Footprint(s') :: o in Footprint(s) || fresh(o)
    ensures Holds(s', t.(left := g.tree, lsize := t.lsize + |str|)) && drawn' == g.drawn
    decreases |str|, Size(t.left), Nodes(t.left) + 1, 2
  {
    Allocated(s.right);
    var l; ghost var sl;
    l, drawn', sl := Insert(rep.lchild, index, str, tape, drawn, s.left, t.left, g);
    s' := SetLeft(rep, l, rep.lsize + |str|, s, t, sl, g.tree);
  }

  method InsertRight(rep: Rep, index: nat, str: string, tape: Tape, drawn: nat, ghost s: Shape, ghost t: Tree,
                    ghost goal: Grown)
    returns (r: Rep, drawn': nat, ghost s': Shape)
    requires Distinct(s) && Holds(s, t) && Root(s) == rep && Valid(t)
    requires rep.lsize + rep.size < index <= Size(t)
    requires goal == RopeTree.Insert(t, index, str, tape, drawn)
    modifies Footprint(s)
    ensures Distinct(s') && Root(s') == r
    ensures forall o | o in Footprint(s') :: o in Footprint(s) || fresh(o)
    ensures Holds(s', goal.tree) && drawn' == goal.drawn
    decreases |str|, Size(t), Nodes(t) + 1, 0
  {
    var i := index - rep.lsize - rep.size;
    InsertRightSteps(t, index, i, str, tape, drawn);
    ghost var g := RopeTree.Insert(t.right, i, str, tape, drawn);
    drawn', s' := GrowRight(rep, i, str, tape, drawn, s, t, g);
    r, s' := BalanceRight(rep, s', t.(right := g.tree));
  }

  lemma {:induction false} InsertRightSteps(t: Tree, index: nat, i: nat, str: string, tape: Tape, drawn: nat)
    requires Valid(t) && t.Node? && t.lsize + |t.data| < index <= Size(t) && i == index - t.lsize - |t.data|
    ensures i <= Size(t.right) <= Size(t) && Nodes(t.right) < Nodes(t)
    ensures var g := RopeTree.Insert(t.right, i, str, tape, drawn);
            var t1 := t.(right := g.tree);
            Valid(t1) && RopeTree.Insert(t, index, str, tape, drawn) == Grown(RopeTree.BalanceRight(t1), g.drawn)
  {
  }

  /** `rep->rchild = insert(rep->rchild, i, str)`. */
  method GrowRight(rep: Rep, i: nat, str: string, tape: Tape, drawn: nat, ghost s: Shape, ghost t: Tree,
                   ghost g: Grown)
    returns (drawn': nat, ghost s': Shape)
    requires Distinct(s) && Holds(s, t) && Root(s) == rep && Valid(t.right) && i <= Size(t.right)
    requires g == RopeTree.Insert(t.right, i, str, tape, drawn)
    modifies rep`rchild, Footprint(s.right)
    ensures s'.Branch? && Distinct(s') && Root(s') == rep
    ensures forall o | o in Footprint(s') :: o in Footprint(s) || fresh(o)
    ensures Holds(s', t.(right := g.tree)) && drawn' == g.drawn
    decreases |str|, Size(t.right), Nodes(t.right) + 1, 2
  {
    Allocated(s.left);
    var p; ghost var sp;
    p, drawn', sp := Insert(rep.rchild, i, str, tape, drawn, s.right, t.right, g);
    s' := SetRight(rep, p, s, t, sp, g.tree);
  }

  /** The part of `Rope::insert` that runs at the landing node. */
  method Land(rep: Rep, i: nat, str: string, tape: Tape, drawn: nat, ghost s: Shape, ghost t: Tree,
             ghost goal: Grown)
    returns (r: Rep, drawn': nat, ghost s': Shape)
    requires Distinct(s) && Holds(s, t) && Root(s) == rep && Valid(t) && i <= rep.size
    requires goal == RopeTree.Land(t, i, str, tape, drawn)
    modifies Footprint(s)
    ensures Distinct(s') && Root(s') == r
    ensures forall o | o in Footprint(s') :: o in Footprint(s) || fresh(o)
    ensures Holds(s', goal.tree) && drawn' == goal.drawn
    decreases |str|, Size(t), 0, 1
  {
    if rep.size + |str| <= BUFFER_SIZE {
      Write(rep, i, str, s, t);
      drawn', s' := drawn, s;
      r, s' := BalanceRight(rep, s', t.(data := Splice(t.data, i, str)));
    } else {
      r, drawn', s' := Spill(rep, i, str, tape, drawn, s, t, goal);
    }
  }

  /** The first spill of `Rope::insert`: the node's bytes from `kept` on move to the right subtree. */
  method SpillTail(rep: Rep, kept: nat, tape: Tape, drawn: nat, ghost s: Shape, ghost t: Tree)
    returns (drawn': nat, ghost s': Shape)
    requires Distinct(s) && Holds(s, t) && Root(s) == rep && Valid(t.right) && kept <= rep.size
    modifies rep`rchild, rep`size, Footprint(s.right)
    ensures s'.Branch? && Distinct(s') && Root(s') == rep
    ensures forall o | o in Footprint(s') :: o in Footprint(s) || fresh(o)
    ensures var g := RopeTree.Insert(t.right, 0, Suffix(t.data, kept), tape, drawn);
            Holds(s', t.(right := g.tree, data := t.data[..kept])) && drawn' == g.drawn
    decreases rep.size - kept, Size(t.right), Nodes(t.right) + 3
  {
    assert rep.buffer[kept..rep.size] == Suffix(t.data, kept);
    ghost var g := RopeTree.Insert(t.right, 0, Suffix(t.data, kept), tape, drawn);
    drawn', s' := GrowRight(rep, 0, rep.buffer[kept..rep.size], tape, drawn, s, t, g);
    Truncate(rep, kept, s', t.(right := g.tree));
  }

  /** The overflow branch of `Rope::insert`: the node's tail, and what does not fit of `str`, move right. */
  method Spill(rep: Rep, i: nat, str: string, tape: Tape, drawn: nat, ghost s: Shape, ghost t: Tree,
              ghost goal: Grown)
    returns (r: Rep, drawn': nat, ghost s': Shape)
    requires Distinct(s) && Holds(s, t) && Root(s) == rep && Valid(t)
    requires i <= rep.size && rep.size + |str| > BUFFER_SIZE && goal == RopeTree.Land(t, i, str, tape, drawn)
    modifies Footprint(s)
    ensures Distinct(s') && Root(s') == r
    ensures forall o | o in Footprint(s') :: o in Footprint(s) || fresh(o)
    ensures Holds(s', goal.tree) && drawn' == goal.drawn
    decreases |str|, Size(t), 0, 0
  {
    var kept := KeptSize(i, |str|);
    ghost var g := RopeTree.Insert(t.right, 0, Suffix(t.data, kept), tape, drawn);
    ghost var t1 := t.(right := g.tree, data := t.data[..kept]);
    SpillSizes(t, i, str, tape, drawn);
    drawn', s' := SpillTail(rep, kept, tape, drawn, s, t);
    ghost var t2;
    drawn', s', t2 := SpillStr(rep, i, str, tape, drawn', s', t1);
    SpillResult(t, i, str, tape, drawn);
    r, s' := BalanceRight(rep, s', t2);
  }

  lemma {:induction false} SpillSizes(t: Tree, i: nat, str: string, tape: Tape, drawn: nat)
    requires Valid(t) && t.Node? && i <= |t.data| && |t.data| + |str| > BUFFER_SIZE
    ensures var kept := KeptSize(i, |str|);
            var g := RopeTree.Insert(t.right, 0, Suffix(t.data, kept), tape, drawn);
            && kept <= |t.data| && Valid(t.right) && Valid(g.tree)
            && |t.data| - kept <= |str|
            && (|t.data| - kept == |str| ==> Size(t.right) < Size(t))
            && (i == BUFFER_SIZE ==> Size(g.tree) < Size(t))
  {
  }

  /** The second spill, if `str` itself is too long, and the write of what stays. */
  method SpillStr(rep: Rep, i: nat, str: string, tape: Tape, drawn: nat, ghost s: Shape, ghost t: Tree)
    returns (drawn': nat, ghost s': Shape, ghost t': Tree)
    requires Distinct(s) && Holds(s, t) && Root(s) == rep && Valid(t.right)
    requires i <= rep.size && rep.size == KeptSize(i, |str|)
    modifies rep`rchild, rep`size, rep.buffer, Footprint(s.right)
    ensures s'.Branch? && Distinct(s') && Root(s') == rep
    ensures forall o | o in Footprint(s') :: o in Footprint(s) || fresh(o)
    ensures var fit := if i + |str| > BUFFER_SIZE then BUFFER_SIZE - i else |str|;
            var g := if i + |str| > BUFFER_SIZE then RopeTree.Insert(t.right, 0, Suffix(str, fit), tape, drawn)
                     else Grown(t.right, drawn);
            && drawn' == g.drawn && t' == t.(right := g.tree, data := Splice(t.data, i, str[..fit]))
            && Holds(s', t')
    decreases if i + |str| > BUFFER_SIZE then i + |str| - BUFFER_SIZE else 0, Size(t.right), Nodes(t.right) + 3
  {
    var fit;
    fit, drawn', s', t' := SpillRest(rep, i, str, tape, drawn, s, t);
    Write(rep, i, str[..fit], s', t');
    t' := t'.(data := Splice(t.data, i, str[..fit]));
  }

  /** The second spill. */
  method SpillRest(rep: Rep, i: nat, str: string, tape: Tape, drawn: nat, ghost s: Shape, ghost t: Tree)
    returns (fit: nat, drawn': nat, ghost s': Shape, ghost t': Tree)
    requires Distinct(s) && Holds(s, t) && Root(s) == rep && Valid(t.right) && i <= BUFFER_SIZE
    modifies rep`rchild, Footprint(s.right)
    ensures s'.Branch? && Distinct(s') && Root(s') == rep && Holds(s', t')
    ensures forall o | o in Footprint(s') :: o in Footprint(s) || fresh(o)
    ensures fit == if i + |str| > BUFFER_SIZE then BUFFER_SIZE - i else |str|
    ensures var g := if i + |str| > BUFFER_SIZE then RopeTree.Insert(t.right, 0, Suffix(str, fit), tape, drawn)
                     else Grown(t.right, drawn);
            drawn' == g.drawn && t' == t.(right := g.tree)
    decreases if i + |str| > BUFFER_SIZE then i + |str| - BUFFER_SIZE else 0, Size(t.right), Nodes(t.right) + 2
  {
    fit, drawn', s', t' := |str|, drawn, s, t;
    if i + |str| > BUFFER_SIZE {
      fit := BUFFER_SIZE - i;
      ghost var g := RopeTree.Insert(t.right, 0, Suffix(str, fit), tape, drawn);
      drawn', s' := GrowRight(rep, 0, Suffix(str, fit), tape, drawn, s, t, g);
      t' := t.(right := g.tree);
    }
  }

  lemma {:induction false} SpillResult(t: Tree, i: nat, str: string, tape: Tape, drawn: nat)
    requires Valid(t) && t.Node? && i <= |t.data| && |t.data| + |str| > BUFFER_SIZE
    ensures var kept := KeptSize(i, |str|);
            var g := RopeTree.Insert(t.right, 0, Suffix(t.data, kept), tape, drawn);
            var fit := if i + |str| > BUFFER_SIZE then BUFFER_SIZE - i else |str|;
            var g2 := if i + |str| > BUFFER_SIZE then RopeTree.Insert(g.tree, 0, Suffix(str, fit), tape, g.drawn)
                      else g;
            var t3 := t.(right := g2.tree, data := Splice(t.data[..kept], i, str[..fit]));
            Valid(t3) && RopeTree.Land(t, i, str, tape, drawn) == Grown(RopeTree.BalanceRight(t3), g2.drawn)
  {
    assert str[..|str|] == str;
  }

  /** `Rope::merge`. */
  method Merge(lrep: Rep?, rrep: Rep?, ghost sl: Shape, ghost tl: Tree, ghost sr: Shape, ghost tr: Tree)
    returns (m: Rep?, ghost s': Shape)
    requires Distinct(sl) && Holds(sl, tl) && Root(sl) == lrep && Valid(tl)
    requires Distinct(sr) && Holds(sr, tr) && Root(sr) == rrep && Valid(tr)
    requires Footprint(sl) !! Footprint(sr)
    modifies Footprint(sl), Footprint(sr)
    ensures Distinct(s') && Root(s') == m && Footprint(s') == Footprint(sl) + Footprint(sr)
    ensures Holds(s', RopeTree.Merge(tl, tr))
    decreases tl
  {
    if lrep == null {
      m, s' := rrep, sr;
    } else if rrep == null {
      m, s' := lrep, sl;
    } else {
      Allocated(sl.left);
      var p; ghost var sp;
      p, sp := Merge(lrep.rchild, rrep, sl.right, tl.right, sr, tr);
      ghost var t1 := tl.(right := RopeTree.Merge(tl.right, tr));
      s' := SetRight(lrep, p, sl, tl, sp, t1.right);
      m, s' := BalanceRight(lrep, s', t1);
    }
  }

  /** The common end of `Rope::erase`: a node that ran empty gives way to its children. */
  method Settle(rep: Rep, ghost s: Shape, ghost t: Tree, ghost goal: Tree) returns (r: Rep?, ghost s': Shape)
    requires Distinct(s) && Holds(s, t) && Root(s) == rep && Valid(t) && goal == RopeTree.Settle(t)
    modifies Footprint(s)
    ensures Distinct(s') && Root(s') == r && Footprint(s') <= Footprint(s)
    ensures Holds(s', goal)
  {
    if rep.size == 0 {
      r, s' := Merge(rep.lchild, rep.rchild, s.left, t.left, s.right, t.right);
    } else {
      r, s' := rep, s;
    }
  }

  /** `Rope::erase`. */
  method Erase(rep: Rep, index: nat, size: nat, ghost s: Shape, ghost t: Tree, ghost goal: Tree)
    returns (r: Rep?, ghost s': Shape)
    requires Distinct(s) && Holds(s, t) && Root(s) == rep && Valid(t)
    requires index < Size(t) && index + size <= Size(t) && goal == RopeTree.Erase(t, index, size)
    modifies Footprint(s)
    ensures Distinct(s') && Root(s') == r && Footprint(s') <= Footprint(s)
    ensures Holds(s', goal)
    decreases t, 2
  {
    ghost var t1 := RopeTree.Prune(t, index, size);
    s' := Prune(rep, index, size, s, t, t1);
    r, s' := Settle(rep, s', t1, goal);
  }

  /** `Rope::erase` up to its label `out`. */
  method Prune(rep: Rep, index: nat, size: nat, ghost s: Shape, ghost t: Tree, ghost goal: Tree)
    returns (ghost s': Shape)
    requires Distinct(s) && Holds(s, t) && Root(s) == rep && Valid(t)
    requires index < Size(t) && index + size <= Size(t) && goal == RopeTree.Prune(t, index, size)
    modifies Footprint(s)
    ensures Distinct(s') && Root(s') == rep && Footprint(s') <= Footprint(s)
    ensures Holds(s', goal)
    decreases t, 1
  {
    if index < rep.lsize {
      var n := Min(size, rep.lsize - index);
      ghost var t1 := PruneStarts(t, index, size, n, goal);
      s' := EraseLeft(rep, index, n, s, t, t1);
      if n < size {
        s' := PruneRest(rep, 0, size - n, s', t1, goal);
      }
    } else {
      PruneSkipsLeft(t, index, size, goal);
      s' := PruneRest(rep, index - rep.lsize, size, s, t, goal);
    }
  }

  lemma {:induction false} PruneStarts(t: Tree, index: nat, size: nat, n: nat, goal: Tree) returns (t1: Tree)
    requires Valid(t) && t.Node? && index < t.lsize && index + size <= Size(t) && n == Min(size, t.lsize - index)
    requires goal == RopeTree.Prune(t, index, size)
    ensures t1 == t.(left := RopeTree.Erase(t.left, index, n), lsize := t.lsize - n)
    ensures Valid(t1) && t1.right == t.right
    ensures if n < size then 0 < size - n <= |t1.data| + Size(t1.right) && goal == RopeTree.PruneRest(t1, 0, size - n)
            else goal == t1
  {
    if n < size {
      t1 := t.(left := RopeTree.Erase(t.left, index, n), lsize := t.lsize - n);
      PrunePastLeft(t, index, n, size - n, t1, goal);
    } else {
      t1 := goal;
      PruneInLeft(t, index, size, goal);
    }
  }

  lemma {:induction false} PruneRestStarts(t: Tree, i: nat, size: nat, n: nat, t1: Tree, goal: Tree)
    requires Valid(t) && t.Node? && i < |t.data| && i + size <= |t.data| + Size(t.right)
    requires n == Min(size, |t.data| - i) && t1 == t.(data := Cut(t.data, i, n))
    requires goal == RopeTree.PruneRest(t, i, size)
    ensures Valid(t1) && (n < size ==> 0 < size - n <= Size(t1.right))
    ensures goal == if n < size then t1.(right := RopeTree.Erase(t1.right, 0, size - n)) else t1
  {
  }

  /** `rep->lchild = erase(rep->lchild, index, n)` with its `lsize`. */
  method EraseLeft(rep: Rep, index: nat, n: nat, ghost s: Shape, ghost t: Tree, ghost goal: Tree)
    returns (ghost s': Shape)
    requires Distinct(s) && Holds(s, t) && Root(s) == rep && Valid(t) && index < t.lsize && index + n <= t.lsize
    requires goal == t.(left := RopeTree.Erase(t.left, index, n), lsize := t.lsize - n)
    modifies Footprint(s)
    ensures Distinct(s') && Root(s') == rep && Footprint(s') <= Footprint(s)
    ensures Holds(s', goal)
    decreases t, 0
  {
    Allocated(s.right);
    var l; ghost var sl;
    l, sl := Erase(rep.lchild, index, n, s.left, t.left, goal.left);
    s' := SetLeft(rep, l, rep.lsize - n, s, t, sl, goal.left);
  }

  /** `rep->rchild = erase(rep->rchild, i, size)`. */
  method EraseRight(rep: Rep, i: nat, size: nat, ghost s: Shape, ghost t: Tree, ghost goal: Tree)
    returns (ghost s': Shape)
    requires Distinct(s) && Holds(s, t) && Root(s) == rep && Valid(t) && i < Size(t.right) && i + size <= Size(t.right)
    requires goal == t.(right := RopeTree.Erase(t.right, i, size))
    modifies Footprint(s)
    ensures Distinct(s') && Root(s') == rep && Footprint(s') <= Footprint(s)
    ensures Holds(s', goal)
    decreases t.right, 3
  {
    Allocated(s.left);
    var p; ghost var sp;
    p, sp := Erase(rep.rchild, i, size, s.right, t.right, goal.right);
    s' := SetRight(rep, p, s, t, sp, goal.right);
  }

  /** Take `n` bytes at `i` out of a node. */
  method Close(rep: Rep, i: nat, n: nat, ghost s: Shape, ghost t: Tree)
    requires s.Branch? && Distinct(s) && Holds(s, t) && Root(s) == rep && i + n <= rep.size
    modifies rep`size, rep.buffer
    ensures Holds(s, t.(data := Cut(t.data, i, n)))
  {
    Allocated(s.left);
    Allocated(s.right);
    MoveOut(rep.buffer, rep.size, i, n);
    rep.size := rep.size - n;
  }

  /** The part after the left subtree. */
  method PruneRest(rep: Rep, i: nat, size: nat, ghost s: Shape, ghost t: Tree, ghost goal: Tree)
    returns (ghost s': Shape)
    requires Distinct(s) && Holds(s, t) && Root(s) == rep && Valid(t)
    requires i < |t.data| + Size(t.right) && i + size <= |t.data| + Size(t.right)
    requires goal == RopeTree.PruneRest(t, i, size)
    modifies Footprint(s)
    ensures Distinct(s') && Root(s') == rep && Footprint(s') <= Footprint(s)
    ensures Holds(s', goal)
    decreases t.right, 4
  {
    s' := s;
    if i < rep.size {
      var n := Min(size, rep.size - i);
      ghost var t1 := t.(data := Cut(t.data, i, n));
      PruneRestStarts(t, i, size, n, t1, goal);
      Close(rep, i, n, s, t);
      if n < size {
        s' := EraseRight(rep, 0, size - n, s, t1, goal);
      }
    } else {
      s' := EraseRight(rep, i - rep.size, size, s, t, goal);
    }
  }

  /** `d` with `str` written over it at `at`. */
  ghost function Paste(d: string, at: nat, str: string): string
    requires at + |str| <= |d|
  {
    d[..at] + str + Suffix(d, at + |str|)
  }

  lemma {:induction false} PasteTwice(d: string, at: nat, a: string, b: string)
    requires at + |a| + |b| <= |d|
    ensures Paste(Paste(d, at, a), at + |a|, b) == Paste(d, at, a + b)
  {
  }

  lemma {:induction false} CopySkipsLeft(t: Tree, index: nat, size: nat)
    requires Valid(t) && index < Size(t) && index + size <= Size(t) && index >= t.lsize
    ensures index - t.lsize < |t.data| + Size(t.right) && index - t.lsize + size <= |t.data| + Size(t.right)
    ensures RopeTree.Copy(t, index, size) == RopeTree.CopyRest(t, index - t.lsize, size)
  {
  }

  lemma {:induction false} CopyStartsLeft(t: Tree, index: nat, size: nat, n: nat)
    requires Valid(t) && t.Node? && index < t.lsize && index + size <= Size(t) && n == Min(size, t.lsize - index)
    ensures n == size ==> RopeTree.Copy(t, index, size) == RopeTree.Copy(t.left, index, n)
    ensures n < size ==> 0 < size - n <= |t.data| + Size(t.right)
    ensures n < size ==>
              RopeTree.Copy(t, index, size) == RopeTree.Copy(t.left, index, n) + RopeTree.CopyRest(t, 0, size - n)
  {
  }

  lemma {:induction false} CopyRestStarts(t: Tree, i: nat, size: nat, n: nat, goal: string)
    returns (head: string, rest: string)
    requires Valid(t) && t.Node? && i < |t.data| && i + size <= |t.data| + Size(t.right) && n == Min(size, |t.data| - i)
    requires goal == RopeTree.CopyRest(t, i, size)
    ensures head == Slice(t.data, i, n) && goal == head + rest && |rest| == size - n
    ensures n < size ==> 0 < size - n <= Size(t.right) && rest == RopeTree.Copy(t.right, 0, size - n)
  {
    head, rest := Slice(t.data, i, n), [];
    if n < size {
      assert Suffix(t.data, i) == head;
      rest := RopeTree.Copy(t.right, 0, size - n);
    }
  }

  lemma {:induction false} CopySkipsNode(t: Tree, i: nat, size: nat, j: nat)
    requires Valid(t) && t.Node? && |t.data| <= i < |t.data| + Size(t.right) && j == i - |t.data|
    requires i + size <= |t.data| + Size(t.right)
    ensures RopeTree.CopyRest(t, i, size) == RopeTree.Copy(t.right, j, size)
  {
  }

  /** `Rope::copy`. */
  method Copy(rep: Rep, index: nat, size: nat, dest: array<char>, at: nat, ghost s: Shape, ghost t: Tree,
              ghost goal: string)
    requires Distinct(s) && Holds(s, t) && Root(s) == rep && Valid(t) && dest !in Footprint(s)
    requires index < Size(t) && index + size <= Size(t) && at + size <= dest.Length
    requires goal == RopeTree.Copy(t, index, size)
    modifies dest
    ensures dest[..] == Paste(old(dest[..]), at, goal)
    decreases t, 1
  {
    if index < rep.lsize {
      var n := Min(size, rep.lsize - index);
      CopyStartsLeft(t, index, size, n);
      ghost var head := RopeTree.Copy(t.left, index, n);
      Allocated(s);
      Copy(rep.lchild, index, n, dest, at, s.left, t.left, head);
      if n != size {
        ghost var rest := RopeTree.CopyRest(t, 0, size - n);
        CopyRest(rep, 0, size - n, dest, at + n, s, t, rest);
        PasteTwice(old(dest[..]), at, head, rest);
      }
    } else {
      CopySkipsLeft(t, index, size);
      CopyRest(rep, index - rep.lsize, size, dest, at, s, t, goal);
    }
  }

  method CopyRest(rep: Rep, i: nat, size: nat, dest: array<char>, at: nat, ghost s: Shape, ghost t: Tree,
                  ghost goal: string)
    requires Distinct(s) && Holds(s, t) && Root(s) == rep && Valid(t) && dest !in Footprint(s)
    requires i < |t.data| + Size(t.right) && i + size <= |t.data| + Size(t.right)
    requires at + size <= dest.Length && goal == RopeTree.CopyRest(t, i, size)
    modifies dest
    ensures dest[..] == Paste(old(dest[..]), at, goal)
    decreases t.right, 2
  {
    if i < rep.size {
      var n := Min(size, rep.size - i);
      ghost var head, rest := CopyRestStarts(t, i, size, n, goal);
      CopyBytes(rep, i, n, dest, at, s, t, head);
      if n != size {
        Copy(rep.rchild, 0, size - n, dest, at + n, s.right, t.right, rest);
        PasteTwice(old(dest[..]), at, head, rest);
      }
    } else {
      CopySkipsNode(t, i, size, i - rep.size);
      Copy(rep.rchild, i - rep.size, size, dest, at, s.right, t.right, goal);
    }
  }

  /** The `memcpy` of `Rope::copy`. */
  method CopyBytes(rep: Rep, i: nat, n: nat, dest: array<char>, at: nat, ghost s: Shape, ghost t: Tree,
                   ghost goal: string)
    requires s.Branch? && Holds(s, t) && Root(s) == rep && dest !in Footprint(s)
    requires i + n <= rep.size && at + n <= dest.Length && goal == Slice(t.data, i, n)
    modifies dest
    ensures dest[..] == Paste(old(dest[..]), at, goal)
    ensures Holds(s, t)
  {
    Allocated(s);
    forall k | 0 <= k < n { dest[at + k] := rep.buffer[i + k]; }
  }
}
