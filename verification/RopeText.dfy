/** The public rope of `util/rope.h`, and what any sequence of edits does to it. */
module RopeText {
  import opened RopeTree
  import RopeHeap

  /** The public class of `util/rope.h`. */
  class Rope {
    const tape: Tape
    var drawn: nat
    var rep: RopeHeap.Rep?
    ghost var shape: RopeHeap.Shape
    ghost var tree: Tree

    ghost predicate Good()
      reads this, RopeHeap.Footprint(shape)
    {
      && this !in RopeHeap.Footprint(shape) && RopeHeap.Distinct(shape) && RopeHeap.Holds(shape, tree)
      && RopeHeap.Root(shape) == rep && Valid(tree)
    }

    /** The characters of the rope. */
    ghost function Text(): string
      reads this
    {
      Content(tree)
    }

    constructor (tape: Tape)
      ensures Good() && Text() == [] && tree == Empty && shape == RopeHeap.Nil
    {
      this.tape := tape;
      drawn, rep, shape, tree := 0, null, RopeHeap.Nil, Empty;
    }

    method Insert(index: nat, str: string)
      requires Good() && index <= |Text()|
      modifies this, RopeHeap.Footprint(shape)
      ensures Good() && Text() == Splice(old(Text()), index, str)
      ensures forall o | o in RopeHeap.Footprint(shape) :: o in old(RopeHeap.Footprint(shape)) || fresh(o)
      ensures old(Packed(tree)) && str != [] ==> Packed(tree)
      ensures old(HeapOrdered(tree) && LandingOffset(tree, index) + |str| <= BUFFER_SIZE) ==> HeapOrdered(tree)
    {
      ghost var grown := RopeTree.Insert(tree, index, str, tape, drawn);
      InsertFacts(tree, index, str, tape, drawn, grown.tree);
      InsertNodes(index, str, grown);
    }

    method InsertNodes(index: nat, str: string, ghost grown: Grown)
      requires Good() && index <= Size(tree) && grown == RopeTree.Insert(tree, index, str, tape, drawn)
      modifies this, RopeHeap.Footprint(shape)
      ensures Good() && tree == grown.tree && drawn == grown.drawn
      ensures forall o | o in RopeHeap.Footprint(shape) :: o in old(RopeHeap.Footprint(shape)) || fresh(o)
    {
      RopeHeap.Allocated(shape);
      var root, next;
      ghost var nodes;
      root, next, nodes := RopeHeap.Insert(rep, index, str, tape, drawn, shape, tree, grown);
      rep, drawn, shape, tree := root, next, nodes, grown.tree;
    }

    method Erase(index: nat, size: nat)
      requires Good() && index < |Text()| && index + size <= |Text()|
      modifies this, RopeHeap.Footprint(shape)
      ensures Good() && Text() == Cut(old(Text()), index, size)
      ensures RopeHeap.Footprint(shape) <= old(RopeHeap.Footprint(shape))
      ensures old(Packed(tree)) ==> Packed(tree)
    {
      ghost var erased := RopeTree.Erase(tree, index, size);
      EraseFacts(tree, index, size, erased);
      rep, shape := RopeHeap.Erase(rep, index, size, shape, tree, erased);
      tree := erased;
    }

    method Copy(index: nat, size: nat, dest: array<char>)
      requires Good() && dest !in RopeHeap.Footprint(shape)
      requires index < |Text()| && index + size <= |Text()| && size <= dest.Length
      modifies dest
      ensures dest[..size] == Text()[index..index + size] && dest[size..] == old(dest[size..])
    {
      ghost var copied := RopeTree.Copy(tree, index, size);
      CopyReads(tree, index, size, copied);
      RopeHeap.Copy(rep, index, size, dest, 0, shape, tree, copied);
    }
  }

  lemma {:induction false} InsertFacts(t: Tree, index: nat, str: string, tape: Tape, drawn: nat, r: Tree)
    requires Valid(t) && index <= Size(t) && r == Insert(t, index, str, tape, drawn).tree
    ensures Content(r) == Splice(Content(t), index, str)
    ensures Packed(t) && str != [] ==> Packed(r)
    ensures HeapOrdered(t) && LandingOffset(t, index) + |str| <= BUFFER_SIZE ==> HeapOrdered(r)
  {
    InsertSplices(t, index, str, tape, drawn, r);
    if Packed(t) { InsertPacked(t, index, str, tape, drawn, r); }
    if HeapOrdered(t) && LandingOffset(t, index) + |str| <= BUFFER_SIZE {
      FittingInsertKeepsHeapOrder(t, index, str, tape, drawn);
    }
  }

  lemma {:induction false} EraseFacts(t: Tree, index: nat, size: nat, r: Tree)
    requires Valid(t) && index < Size(t) && index + size <= Size(t) && r == Erase(t, index, size)
    ensures Content(r) == Cut(Content(t), index, size)
    ensures Packed(t) ==> Packed(r)
  {
    EraseCuts(t, index, size, r);
    if Packed(t) { ErasePacked(t, index, size, r); }
  }

  /** One call on the rope. */
  datatype Edit = InsertAt(index: nat, str: string) | EraseAt(index: nat, size: nat)

  /** The calls' preconditions, in terms of the text alone. */
  predicate Allowed(text: string, edit: Edit) {
    match edit
    case InsertAt(index, str) => index <= |text|
    case EraseAt(index, size) => index < |text| && index + size <= |text|
  }

  function Edited(text: string, edit: Edit): string
    requires Allowed(text, edit)
  {
    match edit
    case InsertAt(index, str) => Splice(text, index, str)
    case EraseAt(index, size) => Cut(text, index, size)
  }

  predicate AllAllowed(text: string, edits: seq<Edit>)
    decreases |edits|
  {
    edits != [] ==> Allowed(text, edits[0]) && AllAllowed(Edited(text, edits[0]), edits[1..])
  }

  function AllEdited(text: string, edits: seq<Edit>): string
    requires AllAllowed(text, edits)
    decreases |edits|
  {
    if edits == [] then text else AllEdited(Edited(text, edits[0]), edits[1..])
  }

  /** The same calls on the tree. */
  function Step(g: Grown, edit: Edit, tape: Tape): (r: Grown)
    requires Valid(g.tree) && Allowed(Content(g.tree), edit)
    ensures Valid(r.tree) && Content(r.tree) == Edited(Content(g.tree), edit)
  {
    match edit
    case InsertAt(index, str) =>
      var r := Insert(g.tree, index, str, tape, g.drawn);
      InsertFacts(g.tree, index, str, tape, g.drawn, r.tree);
      r
    case EraseAt(index, size) =>
      var r := Erase(g.tree, index, size);
      EraseFacts(g.tree, index, size, r);
      g.(tree := r)
  }

  function Run(g: Grown, edits: seq<Edit>, tape: Tape): (r: Grown)
    requires Valid(g.tree) && AllAllowed(Content(g.tree), edits)
    ensures Valid(r.tree)
    decreases |edits|
  {
    if edits == [] then g else Run(Step(g, edits[0], tape), edits[1..], tape)
  }

  /** Whatever the priorities, every run of edits leaves exactly the text that the edits describe. */
  lemma {:induction false} RunRefinesText(g: Grown, edits: seq<Edit>, tape: Tape)
    requires Valid(g.tree) && AllAllowed(Content(g.tree), edits)
    ensures Content(Run(g, edits, tape).tree) == AllEdited(Content(g.tree), edits)
    decreases |edits|
  {
    if edits != [] { RunRefinesText(Step(g, edits[0], tape), edits[1..], tape); }
  }

  /** If only non-empty strings are inserted, no empty node survives. */
  lemma {:induction false} RunKeepsPacked(g: Grown, edits: seq<Edit>, tape: Tape)
    requires Valid(g.tree) && AllAllowed(Content(g.tree), edits) && Packed(g.tree)
    requires forall e | e in edits :: e.InsertAt? ==> e.str != []
    ensures Packed(Run(g, edits, tape).tree)
    decreases |edits|
  {
    if edits != [] {
      var e := edits[0];
      var next := Step(g, e, tape);
      if e.InsertAt? {
        InsertPacked(g.tree, e.index, e.str, tape, g.drawn, next.tree);
      } else {
        ErasePacked(g.tree, e.index, e.size, next.tree);
      }
      RunKeepsPacked(next, edits[1..], tape);
    }
  }
}
