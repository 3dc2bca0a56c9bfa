/**
 * The leaf loop of print_trees.py (lines 11-23): every leaf of the tree is
 * renamed in place, or has its name cleared and a red face attached.  The
 * tree itself comes from a Newick parser that is not part of this model; its
 * leaves are given as a sequence of distinct objects in iteration order.
 */
module Annotator {
  import opened Text
  import opened MetadataTable
  import opened Labels

  /** The observable state of a leaf: its name and the faces attached so far. */
  datatype LeafState = LeafState(name: string, faces: seq<Face>)

  /** A leaf node of the tree, updated in place by the loop. */
  class Leaf {
    var name: string
    var faces: seq<Face>

    constructor (name: string)
      ensures this.name == name && faces == []
    {
      this.name := name;
      faces := [];
    }

    function State(): LeafState
      reads this
    {
      LeafState(name, faces)
    }
  }

  /**
   * What one iteration does to a leaf: a reserved leaf loses its name and
   * gains the styled face at the end of its faces; a leaf found in the table
   * takes its label as name and keeps its faces; an unknown leaf is left as
   * it is (the loop stops there).
   */
  function Annotate(s: LeafState, table: Table): (r: LeafState)
    ensures IsReserved(s.name) ==>
      r == LeafState("", s.faces + [Face(s.name + ReservedSuffix, FaceSize, FaceColor, FaceColumn)])
    ensures !IsReserved(s.name) && s.name in table ==>
      r == LeafState(Join(LabelColumns(table[s.name]), ", "), s.faces)
    ensures !IsReserved(s.name) && s.name !in table ==> r == s
  {
    match Resolve(s.name, table)
    case Styled(face) => LeafState("", s.faces + [face])
    case Plain(text) => LeafState(text, s.faces)
    case Unknown(_) => s
  }

  /** How the loop ends: all leaves done, or a KeyError at one leaf. */
  datatype Outcome = Done | KeyError(index: nat, name: string)

  /**
   * Lines 11-23: visit the leaves in order, resolving each one's current
   * name.  Each iteration changes only its own leaf.  An unknown name
   * aborts the loop with a KeyError; the leaves before it stay annotated and
   * the leaves from it on are untouched.
   */
  method AnnotateLeaves(leaves: seq<Leaf>, table: Table) returns (outcome: Outcome)
    requires forall i, j :: 0 <= i < j < |leaves| ==> leaves[i] != leaves[j]
    modifies leaves
    ensures outcome.KeyError? ==>
      && outcome.index < |leaves|
      && outcome.name == old(leaves[outcome.index].name)
      && !IsReserved(outcome.name) && outcome.name !in table
    ensures var done := if outcome.Done? then |leaves| else outcome.index;
      && done <= |leaves|
      && (forall j :: 0 <= j < done ==>
            && Resolve(old(leaves[j].name), table) != Unknown(old(leaves[j].name))
            && leaves[j].State() == Annotate(old(leaves[j].State()), table))
      && (forall j :: done <= j < |leaves| ==> leaves[j].State() == old(leaves[j].State()))
  {
    var i := 0;
    while i < |leaves|
      invariant 0 <= i <= |leaves|
      invariant forall j :: 0 <= j < i ==>
        && Resolve(old(leaves[j].name), table) != Unknown(old(leaves[j].name))
        && leaves[j].State() == Annotate(old(leaves[j].State()), table)
      invariant forall j :: i <= j < |leaves| ==> leaves[j].State() == old(leaves[j].State())
    {
      var leaf := leaves[i];
      match Resolve(leaf.name, table) {
        case Styled(face) =>
          leaf.name := "";
          leaf.faces := leaf.faces + [face];
        case Plain(text) =>
          leaf.name := text;
        case Unknown(name) =>
          return KeyError(i, name);
      }
      i := i + 1;
    }
    return Done;
  }
}
