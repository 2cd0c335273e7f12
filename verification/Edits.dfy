/** What the edits of one node come to: a masked update, a move, the two halves of a
    verification. */
module Edits {
  import opened FlowTypes
  import opened Forest
  import opened Engine
  import opened Invariants
  import opened Effects

  // ---- masked updates -------------------------------------------------------------

  /** The state a code stands for, if any. */
  function StateOf(wpCode: int): Option<WpState> {
    if wpCode == 1 then Some(Planned) else if wpCode == 2 then Some(Active)
    else if wpCode == 3 then Some(Closed) else if wpCode == 4 then Some(Archived) else None
  }

  /** The row with the masked fields taken from the request, in whatever order and however
      often the mask names them. */
  function Masked(row: Node, r: Request, mask: seq<MaskField>): Node
    requires r.UpdateNode?
  {
    Node(row.project, row.parent, row.kind,
         if MaskTitle in mask then r.title else row.title,
         if MaskDescription in mask then r.description else row.description,
         if MaskCondition in mask then r.condition else row.condition,
         if MaskNote in mask then r.note else row.note,
         if MaskReference in mask then r.reference else row.reference,
         row.declared,
         if MaskWpState in mask then StateOf(r.wpCode) else row.wp,
         if MaskPosition in mask then r.position else row.position)
  }

  /** Every name is known, and a state goes to a work package and to nothing else. */
  predicate MaskFits(kind: Kind, r: Request, mask: seq<MaskField>)
    requires r.UpdateNode?
  {
    MaskUnknown !in mask && (MaskWpState in mask ==> (kind == WorkPackage <==> 1 <= r.wpCode <= 4))
  }

  lemma MaskedStep(row: Node, next: Node, r: Request, mask: seq<MaskField>)
    requires r.UpdateNode? && mask != [] && next == Masked(row, r, mask[..1])
    ensures Masked(next, r, mask[1..]) == Masked(row, r, mask)
  {
    assert mask == mask[..1] + mask[1..];
    assert forall f :: f in mask <==> f in mask[..1] || f in mask[1..];
  }

  lemma {:induction false} MaskMeans(row: Node, r: Request, mask: seq<MaskField>)
    requires r.UpdateNode? && RowCheck(row)
    ensures var out := ApplyMask(row, r, mask);
            (out.Success? <==> MaskFits(row.kind, r, mask)) && (out.Success? ==> out.value == Masked(row, r, mask))
    decreases |mask|
  {
    if mask != [] {
      assert mask == [mask[0]] + mask[1..];
      assert mask[..1] == [mask[0]];
      var next := Masked(row, r, [mask[0]]);
      if MaskFits(row.kind, r, [mask[0]]) {
        MaskMeans(next, r, mask[1..]);
        MaskedStep(row, next, r, mask);
      }
    }
  }

  /** An update without a mask is refused, and so is any that names an unknown field first. */
  lemma EmptyMaskRefused(db: Db, r: Request)
    requires r.UpdateNode? && r.node in db.nodes && LedgerHit(db, db.nodes[r.node].project, r.meta.key).None?
    requires r.mask == [] || r.mask[0] == MaskUnknown
    ensures Decide(db, r) == Reject(InvalidArgument)
  {
  }

  /** An update that is neither a retry nor without a mask commits exactly when its mask
      fits, and changes the masked fields of the one row. */
  lemma UpdateMeans(db: Db, r: Request)
    requires Inv(db) && r.UpdateNode? && r.node in db.nodes && r.mask != []
    requires LedgerHit(db, db.nodes[r.node].project, r.meta.key).None?
    ensures Decide(db, r).Commit? <==> MaskFits(db.nodes[r.node].kind, r, r.mask)
    ensures var after := Apply(db, r).0;
            Decide(db, r).Commit? ==>
              after.nodes == db.nodes[r.node := Masked(db.nodes[r.node], r, r.mask)]
              && after.deps == db.deps && after.verifs == db.verifs
  {
    assert Placed(db.nodes, db.nodes[r.node]);
    MaskMeans(db.nodes[r.node], r, r.mask);
  }

  // ---- moves ----------------------------------------------------------------------

  /** Where the node ends up: only parent, kind and position of it change. */
  ghost predicate Landed(before: map<Id, Node>, after: map<Id, Node>, r: Request)
    requires r.MoveNode?
  {
    r.node in before && after.Keys == before.Keys && (forall x :: x in before && x != r.node ==> after[x] == before[x])
    && after[r.node] == before[r.node].(parent := r.parent, kind := KindStr(r.kindCode),
                                        position := NextPosition(before, r.parent))
  }

  lemma MoveLands(t: Txn, r: Request, was: Node, project: Id)
    requires r.MoveNode?
    ensures var out := MovePlace(t, r, was, project);
            out.Success? ==>
              Landed(t.db.nodes, out.value.db.nodes, r)
              && out.value.db.deps == t.db.deps && out.value.db.verifs == t.db.verifs
  {
  }

  /** The tables after a move that loses these steps. */
  ghost predicate MovedTo(db: Db, after: Db, r: Request, lost: set<Id>)
    requires r.MoveNode? && r.node in db.nodes
  {
    Landed(db.nodes - lost, after.nodes, r) && after.deps == EdgesOutside(db.deps, lost)
    && after.verifs
       == db.verifs - lost
          - if r.kindCode == (match db.nodes[r.node].kind case WorkPackage => 1 case Task => 2 case Step => 3)
            then {} else {r.node}
  }

  lemma MoveTxnMeans(db: Db, r: Request, project: Id)
    requires Inv(db) && r.MoveNode? && r.node in db.nodes
    ensures var t := MoveNodeTxn(db, r, project); t.Success? ==> MovedTo(db, t.value.db, r, Lost(db, r))
  {
    var was := db.nodes[r.node];
    var dropped := MoveDrop(db, r, project);
    MoveLoses(db, r, project);
    if dropped.Success? {
      MoveLands(dropped.value.(db := MoveClear(dropped.value.db, r, was)), r, was, project);
      assert db.verifs - Lost(db, r) - {} == db.verifs - Lost(db, r);
    }
  }

  /** A committed move: the lost steps go with everything attached to them, the node lands,
      its verification stays only if its kind does, and nothing else changes. */
  lemma MoveMeans(db: Db, r: Request)
    requires Inv(db) && r.MoveNode? && Decide(db, r).Commit?
    ensures MovedTo(db, Apply(db, r).0, r, Lost(db, r))
  {
    MoveTxnMeans(db, r, db.nodes[r.node].project);
  }

  lemma WrapMeans(n: int)
    requires -0x8000_0000 <= n < 0x1_8000_0000
    ensures Wrap32(n) == if n < 0x8000_0000 then n else n - 0x1_0000_0000
  {
  }

  /** top is one of the parent's children, none of them placed higher. */
  predicate HighestChild(nodes: map<Id, Node>, parent: Id, top: Id) {
    top in nodes && nodes[top].parent == parent
    && forall x :: x in nodes && nodes[x].parent == parent ==> nodes[x].position <= nodes[top].position
  }

  lemma TopSibling(nodes: map<Id, Node>, ids: seq<Id>, parent: Id)
    requires ids != [] && (forall i :: 0 <= i < |ids| ==> ids[i] in nodes)
    requires forall x :: x in ids <==> x in nodes && nodes[x].parent == parent
    ensures MaxPosition(nodes, ids).Some?
    ensures exists top :: HighestChild(nodes, parent, top) && nodes[top].position == MaxPosition(nodes, ids).value
  {
    MaxIsMax(nodes, ids);
    var top :| top in ids && nodes[top].position == MaxPosition(nodes, ids).value;
    assert HighestChild(nodes, parent, top);
  }

  /** A hundred above the highest child, cut to 32 bits. */
  ghost predicate AboveChildren(nodes: map<Id, Node>, parent: Id, next: int) {
    exists top :: HighestChild(nodes, parent, top)
                  && next == if nodes[top].position < 0x7fff_ff9c then nodes[top].position + 100
                             else nodes[top].position - 0xffff_ff9c
  }

  lemma AboveTop(nodes: map<Id, Node>, ids: seq<Id>, parent: Id)
    requires ids != [] && (forall i :: 0 <= i < |ids| ==> ids[i] in nodes)
    requires forall x :: x in ids <==> x in nodes && nodes[x].parent == parent
    ensures MaxPosition(nodes, ids).Some? && AboveChildren(nodes, parent, Wrap32(MaxPosition(nodes, ids).value + 100))
  {
    TopSibling(nodes, ids, parent);
    var top :| HighestChild(nodes, parent, top) && nodes[top].position == MaxPosition(nodes, ids).value;
    WrapMeans(nodes[top].position + 100);
  }

  lemma FirstPosition(nodes: map<Id, Node>, parent: Id)
    requires forall x :: x in nodes ==> nodes[x].parent != parent
    ensures NextPosition(nodes, parent) == 100
  {
    var ids := Siblings(nodes, parent);
    assert forall i :: 0 <= i < |ids| ==> ids[i] in ids;
    WrapMeans(100);
  }

  /** The new position is a hundred above the highest sibling's, or a hundred without one, cut
      to 32 bits. */
  lemma NextPositionMeans(nodes: map<Id, Node>, parent: Id)
    requires parent != NO_ID
    ensures if forall x :: x in nodes ==> nodes[x].parent != parent then NextPosition(nodes, parent) == 100
            else AboveChildren(nodes, parent, NextPosition(nodes, parent))
  {
    if x :| x in nodes && nodes[x].parent == parent {
      assert x in Siblings(nodes, parent);
      AboveTop(nodes, Siblings(nodes, parent), parent);
    } else {
      FirstPosition(nodes, parent);
    }
  }

  /** A moved node comes after all its new siblings, while positions stay small. */
  lemma MovedGoesLast(nodes: map<Id, Node>, parent: Id, c: Id)
    requires parent != NO_ID && c in nodes && nodes[c].parent == parent
    requires forall x :: x in nodes && nodes[x].parent == parent ==> nodes[x].position <= 0x7fff_ffff - 100
    ensures NextPosition(nodes, parent) >= nodes[c].position + 100
  {
    MaxIsMax(nodes, Siblings(nodes, parent));
  }

  lemma {:induction false} MaxIsMax(nodes: map<Id, Node>, ids: seq<Id>)
    requires forall i :: 0 <= i < |ids| ==> ids[i] in nodes
    ensures var top := MaxPosition(nodes, ids);
            (top.None? <==> ids == [])
            && (forall x :: x in ids ==> nodes[x].position <= top.value)
            && (top.Some? ==> exists x :: x in ids && nodes[x].position == top.value)
    decreases |ids|
  {
    if ids != [] {
      MaxIsMax(nodes, ids[1..]);
      assert ids[0] in ids;
      assert forall x :: x in ids <==> x == ids[0] || x in ids[1..];
    }
  }

  // ---- verifications --------------------------------------------------------------

  // Agent report and human verdict are independent: an operator may accept over a reported
  // failure, and both survive.

  lemma ReportKeepsVerdict(db: Db, r: Request)
    requires r.ReportCondition? && Decide(db, r).Commit?
    ensures var was, now := VerificationAt(db, r.node), VerificationAt(Apply(db, r).0, r.node);
            now.human == was.human && now.agent == Some(if r.resultCode == 1 then Pass else Fail)
            && now.agentName == r.meta.author && now.detail == r.detail
  {
  }

  lemma VerdictKeepsReport(db: Db, r: Request)
    requires r.SetVerdict? && Decide(db, r).Commit?
    ensures var was, now := VerificationAt(db, r.node), VerificationAt(Apply(db, r).0, r.node);
            now == was.(human := if r.verdictCode == 1 then Some(Accepted)
                                 else if r.verdictCode == 2 then Some(Rejected) else None)
    ensures r.node in Apply(db, r).0.verifs <==> r.node in db.verifs || 1 <= r.verdictCode <= 2
  {
  }

  // ---- deletes --------------------------------------------------------------------

  lemma {:induction false} LogDeletesSucceeds(t: Txn, project: Id, author: string, ids: seq<Id>)
    requires project in t.db.projects
    ensures LogDeletes(t, project, author, ids).Success?
    ensures LogDeletes(t, project, author, ids).value.db.projects == t.db.projects
    decreases |ids|
  {
    if ids != [] {
      var logged := AppendEvent(t.db, project, NO_ID, NodeDeleted, author, DeletedPayload(ids[0])).value;
      LogDeletesSucceeds(t.(db := logged, events := t.events + [LastEvent(logged)]), project, author, ids[1..]);
    }
  }

  /** A delete of a known node that is not a retry commits unless it was asked to spare
      referenced nodes and the node itself is an end of an edge. */
  lemma DeleteGoesThrough(db: Db, r: Request)
    requires Inv(db) && r.DeleteNode? && r.node in db.nodes
    requires LedgerHit(db, db.nodes[r.node].project, r.meta.key).None?
    ensures Decide(db, r).Commit?
            <==> !(r.failIfReferenced && exists e :: e in db.deps && (e.blocker == r.node || e.blocked == r.node))
  {
    var p := db.nodes[r.node].project;
    var sub := Subtree(db.nodes, r.node);
    LogDeletesSucceeds(Txn(DropNode(db, r.node), [], ExternalDependents(db, sub)), p, r.meta.author,
                       Rows(sub - {r.node}));
  }
}
