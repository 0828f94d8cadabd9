/** The filter of the mutation observer's callback (scripts/content.js:120-134):
    which mutation records make the script run an annotation pass. */
module Watcher {
  import opened Wrappers

  /** `node.nodeType`, with every kind other than elements, text and comments
      folded into OtherNode. */
  datatype NodeType = ElementNode | TextNode | CommentNode | OtherNode

  /** An added node: its type and, when it has one, its class list. */
  datatype AddedNode = AddedNode(nodeType: NodeType, classList: Option<seq<string>>)

  datatype MutationType = ChildList | Attributes | CharacterData

  datatype MutationRecord = MutationRecord(kind: MutationType, addedNodes: seq<AddedNode>)

  /** The class the host page gives each citation row. */
  const RowClass: string := "gsc_a_tr"

  /** The callback of `some` on lines 124-128. */
  predicate IsCitationRow(node: AddedNode) {
    node.nodeType == ElementNode && node.classList.Some? && RowClass in node.classList.value
  }

  /** `Array.from(mutation.addedNodes).some(...)`, from left to right. */
  function HasNewRows(nodes: seq<AddedNode>): bool
    decreases |nodes|
  {
    if nodes == [] then false
    else IsCitationRow(nodes[0]) || HasNewRows(nodes[1..])
  }

  /** `some` holds exactly when one of the added nodes is a citation row. */
  lemma {:induction false} HasNewRowsIff(nodes: seq<AddedNode>)
    ensures HasNewRows(nodes) <==> exists i :: 0 <= i < |nodes| && IsCitationRow(nodes[i])
    decreases |nodes|
  {
    if nodes != [] {
      HasNewRowsIff(nodes[1..]);
      if HasNewRows(nodes[1..]) {
        var i :| 0 <= i < |nodes[1..]| && IsCitationRow(nodes[1..][i]);
        assert nodes[i + 1] == nodes[1..][i];
      }
      if exists i :: 0 <= i < |nodes| && IsCitationRow(nodes[i]) {
        var i :| 0 <= i < |nodes| && IsCitationRow(nodes[i]);
        if i > 0 {
          assert nodes[1..][i - 1] == nodes[i];
        }
      }
    }
  }

  /** Lines 122-130: the record makes the callback start a pass. */
  predicate Triggers(m: MutationRecord) {
    m.kind == ChildList && |m.addedNodes| > 0 && HasNewRows(m.addedNodes)
  }

  /** A record triggers a pass exactly when it is a `childList` record that
      added an element carrying the citation-row class; the length test of
      line 122 excludes nothing more. */
  lemma TriggersIff(m: MutationRecord)
    ensures Triggers(m) <==>
            m.kind == ChildList && exists i :: 0 <= i < |m.addedNodes| && IsCitationRow(m.addedNodes[i])
  {
    HasNewRowsIff(m.addedNodes);
  }

  /** The number of passes the `forEach` of line 121 starts for a batch. */
  function TriggerCount(batch: seq<MutationRecord>): nat
    decreases |batch|
  {
    if batch == [] then 0
    else (if Triggers(batch[0]) then 1 else 0) + TriggerCount(batch[1..])
  }

  /** Records are counted one by one: a batch split in two starts as many
      passes as its halves. */
  lemma {:induction false} TriggerCountAppend(a: seq<MutationRecord>, b: seq<MutationRecord>)
    ensures TriggerCount(a + b) == TriggerCount(a) + TriggerCount(b)
    decreases |a|
  {
    if a == [] {
      assert a + b == b;
    } else {
      assert (a + b)[1..] == a[1..] + b;
      TriggerCountAppend(a[1..], b);
    }
  }

  /** At most one pass per record, and none at all exactly when no record
      triggers. */
  lemma {:induction false} TriggerCountBounds(batch: seq<MutationRecord>)
    ensures TriggerCount(batch) <= |batch|
    ensures TriggerCount(batch) == 0 <==> forall i :: 0 <= i < |batch| ==> !Triggers(batch[i])
    decreases |batch|
  {
    if batch != [] {
      TriggerCountBounds(batch[1..]);
      if TriggerCount(batch) == 0 {
        forall i | 0 <= i < |batch| ensures !Triggers(batch[i]) {
          if i > 0 {
            assert batch[i] == batch[1..][i - 1];
          }
        }
      }
      if forall i :: 0 <= i < |batch| ==> !Triggers(batch[i]) {
        forall i | 0 <= i < |batch[1..]| ensures !Triggers(batch[1..][i]) {
          assert batch[1..][i] == batch[i + 1];
        }
      }
    }
  }
}
