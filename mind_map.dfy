/** The node editing of `src/components/MindMap/MindMapEditor.tsx`: a
    double-click opens the label dialog on a node, saving writes the edited
    label into every node with that id, and the panel button appends a new
    node. */
module MindMapEditor {
  import opened Basics

  /** A value of a node's `data` record: the editor reads `label` only when
      it is a string. */
  datatype DataValue = Str(s: string) | Other(tag: string)

  datatype Node = Node(id: string, x: real, y: real, data: map<string, DataValue>, nodeType: Option<string>)

  /** The label the edit dialog starts from: `data.label` when it is a
      string, otherwise "". */
  function LabelOf(node: Node): (r: string)
    ensures "label" in node.data && node.data["label"].Str? ==> r == node.data["label"].s
    ensures !("label" in node.data && node.data["label"].Str?) ==> r == ""
  {
    if "label" in node.data && node.data["label"].Str? then node.data["label"].s else ""
  }

  /** The node with `label` written into its data. */
  function WithLabel(node: Node, text: string): Node {
    node.(data := node.data["label" := Str(text)])
  }

  /** The `nds.map` of `saveNodeLabel`: every node with id `id` gets the
      label, the others are kept, in the same order. */
  function RelabelNodes(nodes: seq<Node>, id: string, text: string): (r: seq<Node>)
    ensures |r| == |nodes|
    ensures forall i :: 0 <= i < |nodes| && nodes[i].id == id ==>
              r[i].id == id && r[i].x == nodes[i].x && r[i].y == nodes[i].y
              && r[i].nodeType == nodes[i].nodeType
              && r[i].data.Keys == nodes[i].data.Keys + {"label"}
              && r[i].data["label"] == Str(text)
              && (forall k :: k in nodes[i].data && k != "label" ==> r[i].data[k] == nodes[i].data[k])
    ensures forall i :: 0 <= i < |nodes| && nodes[i].id != id ==> r[i] == nodes[i]
  {
    if nodes == [] then []
    else
      var head := if nodes[0].id == id then WithLabel(nodes[0], text) else nodes[0];
      [head] + RelabelNodes(nodes[1..], id, text)
  }

  /** Re-opening the dialog on a relabelled node shows the saved label. */
  lemma RelabelThenOpen(nodes: seq<Node>, id: string, text: string, i: int)
    requires 0 <= i < |nodes| && nodes[i].id == id
    ensures LabelOf(RelabelNodes(nodes, id, text)[i]) == text
  {
  }

  /** Saving the same label twice is saving it once. */
  lemma {:induction false} RelabelIdempotent(nodes: seq<Node>, id: string, text: string)
    ensures RelabelNodes(RelabelNodes(nodes, id, text), id, text) == RelabelNodes(nodes, id, text)
  {
    if nodes != [] {
      RelabelIdempotent(nodes[1..], id, text);
      var r := RelabelNodes(nodes, id, text);
      assert r[1..] == RelabelNodes(nodes[1..], id, text);
      if nodes[0].id == id {
        assert WithLabel(r[0], text) == r[0] by {
          assert r[0].data["label" := Str(text)] == r[0].data;
        }
      }
      assert RelabelNodes(r, id, text) == [RelabelNodes(r, id, text)[0]] + RelabelNodes(r[1..], id, text);
    }
  }

  /** Saving the label every matching node already carries as a string
      changes nothing. */
  lemma {:induction false} RelabelUnchanged(nodes: seq<Node>, id: string, text: string)
    requires forall i :: 0 <= i < |nodes| && nodes[i].id == id ==>
               "label" in nodes[i].data && nodes[i].data["label"] == Str(text)
    ensures RelabelNodes(nodes, id, text) == nodes
  {
    if nodes != [] {
      RelabelUnchanged(nodes[1..], id, text);
      if nodes[0].id == id {
        assert nodes[0].data["label" := Str(text)] == nodes[0].data;
      }
    }
  }

  /** Labels of nodes with other ids survive any save. */
  lemma RelabelKeepsOthers(nodes: seq<Node>, id: string, text: string)
    ensures Filter((n: Node) => n.id != id, RelabelNodes(nodes, id, text))
            == Filter((n: Node) => n.id != id, nodes)
  {
    var p := (n: Node) => n.id != id;
    var r := RelabelNodes(nodes, id, text);
    assert forall i :: 0 <= i < |nodes| ==> (p(r[i]) <==> p(nodes[i]));
    assert forall i :: 0 <= i < |nodes| && p(nodes[i]) ==> r[i] == nodes[i];
    FilterPointwise(p, r, nodes);
  }

  /** The node `addNode` creates: type `custom`, label "Node", placed at
      `rx * 200 + 100`, `ry * 200 + 100` for the two `Math.random()`
      draws `rx`, `ry` in [0, 1). */
  function NewNode(id: string, rx: real, ry: real): (n: Node)
    requires 0.0 <= rx < 1.0 && 0.0 <= ry < 1.0
    ensures n.id == id && n.nodeType == Some("custom") && LabelOf(n) == "Node"
    ensures n.data.Keys == {"label"}
    ensures 100.0 <= n.x < 300.0 && 100.0 <= n.y < 300.0
  {
    Node(id, rx * 200.0 + 100.0, ry * 200.0 + 100.0, map["label" := Str("Node")], Some("custom"))
  }

  class Editor {
    var nodes: seq<Node>
    var editingNode: Option<Node>
    var editLabel: string
    var isEditOpen: bool

    /** The editor opened on the nodes of a stored map. */
    constructor (nodes: seq<Node>)
      ensures this.nodes == nodes && editingNode == None && editLabel == "" && !isEditOpen
    {
      this.nodes := nodes;
      editingNode := None;
      editLabel := "";
      isEditOpen := false;
    }

    /** `onNodeDoubleClick`. */
    method OnNodeDoubleClick(node: Node)
      modifies this
      ensures editingNode == Some(node) && editLabel == LabelOf(node) && isEditOpen
      ensures nodes == old(nodes)
    {
      editingNode := Some(node);
      editLabel := LabelOf(node);
      isEditOpen := true;
    }

    /** Typing in the label input. */
    method SetEditLabel(text: string)
      modifies this
      ensures editLabel == text
      ensures nodes == old(nodes) && editingNode == old(editingNode) && isEditOpen == old(isEditOpen)
    {
      editLabel := text;
    }

    /** `saveNodeLabel`, reached by the Save button or Enter. */
    method SaveNodeLabel()
      modifies this
      ensures old(editingNode) == None ==>
                nodes == old(nodes) && editingNode == None && isEditOpen == old(isEditOpen)
      ensures old(editingNode).Some? ==>
                nodes == RelabelNodes(old(nodes), old(editingNode).value.id, old(editLabel))
                && editingNode == None && !isEditOpen
      ensures editLabel == old(editLabel)
    {
      if editingNode == None {
        return;
      }
      nodes := RelabelNodes(nodes, editingNode.value.id, editLabel);
      isEditOpen := false;
      editingNode := None;
    }

    /** The label input's key handler: Enter saves, any other key does
        nothing. */
    method HandleKeyDown(key: string)
      modifies this
      ensures key != "Enter" ==>
                nodes == old(nodes) && editingNode == old(editingNode)
                && editLabel == old(editLabel) && isEditOpen == old(isEditOpen)
      ensures key == "Enter" && old(editingNode).Some? ==>
                nodes == RelabelNodes(old(nodes), old(editingNode).value.id, old(editLabel))
                && editingNode == None && !isEditOpen
      ensures key == "Enter" && old(editingNode) == None ==>
                nodes == old(nodes) && editingNode == None && isEditOpen == old(isEditOpen)
      ensures editLabel == old(editLabel)
    {
      if key == "Enter" {
        SaveNodeLabel();
      }
    }

    /** Cancel or a click on the overlay: the dialog closes, the node being
        edited is still remembered. */
    method CloseDialog()
      modifies this
      ensures !isEditOpen
      ensures nodes == old(nodes) && editingNode == old(editingNode) && editLabel == old(editLabel)
    {
      isEditOpen := false;
    }

    /** `addNode`: one new node at the end. */
    method AddNode(id: string, rx: real, ry: real)
      requires 0.0 <= rx < 1.0 && 0.0 <= ry < 1.0
      modifies this
      ensures nodes == old(nodes) + [NewNode(id, rx, ry)]
      ensures editingNode == old(editingNode) && editLabel == old(editLabel) && isEditOpen == old(isEditOpen)
    {
      nodes := nodes + [NewNode(id, rx, ry)];
    }
  }

  /** Double-click, type, save: the clicked node and every node sharing its
      id carry the typed label; nothing else changes. */
  method EditScenario(nodes: seq<Node>, i: int, text: string) returns (result: seq<Node>)
    requires 0 <= i < |nodes|
    ensures |result| == |nodes|
    ensures forall j :: 0 <= j < |nodes| ==>
              (nodes[j].id == nodes[i].id ==> LabelOf(result[j]) == text)
              && (nodes[j].id != nodes[i].id ==> result[j] == nodes[j])
  {
    var e := new Editor(nodes);
    e.OnNodeDoubleClick(nodes[i]);
    e.SetEditLabel(text);
    e.SaveNodeLabel();
    result := e.nodes;
  }
}
