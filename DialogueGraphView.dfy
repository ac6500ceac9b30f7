/**
 * The bookkeeping of the dialogue graph editor: which ports an edge may
 * connect to, and the table of ungrouped nodes by name that flags nodes
 * sharing a name with an error style.
 */
module GraphView {
  import opened Sequences

  /** A node of the editor graph; only its name and whether it shows the duplicate-name error style matter here. */
  class DialogueNode {
    var dialogueName: string
    var hasErrorStyle: bool

    constructor (dialogueName: string)
      ensures this.dialogueName == dialogueName && !hasErrorStyle
    {
      this.dialogueName := dialogueName;
      hasErrorStyle := false;
    }
  }

  /** A connection point on a node; ports are compared by identity. */
  class Port {
    const node: DialogueNode

    constructor (node: DialogueNode)
      ensures this.node == node
    {
      this.node := node;
    }
  }

  /** One element of the editor's current selection. */
  datatype Selected = NodeSelected(node: DialogueNode) | OtherSelected

  /** The ports an edge started at `startPort` may end at: the others, on other nodes, in order. */
  function CompatiblePorts(ports: seq<Port>, startPort: Port): (compatible: seq<Port>)
    ensures |compatible| <= |ports|
  {
    if ports == [] then []
    else
      var port := ports[|ports| - 1];
      CompatiblePorts(ports[..|ports| - 1], startPort)
        + (if startPort != port && startPort.node != port.node then [port] else [])
  }

  /** A port is offered exactly when it is in the graph, is not the start port and sits on another node. */
  lemma {:induction false} CompatiblePortsMembers(ports: seq<Port>, startPort: Port)
    ensures forall p :: p in CompatiblePorts(ports, startPort) <==>
      p in ports && p != startPort && p.node != startPort.node
  {
    if ports != [] {
      var init := ports[..|ports| - 1];
      CompatiblePortsMembers(init, startPort);
      assert ports == init + [ports[|ports| - 1]];
    }
  }

  /** The offered ports keep the order they have in the graph. */
  lemma {:induction false} CompatiblePortsOrdered(ports: seq<Port>, startPort: Port)
    ensures IsSubsequence(CompatiblePorts(ports, startPort), ports)
  {
    if ports == [] {
      assert SubsequenceAt(CompatiblePorts(ports, startPort), ports, []);
    } else {
      var init := ports[..|ports| - 1];
      var port := ports[|ports| - 1];
      CompatiblePortsOrdered(init, startPort);
      var r := CompatiblePorts(init, startPort);
      var idx: seq<nat> :| SubsequenceAt(r, init, idx);
      assert forall k :: 0 <= k < |init| ==> ports[k] == init[k];
      if startPort != port && startPort.node != port.node {
        assert SubsequenceAt(CompatiblePorts(ports, startPort), ports, idx + [|ports| - 1]);
      } else {
        assert SubsequenceAt(CompatiblePorts(ports, startPort), ports, idx);
      }
    }
  }

  /** The selected elements that are dialogue nodes, in selection order. */
  function SelectedNodes(selection: seq<Selected>): (nodes: seq<DialogueNode>)
    ensures |nodes| <= |selection|
  {
    if selection == [] then []
    else
      var last := selection[|selection| - 1];
      SelectedNodes(selection[..|selection| - 1]) + (if last.NodeSelected? then [last.node] else [])
  }

  lemma {:induction false} SelectedNodesMembers(selection: seq<Selected>)
    ensures forall n :: n in SelectedNodes(selection) <==> NodeSelected(n) in selection
  {
    if selection != [] {
      var init := selection[..|selection| - 1];
      SelectedNodesMembers(init);
      assert selection == init + [selection[|selection| - 1]];
    }
  }

  /** C# `List.Remove`: the list without the first occurrence of `x`, or unchanged when `x` does not occur. */
  function RemoveFirst<T(==)>(s: seq<T>, x: T): (r: seq<T>)
    ensures x !in s ==> r == s
    ensures x in s ==> |r| == |s| - 1
  {
    if s == [] then []
    else if s[0] == x then s[1..]
    else [s[0]] + RemoveFirst(s[1..], x)
  }

  /** RemoveFirst cuts `s` at the first position holding `x`. */
  lemma {:induction false} RemoveFirstAt<T>(s: seq<T>, x: T) returns (k: nat)
    requires x in s
    ensures k < |s| && s[k] == x && x !in s[..k] && RemoveFirst(s, x) == s[..k] + s[k + 1..]
  {
    if s[0] == x {
      k := 0;
    } else {
      var j := RemoveFirstAt(s[1..], x);
      k := j + 1;
      assert s[..k] == [s[0]] + s[1..][..j];
      assert s[k + 1..] == s[1..][j + 1..];
    }
  }

  /** RemoveFirst drops exactly one occurrence of `x`. */
  lemma RemoveFirstDropsOne<T>(s: seq<T>, x: T)
    requires x in s
    ensures multiset(RemoveFirst(s, x)) == multiset(s) - multiset{x}
  {
    var k := RemoveFirstAt(s, x);
    assert s == s[..k] + [x] + s[k + 1..];
  }

  lemma RemoveFirstSubset<T>(s: seq<T>, x: T)
    ensures forall k :: 0 <= k < |RemoveFirst(s, x)| ==> RemoveFirst(s, x)[k] in s
  {
    if x in s {
      var k := RemoveFirstAt(s, x);
      assert forall j :: 0 <= j < |RemoveFirst(s, x)| ==>
        RemoveFirst(s, x)[j] == if j < k then s[j] else s[j + 1];
    }
  }

  /** The table of ungrouped nodes after `node` has been taken out of the list under `name`. */
  function Without(table: map<string, seq<DialogueNode>>, name: string, node: DialogueNode): map<string, seq<DialogueNode>>
  {
    if name !in table then table
    else
      var rest := RemoveFirst(table[name], node);
      if rest == [] then table - {name} else table[name := rest]
  }

  /** The table after each node of `nodes`, in order, has been taken out of the list under its name. */
  function WithoutAll(table: map<string, seq<DialogueNode>>, nodes: seq<DialogueNode>): map<string, seq<DialogueNode>>
    reads (set i | 0 <= i < |nodes| :: nodes[i])`dialogueName
  {
    if nodes == [] then table
    else
      var last := nodes[|nodes| - 1];
      Without(WithoutAll(table, nodes[..|nodes| - 1]), last.dialogueName, last)
  }

  /** Taking a node out never creates a name, never leaves an empty list and leaves every other name alone. */
  lemma WithoutKeepsOthers(table: map<string, seq<DialogueNode>>, name: string, node: DialogueNode)
    requires forall k :: k in table ==> table[k] != []
    ensures forall k :: k in Without(table, name, node) ==> Without(table, name, node)[k] != []
    ensures Without(table, name, node).Keys <= table.Keys
    ensures forall k :: k in table && k != name ==> k in Without(table, name, node) && Without(table, name, node)[k] == table[k]
  {
  }

  /** Taking out a node listed under `name` drops exactly one of its occurrences from that list. */
  lemma WithoutDropsOne(table: map<string, seq<DialogueNode>>, name: string, node: DialogueNode)
    requires name in table && node in table[name]
    ensures var after := if name in Without(table, name, node) then Without(table, name, node)[name] else [];
      multiset(after) == multiset(table[name]) - multiset{node}
  {
    RemoveFirstDropsOne(table[name], node);
  }

  /** The graph elements that are the nodes of `nodes`. */
  function AsObjects(nodes: seq<DialogueNode>): (objects: set<object>)
    ensures forall k :: 0 <= k < |nodes| ==> nodes[k] in objects
    ensures forall o: object :: o in objects ==> exists k :: 0 <= k < |nodes| && nodes[k] == o
  {
    if nodes == [] then {}
    else
      var init := nodes[..|nodes| - 1];
      assert nodes == init + [nodes[|nodes| - 1]];
      AsObjects(init) + {nodes[|nodes| - 1]}
  }

  /** Every node listed in `table`. */
  ghost function Listed(table: map<string, seq<DialogueNode>>): set<DialogueNode>
  {
    set name, i | name in table && 0 <= i < |table[name]| :: table[name][i]
  }

  lemma ListedWithout(table: map<string, seq<DialogueNode>>, name: string, node: DialogueNode)
    ensures Listed(Without(table, name, node)) <= Listed(table)
  {
    if name in table {
      RemoveFirstSubset(table[name], node);
      forall n | n in Listed(Without(table, name, node)) ensures n in Listed(table) {
        var k, i :| k in Without(table, name, node) && 0 <= i < |Without(table, name, node)[k]|
          && Without(table, name, node)[k][i] == n;
        if k == name {
          var j :| 0 <= j < |table[name]| && table[name][j] == n;
        }
      }
    }
  }

  class DialogueGraphView {
    var ungroupedNodes: map<string, seq<DialogueNode>>
    var elements: set<object>

    /** The nodes listed under `name`. */
    ghost function NodesNamed(name: string): set<DialogueNode>
      reads this
    {
      if name in ungroupedNodes then set i | 0 <= i < |ungroupedNodes[name]| :: ungroupedNodes[name][i] else {}
    }

    /** Every node in the table. */
    ghost function Registered(): set<DialogueNode>
      reads this
    {
      Listed(ungroupedNodes)
    }

    /**
     * The table invariant: no name maps to an empty list, every node is
     * listed under its own name, and a node shows the error style exactly
     * when it shares its name with another listed node.
     */
    ghost predicate Valid()
      reads this, Registered()
    {
      && (forall name :: name in ungroupedNodes ==> ungroupedNodes[name] != [])
      && (forall name, i :: name in ungroupedNodes && 0 <= i < |ungroupedNodes[name]| ==>
            ungroupedNodes[name][i].dialogueName == name)
      && (forall name, i :: name in ungroupedNodes && 0 <= i < |ungroupedNodes[name]| ==>
            (ungroupedNodes[name][i].hasErrorStyle <==> |ungroupedNodes[name]| > 1))
    }

    constructor ()
      ensures Valid() && ungroupedNodes == map[] && elements == {}
    {
      ungroupedNodes := map[];
      elements := {};
    }

    /** The ports offered to an edge dragged from `startPort`, collected by a scan of all ports. */
    method GetCompatiblePorts(ports: seq<Port>, startPort: Port) returns (compatiblePorts: seq<Port>)
      ensures compatiblePorts == CompatiblePorts(ports, startPort)
    {
      compatiblePorts := [];
      var i := 0;
      while i < |ports|
        invariant 0 <= i <= |ports|
        invariant compatiblePorts == CompatiblePorts(ports[..i], startPort)
      {
        var port := ports[i];
        assert ports[..i + 1][..i] == ports[..i];
        if startPort != port && startPort.node != port.node {
          compatiblePorts := compatiblePorts + [port];
        }
        i := i + 1;
      }
      assert ports[..i] == ports;
    }

    /**
     * Lists `node` under its name. A new name gets the list [node] and the
     * node's default style; a taken name gets the node appended, and every
     * node in the list is then flagged.
     */
    method AddUngroupedNode(node: DialogueNode)
      requires Valid()
      modifies this`ungroupedNodes, node`hasErrorStyle, NodesNamed(node.dialogueName)`hasErrorStyle
      ensures Valid()
      ensures var name := node.dialogueName;
        ungroupedNodes == old(ungroupedNodes)[name :=
          (if name in old(ungroupedNodes) then old(ungroupedNodes)[name] else []) + [node]]
      ensures node.dialogueName !in old(ungroupedNodes) ==> !node.hasErrorStyle
      ensures node.dialogueName in old(ungroupedNodes) ==>
        |ungroupedNodes[node.dialogueName]| >= 2
        && forall n :: n in ungroupedNodes[node.dialogueName] ==> n.hasErrorStyle
    {
      var nodeName := node.dialogueName;
      if nodeName !in ungroupedNodes {
        ungroupedNodes := ungroupedNodes[nodeName := [node]];
        node.hasErrorStyle := false;
        assert [] + [node] == [node];
        return;
      }
      var ungroupedNodesList := ungroupedNodes[nodeName] + [node];
      ungroupedNodes := ungroupedNodes[nodeName := ungroupedNodesList];
      node.hasErrorStyle := true;
      if |ungroupedNodesList| > 1 {
        var i := 0;
        while i < |ungroupedNodesList|
          invariant 0 <= i <= |ungroupedNodesList|
          invariant ungroupedNodes == old(ungroupedNodes)[nodeName := ungroupedNodesList]
          invariant node.hasErrorStyle
          invariant forall k :: 0 <= k < i ==> ungroupedNodesList[k].hasErrorStyle
        {
          ungroupedNodesList[i].hasErrorStyle := true;
          i := i + 1;
        }
      } else {
        // A taken name never maps to an empty list, so the list now holds at least two nodes.
        assert false;
      }
    }

    /**
     * Takes `node` out of the list under its name: an unknown name is
     * reported and changes nothing; an emptied list loses its name; a single
     * remaining node gets its default style back.
     */
    method RemoveUngroupedNode(node: DialogueNode)
      requires Valid()
      modifies this`ungroupedNodes, NodesNamed(node.dialogueName)`hasErrorStyle
      ensures Valid()
      ensures ungroupedNodes == Without(old(ungroupedNodes), node.dialogueName, node)
      ensures Registered() <= old(Registered())
      ensures node.dialogueName in ungroupedNodes && |ungroupedNodes[node.dialogueName]| == 1 ==>
        !ungroupedNodes[node.dialogueName][0].hasErrorStyle
    {
      var nodeName := node.dialogueName;
      if nodeName !in ungroupedNodes {
        return;
      }
      var ungroupedNodesList := RemoveFirst(ungroupedNodes[nodeName], node);
      RemoveFirstSubset(ungroupedNodes[nodeName], node);
      ListedWithout(ungroupedNodes, nodeName, node);
      forall k | 0 <= k < |ungroupedNodesList| ensures ungroupedNodesList[k].dialogueName == nodeName {
        var j :| 0 <= j < |ungroupedNodes[nodeName]| && ungroupedNodes[nodeName][j] == ungroupedNodesList[k];
      }
      if ungroupedNodesList == [] {
        ungroupedNodes := ungroupedNodes - {nodeName};
      } else {
        ungroupedNodes := ungroupedNodes[nodeName := ungroupedNodesList];
        if |ungroupedNodesList| == 1 {
          ungroupedNodesList[0].hasErrorStyle := false;
        }
      }
    }

    /** The second loop's body: the node leaves the table, then the graph. */
    method DeleteNode(node: DialogueNode)
      requires Valid()
      modifies this, Registered()`hasErrorStyle
      ensures Valid()
      ensures ungroupedNodes == Without(old(ungroupedNodes), node.dialogueName, node)
      ensures Registered() <= old(Registered())
      ensures elements == old(elements) - {node}
    {
      assert NodesNamed(node.dialogueName) <= Registered();
      RemoveUngroupedNode(node);
      elements := elements - {node};
    }

    /** The first loop of the deleteSelection callback: the selected dialogue nodes, in selection order. */
    method CollectSelectedNodes(selection: seq<Selected>) returns (nodesToDelete: seq<DialogueNode>)
      ensures nodesToDelete == SelectedNodes(selection)
    {
      nodesToDelete := [];
      var i := 0;
      while i < |selection|
        invariant 0 <= i <= |selection|
        invariant nodesToDelete == SelectedNodes(selection[..i])
      {
        assert selection[..i + 1][..i] == selection[..i];
        if selection[i].NodeSelected? {
          nodesToDelete := nodesToDelete + [selection[i].node];
        }
        i := i + 1;
      }
      assert selection[..i] == selection;
    }

    /**
     * The deleteSelection callback: every selected dialogue node, in
     * selection order, is taken out of the table and removed from the graph;
     * other selected elements are ignored.
     */
    method DeleteSelection(selection: seq<Selected>)
      requires Valid()
      modifies this, Registered()`hasErrorStyle
      ensures Valid()
      ensures ungroupedNodes == WithoutAll(old(ungroupedNodes), SelectedNodes(selection))
      ensures elements == old(elements) - AsObjects(SelectedNodes(selection))
    {
      var nodesToDelete := CollectSelectedNodes(selection);
      var j := 0;
      while j < |nodesToDelete|
        invariant 0 <= j <= |nodesToDelete|
        invariant Valid()
        invariant Registered() <= old(Registered())
        invariant ungroupedNodes == WithoutAll(old(ungroupedNodes), nodesToDelete[..j])
        invariant elements == old(elements) - AsObjects(nodesToDelete[..j])
      {
        var node := nodesToDelete[j];
        assert nodesToDelete[..j + 1][..j] == nodesToDelete[..j];
        DeleteNode(node);
        j := j + 1;
      }
      assert nodesToDelete[..j] == nodesToDelete;
    }
  }
}
