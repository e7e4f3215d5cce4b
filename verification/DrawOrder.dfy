/** The canvas draw order: a doubly linked list of order nodes, kept beside the map of layers. */
module DrawOrder {

  // The order as a sequence.

  function Without<T(==)>(s: seq<T>, x: T): (r: seq<T>)
    ensures x !in r
    ensures forall y | y in r :: y in s
  {
    if s == [] then [] else (if s[0] == x then [] else [s[0]]) + Without(s[1..], x)
  }

  ghost predicate Distinct<T>(s: seq<T>) {
    forall i, j | 0 <= i < j < |s| :: s[i] != s[j]
  }

  lemma {:induction false} WithoutAt<T>(s: seq<T>, k: nat)
    requires k < |s| && Distinct(s)
    ensures Without(s, s[k]) == s[..k] + s[k + 1..]
  {
    if k > 0 {
      WithoutAt(s[1..], k - 1);
      assert s[1..][..k - 1] == s[1..k] && s[1..][k..] == s[k + 1..];
      assert s[..k] == [s[0]] + s[1..k];
    } else {
      WithoutAbsent(s[1..], s[0]);
    }
  }

  lemma {:induction false} WithoutAbsent<T>(s: seq<T>, x: T)
    requires forall i | 0 <= i < |s| :: s[i] != x
    ensures Without(s, x) == s
  {
    if s != [] {
      WithoutAbsent(s[1..], x);
    }
  }

  /** What the operations do to the order. */
  datatype Op<T> = Append(x: T) | Delete(x: T) | ToEnd(x: T) | ToStart(x: T)

  function Apply<T(==)>(s: seq<T>, op: Op<T>): seq<T> {
    match op
    case Append(x) => s + [x]
    case Delete(x) => Without(s, x)
    case ToEnd(x) => if x in s then Without(s, x) + [x] else s
    case ToStart(x) => if x in s then [x] + Without(s, x) else s
  }

  /** Where each operation puts its member; the others stay, in their order. */
  lemma OpPlaces<T>(s: seq<T>, op: Op<T>)
    requires Distinct(s)
    ensures var r := Apply(s, op);
            match op
            case Append(x) => |r| == |s| + 1 && r[|s|] == x && r[..|s|] == s
            case Delete(x) =>
              x !in r && (x !in s ==> r == s)
              && forall k :: 0 <= k < |s| && s[k] == x ==> r == s[..k] + s[k + 1..]
            case ToEnd(x) =>
              (x !in s ==> r == s)
              && forall k :: 0 <= k < |s| && s[k] == x ==> r == s[..k] + s[k + 1..] + [x]
            case ToStart(x) =>
              (x !in s ==> r == s)
              && forall k :: 0 <= k < |s| && s[k] == x ==> r == [x] + s[..k] + s[k + 1..]
  {
    hide Without, Distinct;
    forall k | 0 <= k < |s| && s[k] == op.x
      ensures op.x in s && Without(s, op.x) == s[..k] + s[k + 1..]
      ensures [op.x] + Without(s, op.x) == [op.x] + s[..k] + s[k + 1..]
    {
      WithoutAt(s, k);
    }
    if op.x !in s {
      WithoutAbsent(s, op.x);
    }
  }

  function Run<T(==)>(s: seq<T>, ops: seq<Op<T>>): seq<T>
    decreases |ops|
  {
    if ops == [] then s else Run(Apply(s, ops[0]), ops[1..])
  }

  /** The members of `keep`, in their order. */
  function Only<T(==)>(s: seq<T>, keep: set<T>): seq<T> {
    if s == [] then [] else (if s[0] in keep then [s[0]] else []) + Only(s[1..], keep)
  }

  lemma OnlyFirst<T>(s: seq<T>, keep: set<T>)
    ensures Only(s, keep) == if s == [] then [] else (if s[0] in keep then [s[0]] else []) + Only(s[1..], keep)
  {
  }

  lemma {:induction false} OnlyConcat<T>(s: seq<T>, t: seq<T>, keep: set<T>)
    ensures Only(s + t, keep) == Only(s, keep) + Only(t, keep)
  {
    hide Only;
    OnlyFirst(s, keep);
    OnlyFirst(s + t, keep);
    if s == [] {
      assert s + t == t;
    } else {
      var first := if s[0] in keep then [s[0]] else [];
      OnlyConcat(s[1..], t, keep);
      assert (s + t)[1..] == s[1..] + t && (s + t)[0] == s[0];
      assert first + (Only(s[1..], keep) + Only(t, keep)) == (first + Only(s[1..], keep)) + Only(t, keep);
    }
  }

  lemma {:induction false} OnlyWithout<T>(s: seq<T>, x: T, keep: set<T>)
    requires x !in keep
    ensures Only(Without(s, x), keep) == Only(s, keep)
  {
    if s != [] {
      OnlyWithout(s[1..], x, keep);
      OnlyConcat(if s[0] == x then [] else [s[0]], Without(s[1..], x), keep);
    }
  }

  /** Over any run, the layers that no operation names keep their order. */
  lemma {:induction false} RunKeepsOthers<T>(s: seq<T>, ops: seq<Op<T>>, keep: set<T>)
    requires forall k | 0 <= k < |ops| :: ops[k].x !in keep
    ensures Only(Run(s, ops), keep) == Only(s, keep)
    decreases |ops|
  {
    if ops != [] {
      var op := ops[0];
      OnlyWithout(s, op.x, keep);
      OnlyConcat(s, [op.x], keep);
      OnlyConcat(Without(s, op.x), [op.x], keep);
      OnlyConcat([op.x], Without(s, op.x), keep);
      RunKeepsOthers(Apply(s, op), ops[1..], keep);
    }
  }

  // The linked list.

  class Layer {
    const id: int
    const interactive: bool
    var order: Node?

    constructor (id: int, interactive: bool)
      ensures this.id == id && this.interactive == interactive && order == null
    {
      this.id, this.interactive, this.order := id, interactive, null;
    }
  }

  class Node {
    const layer: Layer
    var prev: Node?
    var next: Node?

    constructor (layer: Layer, prev: Node?, next: Node?)
      ensures this.layer == layer && this.prev == prev && this.next == next
    {
      this.layer, this.prev, this.next := layer, prev, next;
    }
  }

  function LayersOf(nodes: seq<Node>): (s: seq<Layer>)
    ensures |s| == |nodes|
  {
    seq(|nodes|, i requires 0 <= i < |nodes| => nodes[i].layer)
  }

  /** A sequence without the element at index `k`. */
  function Drop<T>(s: seq<T>, k: nat): seq<T>
    requires k < |s|
  {
    s[..k] + s[k + 1..]
  }

  lemma DropMembers<T>(s: seq<T>, k: nat)
    requires k < |s| && Distinct(s)
    ensures forall x :: x in Drop(s, k) <==> x in s && x != s[k]
  {
    forall x
      ensures x in Drop(s, k) <==> x in s && x != s[k]
    {
      if x in s && x != s[k] {
        var i :| 0 <= i < |s| && s[i] == x;
        assert Drop(s, k)[if i < k then i else i - 1] == x;
      }
    }
  }

  function At(nodes: seq<Node>, i: int): Node? {
    if 0 <= i < |nodes| then nodes[i] else null
  }

  /** The two ends of the list and its nodes; the links spell out `nodes`, first to last. */
  class DrawList {
    var drawFirst: Node?
    var drawLast: Node?
    ghost var nodes: seq<Node>

    ghost predicate Valid()
      reads this, nodes
    {
      && Distinct(nodes)
      && drawFirst == At(nodes, 0)
      && drawLast == At(nodes, |nodes| - 1)
      && (forall i {:trigger nodes[i].prev} | 0 <= i < |nodes| :: nodes[i].prev == At(nodes, i - 1))
      && (forall i {:trigger nodes[i].next} | 0 <= i < |nodes| :: nodes[i].next == At(nodes, i + 1))
    }

    /** Following `next` from the first node, or `prev` from the last, visits the nodes in their order. */
    lemma IsLinked()
      requires Valid()
      ensures nodes == [] ==> drawFirst == null && drawLast == null
      ensures nodes != [] ==>
                && drawFirst == nodes[0] && nodes[0].prev == null
                && drawLast == nodes[|nodes| - 1] && nodes[|nodes| - 1].next == null
      ensures forall i :: 0 < i < |nodes| ==> nodes[i - 1].next == nodes[i] && nodes[i].prev == nodes[i - 1]
    {
      forall i | 0 < i < |nodes| ensures nodes[i - 1].next == nodes[i] && nodes[i].prev == nodes[i - 1] {
        assert nodes[i - 1].next == At(nodes, i);
      }
    }

    constructor ()
      ensures Valid() && nodes == []
    {
      drawFirst, drawLast, nodes := null, null, [];
    }

    method Add(node: Node)
      requires Valid() && node !in nodes && node.prev == drawLast && node.next == null
      modifies this, nodes
      ensures Valid() && nodes == old(nodes) + [node]
    {
      if drawLast != null {
        drawLast.next := node;
      }
      drawLast := node;
      if drawFirst == null {
        drawFirst := drawLast;
      }
      nodes := nodes + [node];
    }

    method Remove(node: Node, ghost k: nat)
      requires Valid() && k < |nodes| && node == nodes[k]
      modifies this, nodes
      ensures Valid() && nodes == Drop(old(nodes), k)
    {
      var next, prev := node.next, node.prev;
      if next != null {
        next.prev := prev;
      } else {
        drawLast := prev;
      }
      if prev != null {
        prev.next := next;
      } else {
        drawFirst := next;
      }
      nodes := Drop(nodes, k);
    }

    method MoveToEnd(node: Node, ghost k: nat)
      requires Valid() && k < |nodes| && node == nodes[k]
      modifies this, nodes
      ensures Valid() && nodes == Drop(old(nodes), k) + [node]
    {
      if node.next != null {
        Remove(node, k);
        node.prev, node.next := drawLast, null;
        Add(node);
      } else {
        assert nodes == Drop(nodes, k) + [node];
      }
    }

    method MoveToStart(node: Node, ghost k: nat)
      requires Valid() && k < |nodes| && node == nodes[k]
      modifies this, nodes
      ensures Valid() && nodes == [node] + Drop(old(nodes), k)
    {
      if node.prev != null {
        Remove(node, k);
        node.prev, node.next := null, drawFirst;
        drawFirst.prev := node;
        drawFirst := node;
        nodes := [node] + nodes;
      } else {
        assert nodes == [node] + Drop(nodes, k);
      }
    }
  }

  lemma LayersOfDrop(nodes: seq<Node>, k: nat)
    requires k < |nodes|
    ensures LayersOf(Drop(nodes, k)) == Drop(LayersOf(nodes), k)
  {
  }

  lemma LayersOfEnds(nodes: seq<Node>, n: Node)
    ensures LayersOf(nodes + [n]) == LayersOf(nodes) + [n.layer]
    ensures LayersOf([n] + nodes) == [n.layer] + LayersOf(nodes)
    ensures forall m :: m in nodes + [n] <==> m in nodes || m == n
    ensures forall m :: m in [n] + nodes <==> m in nodes || m == n
  {
  }

  function Members(nodes: seq<Node>): set<Layer> {
    set n | n in nodes :: n.layer
  }

  class Canvas {
    var layers: map<int, Layer>
    const list: DrawList

    /** The layers in the map are those of the list, each pointing to its own node. */
    ghost predicate Valid()
      reads this, list, list.nodes, Members(list.nodes)
    {
      && list.Valid()
      && (forall n | n in list.nodes :: n.layer.order == n)
      && (forall n | n in list.nodes :: n.layer.id in layers && layers[n.layer.id] == n.layer)
      && (forall id | id in layers :: layers[id] in Members(list.nodes) && layers[id].id == id)
    }

    /** The draw order, bottom to top. */
    ghost function Order(): (s: seq<Layer>)
      reads list
      ensures |s| == |list.nodes|
    {
      LayersOf(list.nodes)
    }

    constructor ()
      ensures Valid() && fresh(list) && Order() == [] && layers == map[]
    {
      layers := map[];
      list := new DrawList();
    }

    /** Taking a layer's node out of the list takes the layer out of the order. */
    lemma LayerAt(t: Layer) returns (k: nat)
      requires Valid() && t in Order()
      ensures k < |list.nodes| && list.nodes[k] == t.order && t.order.layer == t
      ensures forall n :: n in Drop(list.nodes, k) <==> n in list.nodes && n != t.order
      ensures LayersOf(Drop(list.nodes, k)) == Without(Order(), t)
    {
      k :| 0 <= k < |Order()| && Order()[k] == t;
      assert list.nodes[k] in list.nodes;
      assert Distinct(Order()) by {
        forall i, j | 0 <= i < j < |list.nodes|
          ensures Order()[i] != Order()[j]
        {
          assert list.nodes[i] in list.nodes && list.nodes[j] in list.nodes;
        }
      }
      DropMembers(list.nodes, k);
      WithoutAt(Order(), k);
      LayersOfDrop(list.nodes, k);
    }

    method InitPath(t: Layer)
      requires Valid() && t.id !in layers
      modifies this, list, list.nodes, t
      ensures Valid() && Order() == Apply(old(Order()), Append(t))
      ensures layers == old(layers)[t.id := t]
    {
      ghost var before := Order();
      layers := layers[t.id := t];
      t.order := new Node(t, list.drawLast, null);
      list.Add(t.order);
      assert Order() == before + [t];
    }

    method RemovePath(t: Layer)
      requires Valid() && t in Order()
      modifies this, list, list.nodes, t
      ensures Valid() && Order() == Apply(old(Order()), Delete(t))
      ensures layers == old(layers) - {t.id} && t.order == null
    {
      hide DrawList.Valid, Without;
      ghost var k := LayerAt(t);
      list.Remove(t.order, k);
      t.order := null;
      layers := layers - {t.id};
    }

    method BringToFront(t: Layer)
      requires Valid() && (t.order != null ==> t in Order())
      modifies list, list.nodes
      ensures Valid() && Order() == Apply(old(Order()), ToEnd(t))
      ensures t.order != null ==> Order() != [] && Order()[|Order()| - 1] == t
    {
      hide DrawList.Valid, Without;
      if t.order != null {
        ghost var k := LayerAt(t);
        ghost var was, rest := list.nodes, Drop(list.nodes, k);
        assert was[k] in was;
        LayersOfEnds(rest, t.order);
        list.MoveToEnd(t.order, k);
        assert forall n :: n in list.nodes <==> n in was;
      }
    }

    method BringToBack(t: Layer)
      requires Valid() && (t.order != null ==> t in Order())
      modifies list, list.nodes
      ensures Valid() && Order() == Apply(old(Order()), ToStart(t))
      ensures t.order != null ==> Order() != [] && Order()[0] == t
    {
      hide DrawList.Valid, Without;
      if t.order != null {
        ghost var k := LayerAt(t);
        ghost var was, rest := list.nodes, Drop(list.nodes, k);
        assert was[k] in was;
        LayersOfEnds(rest, t.order);
        list.MoveToStart(t.order, k);
        assert forall n :: n in list.nodes <==> n in was;
      }
    }

    /** A click goes to the topmost interactive layer that contains the point, skipping one that was just dragged. */
    method OnClick(contains: Layer -> bool, dragged: Layer -> bool, isClick: bool) returns (clicked: Layer?)
      requires Valid()
      ensures clicked == null ==>
                forall i | 0 <= i < |Order()| ::
                  !(Order()[i].interactive && contains(Order()[i]) && !(isClick && dragged(Order()[i])))
      ensures clicked != null ==>
                && clicked.interactive && contains(clicked) && !(isClick && dragged(clicked))
                && exists k | 0 <= k < |Order()| ::
                     && Order()[k] == clicked
                     && forall i | k < i < |Order()| ::
                          !(Order()[i].interactive && contains(Order()[i]) && !(isClick && dragged(Order()[i])))
    {
      clicked := null;
      var order := list.drawFirst;
      ghost var n := 0;
      ghost var k := 0;
      while order != null
        invariant 0 <= n <= |list.nodes| && order == At(list.nodes, n)
        invariant forall i | (if clicked == null then -1 else k) < i < n ::
                    !(Order()[i].interactive && contains(Order()[i]) && !(isClick && dragged(Order()[i])))
        invariant clicked != null ==>
                    && 0 <= k < n && Order()[k] == clicked
                    && clicked.interactive && contains(clicked) && !(isClick && dragged(clicked))
        decreases |list.nodes| - n
      {
        var layer := order.layer;
        if layer.interactive && contains(layer) {
          if !(isClick && dragged(layer)) {
            clicked := layer;
            k := n;
          }
        }
        assert Order()[n] == layer && list.nodes[n].next == At(list.nodes, n + 1);
        order := order.next;
        n := n + 1;
      }
    }
  }
}
