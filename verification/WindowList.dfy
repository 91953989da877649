/** winlist.c: the doubly linked list of windows, bottom first. */
module WindowLists {
  import opened Common
  import opened Scenes

  class WindowNode {
    var window: Window
    var next: WindowNode?
    var prev: WindowNode?

    constructor (window: Window)
      ensures this.window == window && next == null && prev == null
    {
      this.window, next, prev := window, null, null;
    }
  }

  class WindowList {
    var start: WindowNode?
    var end: WindowNode?
    ghost var nodes: seq<WindowNode>

    ghost predicate LinkedAt(i: nat)
      requires i < |nodes|
      reads this, nodes
    {
      && nodes[i].next == (if i + 1 < |nodes| then nodes[i + 1] else null)
      && nodes[i].prev == (if i > 0 then nodes[i - 1] else null)
    }

    ghost predicate Valid()
      reads this, nodes
    {
      && start == (if nodes == [] then null else nodes[0])
      && end == (if nodes == [] then null else nodes[|nodes| - 1])
      && NoDup(nodes)
      && (forall i | 0 <= i < |nodes| :: LinkedAt(i))
    }

    ghost function Windows(): (ws: seq<Window>)
      reads this, nodes
      ensures |ws| == |nodes| && forall i | 0 <= i < |nodes| :: ws[i] == nodes[i].window
    {
      seq(|nodes|, i requires 0 <= i < |nodes| reads this, nodes => nodes[i].window)
    }

    constructor ()
      ensures Valid() && nodes == []
    {
      start, end, nodes := null, null, [];
    }

    // window_list_insert
    method Insert(win: Window) returns (node: WindowNode)
      requires Valid()
      modifies this, nodes
      ensures Valid() && fresh(node) && nodes == old(nodes) + [node]
      ensures Windows() == old(Windows()) + [win]
    {
      node := new WindowNode(win);
      if end != null {
        end.next := node;
        node.prev := end;
      }
      if start == null {
        start := node;
      }
      end := node;
      nodes := nodes + [node];
      forall i | 0 <= i < |nodes|
        ensures LinkedAt(i)
      {
        if i + 1 < |nodes| { assert old(LinkedAt(i)); }
      }
    }

    // window_list_remove
    method Remove(node: WindowNode, ghost i: nat)
      requires Valid() && i < |nodes| && nodes[i] == node
      modifies this, nodes
      ensures Valid() && nodes == Removed(old(nodes), i)
      ensures forall k | 0 <= k < |nodes| :: nodes[k] in old(nodes)
      ensures Windows() == Removed(old(Windows()), i)
    {
      Unlink(node, i);
      nodes := Removed(nodes, i);
      StillValid(i);
      WindowsRemoved(i);
    }

    // The pointer changes in window_list_remove
    method Unlink(node: WindowNode, ghost i: nat)
      requires Valid() && i < |nodes| && nodes[i] == node
      modifies this`start, this`end, nodes
      ensures forall n | n in nodes :: n.window == old(n.window)
      ensures RelinkedAround(nodes, i)
    {
      assert LinkedAt(i);
      assert i > 0 ==> LinkedAt(i - 1);
      assert i + 1 < |nodes| ==> LinkedAt(i + 1);
      if node.prev != null {
        node.prev.next := node.next;
      }
      if node.next != null {
        node.next.prev := node.prev;
      }
      if node == start {
        start := node.next;
      }
      if node == end {
        end := node.prev;
      }
    }

    twostate predicate RelinkedAround(xs: seq<WindowNode>, i: nat)
      requires i < |xs|
      reads this, xs
    {
      && (forall j | 0 <= j < |xs| && j != i ::
            && xs[j].next == (if j + 1 == i then old(xs[i].next) else old(xs[j].next))
            && xs[j].prev == (if j == i + 1 then old(xs[i].prev) else old(xs[j].prev)))
      && start == (if i == 0 then old(xs[i].next) else old(start))
      && end == (if i + 1 == |xs| then old(xs[i].prev) else old(end))
    }

    twostate lemma StillValid(i: nat)
      requires old(Valid()) && i < |old(nodes)| && nodes == Removed(old(nodes), i)
      requires RelinkedAround(old(nodes), i)
      ensures Valid()
    {
      assert old(LinkedAt(i));
      RemovedElements(old(nodes), i);
      forall k | 0 <= k < |nodes|
        ensures LinkedAt(k)
      {
        var j := if k < i then k else k + 1;
        assert old(LinkedAt(j));
        assert nodes[k] == old(nodes)[j];
      }
    }

    twostate lemma WindowsRemoved(i: nat)
      requires i < |old(nodes)| && nodes == Removed(old(nodes), i)
      requires forall n | n in old(nodes) :: n.window == old(n.window)
      ensures Windows() == Removed(old(Windows()), i)
    {
      var was := old(Windows());
      forall k | 0 <= k < |nodes|
        ensures Windows()[k] == Removed(was, i)[k]
      {
        var j := if k < i then k else k + 1;
        assert nodes[k] == old(nodes)[j];
        assert old(nodes)[j] in old(nodes);
      }
    }

    // The nodes are nodes from before and new ones.
    twostate predicate Renewed()
      reads this
    {
      forall k | 0 <= k < |nodes| :: nodes[k] in old(nodes) || fresh(nodes[k])
    }

    // Where the pointers of a valid list lead.
    lemma Ends(i: nat)
      requires Valid() && i <= |nodes|
      ensures start == (if nodes == [] then null else nodes[0])
      ensures end == (if nodes == [] then null else nodes[|nodes| - 1])
      ensures i > 0 ==> nodes[i - 1].prev == (if i > 1 then nodes[i - 2] else null)
      ensures i < |nodes| ==> nodes[i].next == (if i + 1 < |nodes| then nodes[i + 1] else null)
    {
      assert i > 0 ==> LinkedAt(i - 1);
      assert i < |nodes| ==> LinkedAt(i);
    }

    // A node's window changes in place; window_set_pos is one such change.
    method Set(node: WindowNode, window: Window, ghost i: nat)
      requires Valid() && i < |nodes| && nodes[i] == node
      modifies node
      ensures Valid() && nodes == old(nodes)
      ensures Windows() == old(Windows())[i := window]
    {
      node.window := window;
      forall k | 0 <= k < |nodes|
        ensures LinkedAt(k)
      {
        assert old(LinkedAt(k));
      }
    }
  }
}
