/** The counted lists of a3/linked_list.c, used by a3/kernel.c for its queue, its processes and its pages. */
module LinkedLists {
  import opened IntrusiveLists

  ghost function Datas(s: seq<Elem>): (d: seq<object?>)
    ensures |d| == |s|
  {
    seq(|s|, i requires 0 <= i < |s| => s[i].outer)
  }

  lemma DatasWithout(s: seq<Elem>, i: nat)
    requires i < |s|
    ensures Datas(s)[i] == s[i].outer
    ensures Datas(s[..i] + s[i + 1..]) == Datas(s)[..i] + Datas(s)[i + 1..]
  {
  }

  /** struct LINKED_LIST. The equality that it searches by is a parameter of the searches here. */
  class LinkedList {
    const nodes: List
    var size: int

    ghost predicate Valid()
      reads this, nodes, Members(nodes.Spine())
    {
      nodes.Valid() && size == |nodes.elems|
    }

    ghost function Contents(): (c: seq<object?>)
      reads nodes
    {
      Datas(nodes.elems)
    }

    /** list_init */
    constructor ()
      ensures Valid() && Contents() == []
      ensures fresh(nodes) && fresh(Members(nodes.Spine()))
    {
      nodes := new List();
      size := 0;
    }

    /** add_head */
    method AddHead(data: object?)
      requires Valid()
      modifies this, nodes, Members(nodes.Spine())
      ensures Valid() && Contents() == [data] + old(Contents())
    {
      hide List.Valid;
      nodes.StepFrom(0);
      var node := new Elem(data);
      nodes.Insert(nodes.head.next, node, 0);
      size := size + 1;
    }

    /** add_tail */
    method AddTail(data: object?)
      requires Valid()
      modifies this, nodes, Members(nodes.Spine())
      ensures Valid() && Contents() == old(Contents()) + [data]
    {
      hide List.Valid;
      var node := new Elem(data);
      nodes.Insert(nodes.tail, node, |nodes.elems|);
      size := size + 1;
    }

    /** pop_head */
    method PopHead() returns (data: object?)
      requires Valid() && size > 0
      modifies this, nodes, Members(nodes.Spine())
      ensures Valid() && old(Contents()) == [data] + Contents()
    {
      hide List.Valid, List.Spine, Members;
      nodes.StepFrom(0);
      nodes.SpineIs();
      nodes.ElemAt(0);
      var node := nodes.head.next;
      var after := nodes.Remove(node, 0);
      size := size - 1;
      data := node.outer;
    }

    /** pop_tail */
    method PopTail() returns (data: object?)
      requires Valid() && size > 0
      modifies this, nodes, Members(nodes.Spine())
      ensures Valid() && old(Contents()) == Contents() + [data]
    {
      hide List.Valid, List.Spine, Members;
      nodes.NextAt(|nodes.elems|);
      nodes.SpineIs();
      nodes.ElemAt(|nodes.elems| - 1);
      var node := nodes.tail.prev;
      var after := nodes.Remove(node, |nodes.elems| - 1);
      size := size - 1;
      data := node.outer;
    }

    /** The first datum equal to the target is number i. */
    ghost predicate IsFirst(target: object?, equal: (object?, object?) -> bool, i: int)
      reads nodes
    {
      && 0 <= i < |Contents()| && equal(target, Contents()[i])
      && forall k :: 0 <= k < i ==> !equal(target, Contents()[k])
    }

    /** get_node_by_value: the first node equal to the target, which must be there. */
    method GetNodeByValue(target: object?, equal: (object?, object?) -> bool) returns (node: Elem)
      requires Valid() && exists k :: 0 <= k < |Contents()| && equal(target, Contents()[k])
      ensures Valid() && exists at :: IsFirst(target, equal, at) && node == nodes.elems[at]
    {
      hide List.Valid, List.Spine, Members;
      nodes.StepFrom(0);
      nodes.SpineIs();
      nodes.ElemAt(0);
      node := nodes.head.next;
      ghost var at: nat := 0;
      ghost var w: nat :| w < |Contents()| && equal(target, Contents()[w]);
      while !equal(target, node.outer)
        invariant nodes.Valid() && at <= w < |nodes.elems| && node == nodes.elems[at]
        invariant forall k :: 0 <= k < at ==> !equal(target, Contents()[k])
        decreases w - at
      {
        nodes.ElemAt(at);
        nodes.StepFrom(at + 1);
        node := node.next;
        at := at + 1;
        nodes.ElemAt(at);
      }
      assert IsFirst(target, equal, at);
    }

    /** remove_elem: take out the first datum equal to the target. */
    method RemoveElem(target: object?, equal: (object?, object?) -> bool) returns (data: object?)
      requires Valid() && exists k :: 0 <= k < |Contents()| && equal(target, Contents()[k])
      modifies this, nodes, Members(nodes.Spine())
      ensures Valid() && exists at :: old(IsFirst(target, equal, at)) && data == old(Contents())[at]
                                      && Contents() == old(Contents()[..at] + Contents()[at + 1..])
    {
      hide List.Valid, List.Spine, Members, Datas;
      var node := GetNodeByValue(target, equal);
      ghost var at: int :| IsFirst(target, equal, at) && node == nodes.elems[at];
      DatasWithout(nodes.elems, at);
      var after := nodes.Remove(node, at);
      size := size - 1;
      data := node.outer;
    }
  }
}
