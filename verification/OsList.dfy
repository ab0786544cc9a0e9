/** os_list.c: a bounded queue of linked nodes. Each method is what happens while the list's mutex is held. */
module OsList {
  import opened Bytes

  /** `os_list_node`; the data is the text of the message the node points to. */
  class OsListNode {
    var data: bytes
    var next: OsListNode?
    var prev: OsListNode?

    constructor (data: bytes)
      ensures this.data == data && next == null && prev == null
    {
      this.data, next, prev := data, null, null;
    }
  }

  /** The results of `list_push` and the others. */
  datatype Status = Success | Full | NoData | OutOfMemory

  ghost function Contents(nodes: seq<OsListNode>): (s: seq<bytes>)
    reads nodes`data
    ensures |s| == |nodes|
  {
    if nodes == [] then [] else [nodes[0].data] + Contents(nodes[1..])
  }

  lemma {:induction false} ContentsSnoc(nodes: seq<OsListNode>, n: OsListNode)
    ensures Contents(nodes + [n]) == Contents(nodes) + [n.data]
    decreases |nodes|
  {
    if nodes == [] {
      assert [n][1..] == [];
    } else {
      assert (nodes + [n])[1..] == nodes[1..] + [n];
      ContentsSnoc(nodes[1..], n);
    }
  }

  class List {
    var first: OsListNode?
    var last: OsListNode?
    var curSize: nat
    const maxSize: nat
    ghost var nodes: seq<OsListNode>

    /** The chain from `first` to `last`, and the size that is kept beside it. */
    ghost predicate Valid()
      reads this, nodes`next, nodes`prev
    {
      && curSize == |nodes| <= maxSize
      && first == (if nodes == [] then null else nodes[0])
      && last == (if nodes == [] then null else nodes[|nodes| - 1])
      && (forall i, j :: 0 <= i < j < |nodes| ==> nodes[i] != nodes[j])
      && (forall i {:trigger nodes[i].next} :: 0 <= i < |nodes| ==>
         nodes[i].next == if i + 1 < |nodes| then nodes[i + 1] else null)
      && (forall i {:trigger nodes[i].prev} :: 0 <= i < |nodes| ==>
         nodes[i].prev == if i > 0 then nodes[i - 1] else null)
    }

    ghost function Queue(): seq<bytes>
      reads this, nodes`data
    {
      Contents(nodes)
    }

    /** `list_create` */
    constructor (size: nat)
      ensures Valid() && Queue() == [] && maxSize == size && nodes == []
    {
      first, last, curSize, maxSize, nodes := null, null, 0, size, [];
    }

    /** `list_push`; `memory` says whether `calloc` succeeds. */
    method Push(data: bytes, memory: bool) returns (status: Status)
      requires Valid()
      modifies this, nodes`next
      ensures Valid() && fresh(set n | n in nodes && n !in old(nodes))
      ensures status == if |old(Queue())| == maxSize then Full else if memory then Success else OutOfMemory
      ensures Queue() == if status == Success then old(Queue()) + [data] else old(Queue())
    {
      if curSize == maxSize {
        return Full;
      }
      if !memory {
        return OutOfMemory;
      }
      hide Contents;
      var newnode := new OsListNode(data);
      ContentsSnoc(nodes, newnode);
      if curSize == 0 || first == null {
        first, last := newnode, newnode;
      } else {
        last.next := newnode;
        newnode.prev := last;
        last := newnode;
      }
      curSize := curSize + 1;
      nodes := nodes + [newnode];
      status := Success;
    }

    /** `list_get_data_first_node` once the list is no longer empty. */
    method GetDataFirstNode() returns (data: bytes)
      requires Valid() && nodes != []
      ensures Queue() != [] && data == Queue()[0]
    {
      data := first.data;
    }

    /** `list_remove_first_node` */
    method RemoveFirstNode() returns (status: Status)
      requires Valid()
      modifies this, nodes`prev
      ensures Valid() && (forall n :: n in nodes ==> n in old(nodes))
      ensures status == if old(Queue()) == [] then NoData else Success
      ensures Queue() == if old(Queue()) == [] then [] else old(Queue())[1..]
    {
      if curSize == 0 || first == null {
        return NoData;
      }
      var temp := first.next;
      if temp != null {
        temp.prev := null;
      } else {
        last := temp;
      }
      first := temp;
      curSize := curSize - 1;
      nodes := nodes[1..];
      status := Success;
    }

    /** `list_clean_nodes` */
    method CleanNodes() returns (status: Status)
      requires Valid()
      modifies this
      ensures Valid() && Queue() == []
      ensures status == if old(Queue()) == [] then NoData else Success
    {
      if curSize == 0 || first == null {
        return NoData;
      }
      ghost var all := nodes;
      ghost var i := 0;
      while first != null
        invariant i <= |all| && nodes == all && first == (if i < |all| then all[i] else null)
        invariant forall k {:trigger all[k].next} :: 0 <= k < |all| ==>
          all[k].next == if k + 1 < |all| then all[k + 1] else null
        decreases |all| - i
      {
        first := first.next;
        i := i + 1;
      }
      curSize, first, last, nodes := 0, null, null, [];
      status := Success;
    }
  }
}
