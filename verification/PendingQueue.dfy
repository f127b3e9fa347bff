/**
  The linked queue of accepted descriptors between the acceptor and a worker (enqueue_pending_fd and
  dequeue_pending_fd in demo/service_provider/c/httpfs_server.c): head and tail pointers over singly linked nodes,
  refining a sequence.
*/
module PendingQueue {
  class Node {
    const fd: int
    var next: Node?

    constructor (fd: int)
      ensures this.fd == fd && next == null
    {
      this.fd, next := fd, null;
    }
  }

  function Fds(nodes: seq<Node>): (s: seq<int>)
    ensures |s| == |nodes| && forall i :: 0 <= i < |s| ==> s[i] == nodes[i].fd
  {
    seq(|nodes|, i requires 0 <= i < |nodes| => nodes[i].fd)
  }

  class Queue {
    var head: Node?
    var tail: Node?
    ghost var nodes: seq<Node>

    ghost predicate Valid()
      reads this, nodes
    {
      && (nodes == [] ==> head == null && tail == null)
      && (nodes != [] ==> head == nodes[0] && tail == nodes[|nodes| - 1] && tail.next == null)
      && (forall i {:trigger nodes[i].next} :: 0 <= i < |nodes| - 1 ==> nodes[i].next == nodes[i + 1])
      && (forall i, j :: 0 <= i < j < |nodes| ==> nodes[i] != nodes[j])
    }

    ghost function Contents(): seq<int>
      reads this
    {
      Fds(nodes)
    }

    constructor ()
      ensures Valid() && Contents() == [] && nodes == []
    {
      head, tail, nodes := null, null, [];
    }

    /** enqueue_pending_fd: the descriptor goes to the back. */
    method Enqueue(fd: int)
      requires Valid()
      modifies this, nodes
      ensures Valid() && Contents() == old(Contents()) + [fd]
      ensures fresh(set n | n in nodes && n !in old(nodes))
    {
      var node := new Node(fd);
      if tail != null {
        tail.next := node;
      } else {
        head := node;
      }
      tail := node;
      nodes := nodes + [node];
    }

    /** dequeue_pending_fd: -1 exactly when the queue is empty, otherwise the descriptor at the front. */
    method Dequeue() returns (fd: int)
      requires Valid()
      modifies this
      ensures Valid()
      ensures old(Contents()) == [] ==> fd == -1 && Contents() == []
      ensures old(Contents()) != [] ==> fd == old(Contents())[0] && Contents() == old(Contents())[1..]
    {
      var node := head;
      if node == null {
        return -1;
      }
      head := node.next;
      if head == null {
        tail := null;
      }
      fd := node.fd;
      nodes := nodes[1..];
    }
  }
}
