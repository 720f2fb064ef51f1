/** The queue of peers to dial, a min-heap of tasks with the last task of each peer on record. */
module DialQueue {
  import opened Wrappers
  import opened IndexedHeap

  type PeerID = string

  /** A DialTask: the key is the priority value. */
  type DialTask = Entry<PeerID>

  class Queue {
    const heap: Heap<PeerID>
    var tasks: map<PeerID, DialTask>

    /** The recorded task of a peer is either in the heap or marked as out of it. */
    ghost predicate Valid()
      reads this, heap, heap.items, tasks.Values
    {
      && heap.Valid()
      && forall p :: p in tasks ==>
           tasks[p].info == p && (tasks[p] in heap.Members() || tasks[p].index == NO_INDEX)
    }

    constructor ()
      ensures Valid() && fresh(heap)
      ensures heap.items == [] && tasks == map[]
    {
      heap := new Heap<PeerID>();
      tasks := map[];
    }

    /** Queues a new task and makes it the one on record for the peer. */
    method AddTask(peer: PeerID, priority: nat) returns (task: DialTask)
      requires Valid()
      modifies this`tasks, heap, heap.items`index
      ensures Valid()
      ensures fresh(task) && task.info == peer && task.key == priority
      ensures heap.Members() == old(heap.Members()) + {task}
      ensures tasks == old(tasks)[peer := task]
    {
      task := new Entry<PeerID>(peer, priority, 0);
      tasks := tasks[peer := task];
      heap.Push(task);
    }

    /** Takes a task with the smallest priority value off the queue. */
    method PopTask() returns (r: Option<DialTask>)
      requires Valid()
      modifies heap, heap.items`index
      ensures Valid()
      ensures r.None? <==> old(heap.items) == []
      ensures r.None? ==> heap.items == []
      ensures r.Some? ==>
                && r.value in old(heap.Members())
                && heap.Members() == old(heap.Members()) - {r.value}
                && forall t :: t in old(heap.Members()) ==> r.value.key <= t.key
    {
      if |heap.items| == 0 {
        return None;
      }
      var t := heap.Pop();
      return Some(t);
    }

    /** Removes exactly the task on record for the peer, if it is still queued. */
    method DeleteTask(peer: PeerID)
      requires Valid()
      modifies this`tasks, heap, heap.items`index
      ensures Valid()
      ensures tasks == old(tasks) - {peer}
      ensures heap.Members() == old(heap.Members()) - (if peer in old(tasks) then {old(tasks)[peer]} else {})
    {
      if peer in tasks {
        var item := tasks[peer];
        if item.index >= 0 {
          heap.Located(item);
          var _ := heap.Remove(item.index);
        }
        tasks := tasks - {peer};
      }
    }
  }
}
