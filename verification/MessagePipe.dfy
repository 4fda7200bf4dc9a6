/** The message pipe in memory: a linked queue and a wake-up pipe, changed under the mutex. */
module MessagePipe {
  import opened Wrappers
  import opened LinkedList
  import opened WorkerPipe

  /** The messages of a chain of links. */
  function Entries(links: seq<ListHead<Option<Message>>>): (q: seq<Message>)
    ensures |q| == |links|
  {
    seq(|links|, i requires 0 <= i < |links| => if links[i].entry.Some? then links[i].entry.value else Message([], []))
  }

  /** A message stands in the queue through its link; the head link carries none. */
  class JSWorkerMessagePipe {
    const head: ListHead<Option<Message>>
    var bytes: nat
    ghost var links: seq<ListHead<Option<Message>>>

    /** The wake-up byte is in the pipe exactly while the queue is not empty. */
    ghost predicate Valid()
      reads this, head, links
    {
      Ring(head, links) && (forall i :: 0 <= i < |links| ==> links[i].entry.Some?) && bytes == Expected(false, Contents())
    }

    ghost function Contents(): (q: seq<Message>)
      reads this
      ensures |q| == |links|
    {
      Entries(links)
    }

    constructor ()
      ensures Valid() && Contents() == [] && fresh(head)
    {
      var h := new ListHead<Option<Message>>(None);
      head, bytes, links := h, 0, [];
      new;
      InitListHead(head);
    }

    method JsWakerSignal()
      modifies this`bytes
      ensures bytes == old(bytes) + 1
    {
      bytes := bytes + 1;
    }

    /** Reads up to 16 bytes; the caller must know that there is one, or the read waits. */
    method JsWakerClear()
      requires bytes > 0
      modifies this`bytes
      ensures bytes == if old(bytes) > 16 then old(bytes) - 16 else 0
    {
      bytes := if bytes > 16 then bytes - 16 else 0;
    }

    /** The critical section of js_worker_postMessage. */
    method Post(msg: Message)
      requires Valid()
      modifies this, head, links
      ensures Valid() && Contents() == old(Contents()) + [msg] && forall l :: l in links ==> l in old(links) || fresh(l)
    {
      var el := new ListHead<Option<Message>>(Some(msg));
      var empty := ListEmpty(head, links);
      if empty { JsWakerSignal(); }
      ListAddTail(el, head, links);
      links := links + [el];
    }

    /** The critical section of handle_posted_message: the first message, if there is one. */
    method Take() returns (msg: Option<Message>)
      requires Valid()
      modifies this, head, links
      ensures Valid() && forall l :: l in links ==> l in old(links)
      ensures msg == if old(Contents()) == [] then None else Some(old(Contents())[0])
      ensures Contents() == if old(Contents()) == [] then [] else old(Contents())[1..]
    {
      var empty := ListEmpty(head, links);
      if empty { return None; }
      assert At(head, links, 0).next == At(head, links, 1);
      var el := head.next;
      msg := el.entry;
      ghost var s := links;
      ListDel(el, head, s, 0);
      links := s[1..];
      assert s[..0] + s[0 + 1..] == s[1..];
      var last := ListEmpty(head, links);
      if last { JsWakerClear(); }
    }

    /** The loop of js_free_message_pipe: visits every message in the queue, reading the next link first. */
    method FreeMessages() returns (gone: seq<Message>)
      requires Valid()
      ensures gone == Contents()
    {
      gone := [];
      assert At(head, links, 0).next == At(head, links, 1);
      var el := head.next;
      var el1 := el.next;
      ghost var k: nat := 0;
      while el != head
        invariant k <= |links| && el == At(head, links, k + 1) && el1 == el.next && gone == Contents()[..k]
        decreases |links| - k
      {
        assert el == links[k];
        ghost var k1 := k + 1;
        ghost var k2 := k1 + 1;
        assert At(head, links, k1).next == At(head, links, k2);
        if el.entry.Some? { gone := gone + [el.entry.value]; }
        el := el1;
        el1 := el.next;
        k := k1;
      }
    }
  }
}
