/**
 The intrusive doubly linked queue. A link carries its payload as a constant, where the
 original casts the link to the record it is embedded in. The abstract value of a queue is
 the sequence of its links; every operation is specified as a splice of that sequence.
 */
module DList {
  import opened Common

  class Link<T> {
    var prev: Link?<T>
    var next: Link?<T>
    const entry: T

    constructor (entry: T)
      ensures this.entry == entry && prev == null && next == null
    {
      this.entry := entry;
      prev, next := null, null;
    }
  }

  /** s with x put in front of its k-th element */
  function Splice<T>(s: seq<T>, k: nat, x: T): (r: seq<T>)
    requires k <= |s|
    ensures |r| == |s| + 1
    ensures forall i :: 0 <= i < |r| ==> r[i] == if i < k then s[i] else if i == k then x else s[i - 1]
  {
    s[..k] + [x] + s[k..]
  }

  class Queue<T> {
    var head: Link?<T>
    var tail: Link?<T>
    ghost var links: seq<Link<T>>

    ghost predicate Valid()
      reads this, links
    {
      && (forall i, j :: 0 <= i < j < |links| ==> links[i] != links[j])
      && (if links == [] then head == null && tail == null
          else head == links[0] && tail == links[|links| - 1])
      && (forall i {:trigger links[i].prev} :: 0 <= i < |links| ==> links[i].prev == if i == 0 then null else links[i - 1])
      && (forall i {:trigger links[i].next} :: 0 <= i < |links| ==> links[i].next == if i == |links| - 1 then null else links[i + 1])
    }

    ghost function IndexOf(what: Link<T>): (k: nat)
      requires what in links
      reads this
      ensures k < |links| && links[k] == what
    {
      var k :| 0 <= k < |links| && links[k] == what;
      k
    }

    /** diva_q_init */
    constructor ()
      ensures Valid() && links == []
    {
      head, tail, links := null, null, [];
    }

    /** diva_q_remove */
    method Remove(what: Link<T>)
      requires Valid() && what in links
      modifies this, links
      ensures Valid() && links == Without(old(links), old(IndexOf(what)))
      ensures what !in links && what.prev == null && what.next == null
    {
      ghost var k := IndexOf(what);
      if what.prev == null {
        assert k == 0;
        head := what.next;
        if head != null {
          head.prev := null;
        } else {
          tail := null;
        }
      } else if what.next == null {
        assert k == |links| - 1;
        tail := what.prev;
        tail.next := null;
      } else {
        what.prev.next := what.next;
        what.next.prev := what.prev;
      }
      what.prev, what.next := null, null;
      links := Without(links, k);
    }

    /** diva_q_add_tail */
    method AddTail(what: Link<T>)
      requires Valid() && what !in links
      modifies this, links, what
      ensures Valid() && links == old(links) + [what]
    {
      what.next := null;
      if head == null {
        what.prev := null;
        head, tail := what, what;
      } else {
        what.prev := tail;
        tail.next := what;
        tail := what;
      }
      links := links + [what];
    }

    /** The four assignments both insertions end with */
    method LinkBetween(prev: Link<T>, next: Link<T>, what: Link<T>, ghost k: nat)
      requires Valid() && what !in links
      requires 0 < k < |links| && prev == links[k - 1] && next == links[k]
      modifies this, prev, next, what
      ensures Valid() && links == Splice(old(links), k, what)
    {
      what.prev := prev;
      what.next := next;
      prev.next := what;
      next.prev := what;
      links := Splice(links, k, what);
    }

    /** diva_q_insert_after; a null or last predecessor means the end of the queue */
    method InsertAfter(prev: Link?<T>, what: Link<T>)
      requires Valid() && what !in links && (prev == null || prev in links)
      modifies this, links, what
      ensures Valid()
      ensures links == Splice(old(links), if prev == null then |old(links)| else old(IndexOf(prev)) + 1, what)
    {
      ghost var k := if prev == null then |links| else IndexOf(prev) + 1;
      if prev == null || prev.next == null {
        assert Splice(links, |links|, what) == links + [what];
        AddTail(what);
        return;
      }
      var next := prev.next;
      LinkBetween(prev, next, what, k);
    }

    /** diva_q_insert_before; a null successor means the end of the queue */
    method InsertBefore(next: Link?<T>, what: Link<T>)
      requires Valid() && what !in links && (next == null || next in links)
      modifies this, links, what
      ensures Valid()
      ensures links == Splice(old(links), if next == null then |old(links)| else old(IndexOf(next)), what)
    {
      if next == null {
        assert Splice(links, |links|, what) == links + [what];
        AddTail(what);
        return;
      }
      var prev := next.prev;
      if prev == null {
        assert IndexOf(next) == 0;
        head := what;
        what.prev := null;
        what.next := next;
        next.prev := what;
        links := [what] + links;
        assert links == Splice(old(links), 0, what);
      } else {
        LinkBetween(prev, next, what, IndexOf(next));
      }
    }

    /** diva_q_find; the comparison answers true on a match, where the original answers 0 */
    method Find(matches: T -> bool) returns (found: Link?<T>, ghost k: nat)
      requires Valid()
      ensures k <= |links| && forall i :: 0 <= i < k ==> !matches(links[i].entry)
      ensures found == if k < |links| then links[k] else null
      ensures found != null ==> matches(found.entry)
    {
      found, k := head, 0;
      while found != null
        invariant 0 <= k <= |links| && found == if k < |links| then links[k] else null
        invariant forall i :: 0 <= i < k ==> !matches(links[i].entry)
        decreases |links| - k
      {
        if matches(found.entry) {
          break;
        }
        found := found.next;
        k := k + 1;
      }
    }

    /** diva_q_get_nr_of_entries */
    method Count() returns (n: nat)
      requires Valid()
      ensures n == |links|
    {
      n := 0;
      var current := head;
      while current != null
        invariant n <= |links| && current == if n < |links| then links[n] else null
        decreases |links| - n
      {
        n := n + 1;
        current := current.next;
      }
    }
  }
}
