/**
 The circular, doubly linked list that carries the block index and the display devices
 (NootedBlue/intel_dsi_vbt_defs.h).

 A link is embedded in the record it belongs to, so a link and its record determine each other; the
 list head is a link that belongs to no record.
 */
module IntrusiveList {
  import opened Options

  class Link<T> {
    var next: Link?<T>
    var prev: Link?<T>
    /** The record this link is embedded in; none for a list head. */
    const entry: Option<T>

    /** A link that is in no list yet: its pointers mean nothing. */
    constructor (entry: Option<T>)
      ensures this.entry == entry
    {
      this.entry := entry;
      next, prev := null, null;
    }
  }

  /** `ring` is a well-formed cycle: its links are distinct, and next and prev lead once around it. */
  ghost predicate IsRing<T>(ring: seq<Link<T>>)
    reads ring
  {
    && |ring| > 0
    && (forall i, j :: 0 <= i < j < |ring| ==> ring[i] != ring[j])
    && (forall i {:trigger ring[i].next} :: 0 <= i < |ring| ==> ring[i].next == ring[if i + 1 < |ring| then i + 1 else 0])
    && (forall i {:trigger ring[i].prev} :: 0 <= i < |ring| ==> ring[i].prev == ring[if i == 0 then |ring| - 1 else i - 1])
  }

  /** In a ring, next and prev undo each other. */
  lemma NextPrevInverse<T>(ring: seq<Link<T>>, i: nat)
    requires IsRing(ring) && i < |ring|
    ensures ring[i].next != null && ring[i].next.prev == ring[i]
    ensures ring[i].prev != null && ring[i].prev.next == ring[i]
  {
    var after := if i + 1 < |ring| then i + 1 else 0;
    var before := if i == 0 then |ring| - 1 else i - 1;
    assert ring[i].next == ring[after] && ring[i].prev == ring[before];
    assert ring[after].prev == ring[i] && ring[before].next == ring[i];
  }

  /** The records of a run of links, in order. */
  ghost function Records<T>(links: seq<Link<T>>): (s: seq<T>)
    requires forall l :: l in links ==> l.entry.Some?
    ensures |s| == |links|
  {
    seq(|links|, i requires 0 <= i < |links| => links[i].entry.value)
  }

  class List<T> {
    const head: Link<T>
    /** The links after the head, in list order. */
    ghost var links: seq<Link<T>>

    ghost function Ring(): seq<Link<T>>
      reads this
    {
      [head] + links
    }

    /** The objects the list is made of. */
    ghost function Repr(): set<object>
      reads this
    {
      var own: set<object> := {this};
      own + set l: object | l in Ring()
    }

    ghost predicate Valid()
      reads this, Ring()
    {
      IsRing(Ring()) && forall l :: l in links ==> l.entry.Some?
    }

    /** The records on the list, in insertion order. */
    ghost function Contents(): seq<T>
      requires Valid()
      reads this, Ring()
    {
      Records(links)
    }

    /** INIT_LIST_HEAD */
    constructor ()
      ensures Valid() && links == [] && fresh(Repr())
      ensures Contents() == []
    {
      head := new Link<T>(None);
      links := [];
      new;
      head.next := head;
      head.prev := head;
    }

    /** list_add_tail, for the link of a record that is on no list. */
    method AddTail(link: Link<T>)
      requires Valid() && link !in Ring() && link.entry.Some?
      modifies this, Ring(), link
      ensures Valid() && links == old(links) + [link]
      ensures Contents() == old(Contents()) + [link.entry.value]
    {
      ghost var ring := Ring();
      assert ring[0] == head && ring[0].prev == ring[|ring| - 1];
      var prev, next := head.prev, head;
      // __list_add(link, prev, next)
      next.prev := link;
      link.next := next;
      link.prev := prev;
      prev.next := link;
      links := links + [link];
      assert Ring() == ring + [link];
    }

    /** A new record, put at the tail of the list. */
    method Append(value: T)
      requires Valid()
      modifies Repr()
      ensures Valid() && fresh(Repr() - old(Repr()))
      ensures Contents() == old(Contents()) + [value]
    {
      var link := new Link<T>(Some(value));
      AddTail(link);
    }

    /** list_for_each_entry: the records its body sees, in the order it sees them. */
    method ForEachEntry() returns (visited: seq<T>)
      requires Valid()
      ensures visited == Contents()
    {
      visited := [];
      ghost var i := 0;
      assert Ring()[0] == head && Ring()[0].next == Ring()[if |links| > 0 then 1 else 0];
      var pos := head.next;
      while pos != head
        invariant 0 <= i <= |links|
        invariant pos == Ring()[if i < |links| then i + 1 else 0]
        invariant visited == Contents()[..i]
        decreases |links| - i
      {
        visited := visited + [pos.entry.value];
        assert pos == Ring()[i + 1];
        pos := pos.next;
        i := i + 1;
      }
    }
  }
}
