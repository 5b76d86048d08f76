/** The intrusive doubly linked lists that hold the registry together: the link
    fields are embedded in the buffers, so that unlinking a buffer and returning
    it to its pool takes the links away with it. The list library is outside the
    repository; what is assumed of it is the code below. */
module InlineList {
  import opened Common

  /** A buffer: its embedded link fields and the rest of the structure. */
  class ListNode<T> {
    var next: ListNode?<T>
    var prev: ListNode?<T>
    var data: T

    constructor (data: T)
      ensures next == null && prev == null && this.data == data
    {
      next, prev, this.data := null, null, data;
    }
  }

  /** The list structure that is embedded in the owner of a list. */
  datatype ListHead<T> = ListHead(first: ListNode?<T>, last: ListNode?<T>)

  /** The buffer at position i, or null outside the list. */
  ghost function At<T>(s: seq<ListNode<T>>, i: int): ListNode?<T> {
    if 0 <= i < |s| then s[i] else null
  }

  /** s is what a walk from the first buffer to the last visits, both ways. */
  ghost predicate Linked<T>(head: ListHead<T>, s: seq<ListNode<T>>)
    reads s`next, s`prev
  {
    && NoDup(s) && head == ListHead(At(s, 0), At(s, |s| - 1))
    && (forall i {:trigger s[i].next} :: 0 <= i < |s| ==> s[i].next == At(s, i + 1))
    && (forall i {:trigger s[i].prev} :: 0 <= i < |s| ==> s[i].prev == At(s, i - 1))
  }

  /** The links of the other buffers skip position i. */
  ghost predicate Skips<T>(head: ListHead<T>, s: seq<ListNode<T>>, i: nat)
    requires i < |s|
    reads s`next, s`prev
  {
    && head == ListHead(At(s, if i == 0 then 1 else 0), At(s, if i == |s| - 1 then i - 1 else |s| - 1))
    && (forall j {:trigger s[j].next} :: 0 <= j < |s| && j != i ==>
      s[j].next == At(s, if j + 1 == i then j + 2 else j + 1))
    && (forall j {:trigger s[j].prev} :: 0 <= j < |s| && j != i ==>
      s[j].prev == At(s, if j - 1 == i then j - 2 else j - 1))
  }

  lemma NextAfterRemoval<T>(head: ListHead<T>, s: seq<ListNode<T>>, i: nat)
    requires i < |s| && Skips(head, s, i)
    ensures var r := RemoveAt(s, i);
      forall k {:trigger r[k].next} :: 0 <= k < |r| ==> r[k].next == At(r, k + 1)
  {
    var r := RemoveAt(s, i);
    forall k | 0 <= k < |r|
      ensures r[k].next == At(r, k + 1)
    {
      var j := if k < i then k else k + 1;
      assert s[j].next == At(s, if j + 1 == i then j + 2 else j + 1);
    }
  }

  lemma PrevAfterRemoval<T>(head: ListHead<T>, s: seq<ListNode<T>>, i: nat)
    requires i < |s| && Skips(head, s, i)
    ensures var r := RemoveAt(s, i);
      forall k {:trigger r[k].prev} :: 0 <= k < |r| ==> r[k].prev == At(r, k - 1)
  {
    var r := RemoveAt(s, i);
    forall k | 0 <= k < |r|
      ensures r[k].prev == At(r, k - 1)
    {
      var j := if k < i then k else k + 1;
      assert s[j].prev == At(s, if j - 1 == i then j - 2 else j - 1);
    }
  }

  /** A list whose links skip one buffer is a list of the others. */
  lemma LinkedAfterRemoval<T>(head: ListHead<T>, s: seq<ListNode<T>>, i: nat)
    requires NoDup(s) && i < |s| && Skips(head, s, i)
    ensures Linked(head, RemoveAt(s, i)) && s[i] !in RemoveAt(s, i)
    ensures forall x :: x in s && x != s[i] <==> x in RemoveAt(s, i)
  {
    RemoveAtNoDup(s, i);
    NextAfterRemoval(head, s, i);
    PrevAfterRemoval(head, s, i);
  }

  /** REDAInlineList_addNodeToBackEA. */
  method AddNodeToBack<T>(list: ListHead<T>, n: ListNode<T>, ghost s: seq<ListNode<T>>) returns (head: ListHead<T>)
    requires Linked(list, s) && n !in s
    modifies s`next, n`next, n`prev
    ensures Linked(head, s + [n])
  {
    n.prev, n.next := list.last, null;
    if list.last != null {
      list.last.next := n;
    }
    head := ListHead(if list.last == null then n else list.first, n);
  }

  /** Links the neighbours of n to each other. */
  method Bypass<T>(list: ListHead<T>, n: ListNode<T>, ghost s: seq<ListNode<T>>, ghost i: nat)
    returns (head: ListHead<T>)
    requires Linked(list, s) && i < |s| && s[i] == n
    modifies s`next, s`prev
    ensures Skips(head, s, i)
  {
    if n.prev != null {
      n.prev.next := n.next;
    }
    if n.next != null {
      n.next.prev := n.prev;
    }
    head := ListHead(if n.prev == null then n.next else list.first, if n.next == null then n.prev else list.last);
  }

  /** Leaves anything in the links of a buffer that is not listed. */
  method ForgetLinks<T>(head: ListHead<T>, n: ListNode<T>, ghost s: seq<ListNode<T>>)
    requires Linked(head, s) && n !in s
    modifies n`next, n`prev
    ensures Linked(head, s)
  {
    n.next, n.prev := *, *;
  }

  /** REDAInlineList_removeNodeEA. Nothing is assumed of the links that it
      leaves in the removed buffer. */
  method RemoveNode<T>(list: ListHead<T>, n: ListNode<T>, ghost s: seq<ListNode<T>>, ghost i: nat)
    returns (head: ListHead<T>)
    requires Linked(list, s) && i < |s| && s[i] == n
    modifies s`next, s`prev
    ensures Linked(head, RemoveAt(s, i)) && n !in RemoveAt(s, i)
    ensures forall x :: x in s && x != n <==> x in RemoveAt(s, i)
  {
    head := Bypass(list, n, s, i);
    LinkedAfterRemoval(head, s, i);
    ForgetLinks(head, n, RemoveAt(s, i));
  }
}
