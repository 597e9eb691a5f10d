/** The intrusive circular list of hook entries. */
module HookRing {
  import opened Common

  /** A hook: where it is, where it leads, and the original bytes saved for it. */
  datatype HookEntry = HookEntry(address: nat, target: nat, saved: seq<Byte>)

  /** The newest entry for an address; |es| if there is none. */
  function Find(es: seq<HookEntry>, address: nat): (k: nat)
    ensures k <= |es|
    ensures k < |es| ==> es[k].address == address
    ensures forall j :: 0 <= j < k ==> es[j].address != address
  {
    if es == [] then 0 else if es[0].address == address then 0 else 1 + Find(es[1..], address)
  }

  function Without(es: seq<HookEntry>, k: nat): seq<HookEntry>
    requires k < |es|
  {
    es[..k] + es[k + 1..]
  }

  /** A list node; the list head is a node whose entry is never looked at. */
  class ListNode {
    var next: ListNode?
    var prev: ListNode?
    const entry: HookEntry

    constructor (entry: HookEntry)
      ensures this.entry == entry && next == null && prev == null
    {
      this.entry := entry;
      next, prev := null, null;
    }
  }

  /** The ring through these nodes: next and prev are mutually inverse and form one cycle. */
  ghost predicate Ring(r: seq<ListNode>)
    reads r
  {
    && |r| > 0
    && (forall i, j :: 0 <= i < j < |r| ==> r[i] != r[j])
    && (forall i {:trigger r[i].next} :: 0 <= i < |r| - 1 ==> r[i].next == r[i + 1])
    && (forall i {:trigger r[i].prev} :: 1 <= i < |r| ==> r[i].prev == r[i - 1])
    && r[|r| - 1].next == r[0] && r[0].prev == r[|r| - 1]
  }

  /** Index before the removal of the element behind k. */
  function Skip(k: nat, i: nat): nat { if i <= k then i else i + 1 }

  /** __list_del: the neighbours of a node linked to each other; the ring goes on without it. */
  method Unlink(node: ListNode, ghost r: seq<ListNode>, ghost k: nat)
    requires Ring(r) && k + 1 < |r| && r[k + 1] == node
    modifies r
    ensures Ring(r[..k + 1] + r[k + 2..])
  {
    assert r[k + 1].prev == r[k];
    assert r[k + 1].next == if k + 2 < |r| then r[k + 2] else r[0];
    var prev, next := node.prev, node.next;
    next.prev := prev;
    prev.next := next;
    ghost var s := r[..k + 1] + r[k + 2..];
    assert forall i {:trigger s[i]} :: 0 <= i < |s| ==> s[i] == r[Skip(k, i)];
    forall i | 0 <= i < |s| - 1
      ensures s[i].next == s[i + 1]
    {
      assert s[i] == r[Skip(k, i)] && s[i + 1] == r[Skip(k, i + 1)];
      if i != k { assert old(r[Skip(k, i)].next) == r[Skip(k, i) + 1]; }
    }
    forall i | 1 <= i < |s|
      ensures s[i].prev == s[i - 1]
    {
      assert s[i] == r[Skip(k, i)] && s[i - 1] == r[Skip(k, i - 1)];
      if i != k + 1 { assert old(r[Skip(k, i)].prev) == r[Skip(k, i) - 1]; }
    }
  }

  class Interceptor {
    const head: ListNode
    ghost var nodes: seq<ListNode>

    ghost predicate Valid()
      reads this, head, nodes
    {
      Ring([head] + nodes)
    }

    ghost function Entries(): seq<HookEntry>
      reads this
    {
      seq(|nodes|, i requires 0 <= i < |nodes| reads this => nodes[i].entry)
    }

    ghost function Repr(): set<object>
      reads this
    {
      {this, head} + set n | n in nodes
    }

    /** INIT_LIST_HEAD */
    constructor ()
      ensures Valid() && fresh(Repr()) && Entries() == []
    {
      var h := new ListNode(HookEntry(0, 0, []));
      head := h;
      nodes := [];
      new;
      h.next := h;
      h.prev := h;
    }

    /** list_add behind the head. */
    method AddHookEntry(entry: HookEntry)
      requires Valid()
      modifies Repr()
      ensures Valid() && fresh(Repr() - old(Repr()))
      ensures Entries() == [entry] + old(Entries())
    {
      var node := new ListNode(entry);
      ghost var r := [head] + nodes;
      assert r[0] == head;
      var next := head.next;
      assert next == if |nodes| > 0 then r[1] else r[0];
      next.prev := node;
      node.next := next;
      node.prev := head;
      head.next := node;
      nodes := [node] + nodes;
      ghost var s := [head] + nodes;
      assert s[0] == head && s[1] == node && forall i :: 2 <= i < |s| ==> s[i] == r[i - 1];
      assert forall i, j :: 0 <= i < j < |s| ==> s[i] != s[j];
      assert forall i {:trigger s[i].next} :: 0 <= i < |s| - 1 ==> s[i].next == s[i + 1];
      assert forall i {:trigger s[i].prev} :: 1 <= i < |s| ==> s[i].prev == s[i - 1];
    }

    /** find_hook_entry_node: the walk ends when it is back at the head. */
    method FindNode(address: nat) returns (node: ListNode?, ghost k: nat)
      requires Valid()
      ensures k == Find(Entries(), address)
      ensures node == if k < |nodes| then nodes[k] else null
    {
      ghost var r := [head] + nodes;
      var n: ListNode := head.next;
      k := 0;
      assert n == r[if |r| > 1 then 1 else 0];
      while n != head
        invariant 0 <= k <= |nodes| && r == [head] + nodes && Ring(r)
        invariant n == if k < |nodes| then r[k + 1] else head
        invariant forall j :: 0 <= j < k ==> Entries()[j].address != address
        decreases |nodes| - k
      {
        if n.entry.address == address {
          FindIs(Entries(), address, k);
          return n, k;
        }
        assert r[k + 1].next == if k + 2 < |r| then r[k + 2] else r[0];
        n := n.next;
        k := k + 1;
      }
      FindIs(Entries(), address, k);
      node := null;
    }

    method FindHookEntry(address: nat) returns (found: bool, entry: HookEntry)
      requires Valid()
      ensures var k := Find(Entries(), address);
              found == (k < |Entries()|) && (found ==> entry == Entries()[k])
    {
      var node, k := FindNode(address);
      found := node != null;
      if node != null {
        entry := node.entry;
      } else {
        entry := HookEntry(0, 0, []);
      }
    }

    method ListDel(node: ListNode, ghost k: nat)
      requires Valid() && k < |nodes| && nodes[k] == node
      modifies Repr()
      ensures Valid() && nodes == old(nodes)[..k] + old(nodes)[k + 1..]
    {
      ghost var r := [head] + nodes;
      assert r[k + 1] == node;
      Unlink(node, r, k);
      nodes := nodes[..k] + nodes[k + 1..];
      assert [head] + nodes == r[..k + 1] + r[k + 2..];
      node.next := null;
      node.prev := null;
    }

    /** list_del of the newest entry for the address. */
    method RemoveHookEntry(address: nat)
      requires Valid()
      modifies Repr()
      ensures Valid() && Repr() <= old(Repr())
      ensures var k := Find(old(Entries()), address);
              Entries() == if k < |old(Entries())| then Without(old(Entries()), k) else old(Entries())
    {
      var node, k := FindNode(address);
      if node != null {
        ghost var before := Entries();
        ListDel(node, k);
        assert Entries() == Without(before, k);
      }
    }

    method GetHookEntryCount() returns (count: nat)
      requires Valid()
      ensures count == |Entries()|
    {
      ghost var r := [head] + nodes;
      var n: ListNode := head.next;
      count := 0;
      assert n == r[if |r| > 1 then 1 else 0];
      while n != head
        invariant 0 <= count <= |nodes| && r == [head] + nodes && Ring(r)
        invariant n == if count < |nodes| then r[count + 1] else head
        decreases |nodes| - count
      {
        assert r[count + 1].next == if count + 2 < |r| then r[count + 2] else r[0];
        n := n.next;
        count := count + 1;
      }
    }
  }

  lemma {:induction false} FindIs(es: seq<HookEntry>, address: nat, k: nat)
    requires k <= |es| && (k < |es| ==> es[k].address == address)
    requires forall j :: 0 <= j < k ==> es[j].address != address
    ensures Find(es, address) == k
  {
    var f := Find(es, address);
    assert f < k || f == k || k < f;
  }
}
