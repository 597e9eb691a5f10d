/** The growable byte buffer that assemblers write code into. */
module CodeBuffer {
  import opened Common

  /** `s` with the bytes at p replaced. */
  function Overwrite(s: seq<Byte>, p: nat, bytes: seq<Byte>): (r: seq<Byte>)
    requires p + |bytes| <= |s|
    ensures |r| == |s|
  {
    s[..p] + bytes + s[p + |bytes|..]
  }

  /** Capacity chosen when `need` bytes do not fit. */
  function Grown(need: nat): nat { need + need / 2 }

  class Buffer {
    var data: array<Byte>
    var cursor: nat
    /** Size asked for at the last growth, and bytes copied by all growths so far. */
    ghost var asked: nat
    ghost var copied: nat

    ghost predicate Valid()
      reads this
    {
      && cursor <= data.Length && 0 < data.Length
      && asked <= cursor && copied <= 3 * asked
      && (asked > 0 ==> data.Length == Grown(asked))
    }

    ghost function Contents(): (s: seq<Byte>)
      requires cursor <= data.Length
      reads this, data
    {
      data[..cursor]
    }

    constructor (capacity: nat)
      requires capacity > 0
      ensures Valid() && fresh(data) && Contents() == [] && copied == 0
    {
      data := new Byte[capacity](_ => 0);
      cursor := 0;
      asked, copied := 0, 0;
    }

    /** ensureCapacity: a larger store, filled with 'A', takes over the old content. */
    method EnsureCapacity(need: nat)
      requires Valid() && cursor < need && Grown(need) < 0x1_0000_0000
      modifies this
      ensures cursor <= data.Length && need <= data.Length && (data == old(data) || fresh(data))
      ensures cursor == old(cursor) && Contents() == old(Contents())
      ensures if need <= old(data.Length) then asked == old(asked) && copied == old(copied) && data == old(data)
              else asked == need && copied == old(copied) + cursor && data.Length == need + need / 2
    {
      if need <= data.Length {
        return;
      }
      var store := new Byte[Grown(need)](_ => 0x41);
      forall i | 0 <= i < cursor {
        store[i] := data[i];
      }
      assert store[..cursor] == data[..cursor];
      data := store;
      asked, copied := need, copied + cursor;
    }

    /** EmitBuffer, and with the little-endian bytes of a value Emit8 to Emit64: append, growing if needed.
        All growths together copy at most three times the final size. */
    method Emit(bytes: seq<Byte>)
      requires Valid() && Grown(cursor + |bytes|) < 0x1_0000_0000
      modifies this, data
      ensures Valid() && (data == old(data) || fresh(data))
      ensures Contents() == old(Contents()) + bytes
      ensures copied <= 3 * |Contents()|
    {
      if bytes == [] {
        return;
      }
      EnsureCapacity(cursor + |bytes|);
      GrowthPays(old(asked), old(copied), old(cursor), cursor + |bytes|, old(data.Length));
      ghost var before := data[..cursor];
      forall i | 0 <= i < |bytes| {
        data[cursor + i] := bytes[i];
      }
      cursor := cursor + |bytes|;
      assert data[..cursor] == before + bytes;
    }

    /** RewriteThumb1Inst, RewriteAddr and FixBindLabel: overwrite in place. */
    method Rewrite(p: nat, bytes: seq<Byte>)
      requires Valid() && p + |bytes| <= cursor
      modifies data
      ensures Valid() && Contents() == Overwrite(old(Contents()), p, bytes)
    {
      forall i | 0 <= i < |bytes| {
        data[p + i] := bytes[i];
      }
    }

    /** LoadThumb1Inst */
    method Load16(p: nat) returns (v: nat)
      requires Valid() && p + 2 <= cursor
      ensures v == ReadLe16(Contents(), p)
    {
      var lo: int, hi: int := data[p], data[p + 1];
      v := lo + hi * 0x100;
    }
  }

  /** A growth copies less than the size asked for, and asks for more than one and a half times as much as
      the growth before it. */
  lemma GrowthPays(asked: nat, copied: nat, cursor: nat, need: nat, capacity: nat)
    requires asked <= cursor < need && copied <= 3 * asked && (asked > 0 ==> capacity == Grown(asked))
    ensures need > capacity ==> copied + cursor <= 3 * need
  {
  }
}
