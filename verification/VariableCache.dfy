/** The key/value cache, its file format, and what saving and loading keep. */
module VariableCache {
  import opened Common

  datatype Entry = Entry(key: seq<Byte>, value: nat)

  /** A C string that fits the key field of an entry. */
  predicate Name(s: seq<Byte>) { |s| < 128 && 0 !in s }

  predicate WellFormed(es: seq<Entry>) {
    forall k :: 0 <= k < |es| ==> Name(es[k].key) && es[k].value < TWO64
  }

  predicate Unique(es: seq<Entry>) {
    forall i, k :: 0 <= i < k < |es| ==> es[i].key != es[k].key
  }

  // ----- the map a list stands for -----

  /** The first entry of a key counts. */
  function AsMap(es: seq<Entry>): map<seq<Byte>, nat> {
    if es == [] then map[] else AsMap(es[1..])[es[0].key := es[0].value]
  }

  predicate Has(es: seq<Entry>, name: seq<Byte>) {
    exists k :: 0 <= k < |es| && es[k].key == name
  }

  lemma {:induction false} MapAt(es: seq<Entry>, i: nat)
    requires i < |es| && forall k :: 0 <= k < i ==> es[k].key != es[i].key
    ensures es[i].key in AsMap(es) && AsMap(es)[es[i].key] == es[i].value
  {
    if i > 0 {
      MapAt(es[1..], i - 1);
    }
  }

  lemma {:induction false} MapHas(es: seq<Entry>, name: seq<Byte>)
    ensures name in AsMap(es) <==> Has(es, name)
    decreases |es|
  {
    if es != [] {
      MapHas(es[1..], name);
      if Has(es, name) && es[0].key != name {
        var k :| 0 <= k < |es| && es[k].key == name;
        assert es[1..][k - 1].key == name;
      }
      if Has(es[1..], name) {
        var k :| 0 <= k < |es[1..]| && es[1..][k].key == name;
        assert es[k + 1].key == name;
      }
    }
  }

  lemma {:induction false} MapSet(es: seq<Entry>, i: nat, value: nat)
    requires i < |es| && forall k :: 0 <= k < i ==> es[k].key != es[i].key
    ensures AsMap(es[i := es[i].(value := value)]) == AsMap(es)[es[i].key := value]
  {
    var changed := es[i := es[i].(value := value)];
    if i > 0 {
      MapSet(es[1..], i - 1, value);
      assert changed[1..] == es[1..][i - 1 := es[i].(value := value)];
    } else {
      assert changed[1..] == es[1..];
    }
  }

  // ----- the file format -----

  function LeBytes(v: nat, n: nat): (r: seq<Byte>)
    ensures |r| == n
  {
    if n == 0 then [] else [v % 0x100] + LeBytes(v / 0x100, n - 1)
  }

  function LeValue(s: seq<Byte>): nat {
    if s == [] then 0
    else
      var low: int := s[0];
      low + 0x100 * LeValue(s[1..])
  }

  function Bound(n: nat): nat { if n == 0 then 1 else 0x100 * Bound(n - 1) }

  lemma {:induction false} LeRoundTrip(v: nat, n: nat)
    requires v < Bound(n)
    ensures LeValue(LeBytes(v, n)) == v
  {
    if n > 0 {
      LeRoundTrip(v / 0x100, n - 1);
      assert LeBytes(v, n)[1..] == LeBytes(v / 0x100, n - 1);
    }
  }

  function Header(e: seq<Byte>): seq<Byte> { LeBytes(|e| + 1, 4) + LeBytes(8, 4) }

  function Record(e: Entry): seq<Byte> { Header(e.key) + (e.key + [0]) + LeBytes(e.value, 8) }

  function Serialized(es: seq<Entry>): seq<Byte> {
    if es == [] then [] else Record(es[0]) + Serialized(es[1..])
  }

  // ----- reading -----

  /** What read leaves in a buffer: at most `want` bytes, fewer at the end of the file, the rest as before. */
  function Read(file: seq<Byte>, want: nat, buffer: seq<Byte>): (r: seq<Byte>)
    requires want <= |buffer|
    ensures |r| == |buffer|
  {
    var n := if want <= |file| then want else |file|;
    file[..n] + buffer[n..]
  }

  function After(file: seq<Byte>, want: nat): seq<Byte> {
    if want <= |file| then file[want..] else []
  }

  function Zeros(n: nat): (r: seq<Byte>)
    ensures |r| == n && forall k :: 0 <= k < n ==> r[k] == 0
  {
    seq(n, _ => 0)
  }

  /** The C string in a buffer, if it ends there. */
  function CString(s: seq<Byte>): Option<seq<Byte>> {
    if s == [] then None
    else if s[0] == 0 then Some([])
    else
      var rest := CString(s[1..]);
      if rest.Some? then Some([s[0]] + rest.value) else None
  }

  /** One entry, given the header just read and the file behind it. The source has no defined behaviour
      where a length exceeds its buffer (a negative length does) or the key does not end. */
  function ReadEntry(block: seq<Byte>, file: seq<Byte>): Option<(Entry, seq<Byte>)>
    requires |block| == 8
  {
    var keyLength, valueLength := LeValue(block[..4]), LeValue(block[4..]);
    if keyLength > 128 || valueLength > 8 then None
    else
      var key := CString(Read(file, keyLength, Zeros(128)));
      var file1 := After(file, keyLength);
      var value := LeValue(Read(file1, valueLength, Zeros(8)));
      if key.Some? then Some((Entry(key.value, value), After(file1, valueLength))) else None
  }

  /** The whole loop. The header buffer lives across turns, so a cut-off header is completed by the last. */
  function Loaded(file: seq<Byte>, block: seq<Byte>, es: seq<Entry>): Option<seq<Entry>>
    requires |block| == 8
    decreases |file|
  {
    if file == [] then Some(es)
    else
      var header := Read(file, 8, block);
      var next := ReadEntry(header, After(file, 8));
      if next.None? then None
      else
        LoadShrinks(header, After(file, 8));
        Loaded(next.value.1, header, [next.value.0] + es)
  }

  lemma LoadShrinks(block: seq<Byte>, file: seq<Byte>)
    requires |block| == 8
    ensures ReadEntry(block, file).Some? ==> |ReadEntry(block, file).value.1| <= |file|
  {
  }

  // ----- the code -----

  class Cache {
    var root: seq<Entry>

    ghost predicate Valid()
      reads this
    {
      WellFormed(root)
    }

    constructor ()
      ensures Valid() && root == [] && AsMap(root) == map[]
    {
      root := [];
    }

    /** Position of the first entry with this key. */
    method GetEntry(name: seq<Byte>) returns (i: Option<nat>)
      ensures i.Some? <==> name in AsMap(root)
      ensures i.Some? ==> i.value < |root| && root[i.value].key == name && AsMap(root)[name] == root[i.value].value
      ensures i.Some? ==> forall k :: 0 <= k < i.value ==> root[k].key != name
    {
      MapHas(root, name);
      for k := 0 to |root|
        invariant forall j :: 0 <= j < k ==> root[j].key != name
      {
        if name == root[k].key {
          MapAt(root, k);
          return Some(k);
        }
      }
      i := None;
    }

    method Set(name: seq<Byte>, value: nat)
      requires Valid() && Name(name) && value < TWO64
      modifies this
      ensures Valid() && AsMap(root) == old(AsMap(root))[name := value]
      ensures old(Unique(root)) ==> Unique(root)
    {
      var i := GetEntry(name);
      MapHas(root, name);
      if i.Some? {
        MapSet(root, i.value, value);
        root := root[i.value := root[i.value].(value := value)];
        return;
      }
      root := [Entry(name, value)] + root;
    }

    method Get(name: seq<Byte>) returns (value: nat)
      ensures value == if name in AsMap(root) then AsMap(root)[name] else 0
    {
      var i := GetEntry(name);
      value := if i.Some? then root[i.value].value else 0;
    }

    method SerializedToFile() returns (file: seq<Byte>)
      ensures file == Serialized(root)
    {
      file := [];
      var entry := root;
      while entry != []
        invariant file + Serialized(entry) == Serialized(root)
        decreases |entry|
      {
        var e := entry[0];
        var header, key, value := Header(e.key), e.key + [0], LeBytes(e.value, 8);
        Appended(file, header, key, value, Serialized(entry[1..]));
        file := file + header;
        file := file + key;
        file := file + value;
        entry := entry[1..];
      }
    }

    /** False where the source's behaviour is undefined. */
    method UnserializedFromFile(file: seq<Byte>) returns (ok: bool)
      modifies this
      ensures ok <==> Loaded(file, Zeros(8), old(root)).Some?
      ensures ok ==> root == Loaded(file, Zeros(8), old(root)).value
    {
      var rest, block := file, Zeros(8);
      while rest != []
        invariant |block| == 8
        invariant Loaded(rest, block, root) == Loaded(file, Zeros(8), old(root))
        decreases |rest|
      {
        block := Read(rest, 8, block);
        rest := After(rest, 8);
        LoadShrinks(block, rest);
        var next := ReadEntry(block, rest);
        if next.None? { return false; }
        rest := next.value.1;
        root := [next.value.0] + root;
      }
      ok := true;
    }
  }

  // ----- round trip -----

  function Reversed(es: seq<Entry>): (r: seq<Entry>)
    ensures |r| == |es|
  {
    if es == [] then [] else Reversed(es[1..]) + [es[0]]
  }

  lemma {:induction false} CStringOf(key: seq<Byte>, tail: seq<Byte>)
    requires 0 !in key
    ensures CString(key + [0] + tail) == Some(key)
    decreases |key|
  {
    var s := key + [0] + tail;
    if key != [] {
      CStringOf(key[1..], tail);
      assert s[1..] == key[1..] + [0] + tail;
      assert key == [key[0]] + key[1..];
    }
  }

  lemma ReadAll(bytes: seq<Byte>, tail: seq<Byte>, buffer: seq<Byte>)
    requires |bytes| <= |buffer|
    ensures Read(bytes + tail, |bytes|, buffer) == bytes + buffer[|bytes|..] && After(bytes + tail, |bytes|) == tail
  {
  }

  lemma HeaderValues(key: seq<Byte>)
    requires |key| < 128
    ensures |Header(key)| == 8
    ensures LeValue(Header(key)[..4]) == |key| + 1 && LeValue(Header(key)[4..]) == 8
  {
    assert Bound(4) == 0x1_0000_0000;
    LeRoundTrip(|key| + 1, 4);
    LeRoundTrip(8, 4);
    assert Header(key)[..4] == LeBytes(|key| + 1, 4) && Header(key)[4..] == LeBytes(8, 4);
  }

  lemma EntryBack(e: Entry, tail: seq<Byte>)
    requires Name(e.key) && e.value < TWO64
    ensures |Header(e.key)| == 8
    ensures ReadEntry(Header(e.key), (e.key + [0]) + (LeBytes(e.value, 8) + tail)) == Some((e, tail))
  {
    HeaderValues(e.key);
    var value := LeBytes(e.value, 8);
    ReadAll(e.key + [0], value + tail, Zeros(128));
    CStringOf(e.key, Zeros(128)[|e.key| + 1..]);
    ReadAll(value, tail, Zeros(8));
    assert value + Zeros(8)[8..] == value;
    assert Bound(8) == TWO64;
    LeRoundTrip(e.value, 8);
  }

  lemma Appended(file: seq<Byte>, a: seq<Byte>, b: seq<Byte>, c: seq<Byte>, d: seq<Byte>)
    ensures file + ((a + b + c) + d) == file + a + b + c + d
  {
  }

  lemma Regroup(a: seq<Byte>, b: seq<Byte>, c: seq<Byte>, d: seq<Byte>)
    ensures (a + b + c) + d == a + (b + (c + d))
  {
  }

  /** The bytes of a saved entry: two 32-bit lengths, the key with its terminator, and the 64-bit value. */
  lemma RecordLayout(e: Entry)
    requires Name(e.key) && e.value < TWO64
    ensures var r, n := Record(e), |e.key|;
            && |r| == n + 17 && LeValue(r[..4]) == n + 1 && LeValue(r[4..8]) == 8
            && r[8..8 + n] == e.key && r[8 + n] == 0 && LeValue(r[9 + n..]) == e.value
  {
    HeaderValues(e.key);
    assert Bound(8) == TWO64;
    LeRoundTrip(e.value, 8);
    LayoutOf(Header(e.key), e.key, LeBytes(e.value, 8));
  }

  lemma LayoutOf(header: seq<Byte>, key: seq<Byte>, value: seq<Byte>)
    requires |header| == 8
    ensures var r, n := header + (key + [0]) + value, |key|;
            && r[..4] == header[..4] && r[4..8] == header[4..] && r[8..8 + n] == key && r[8 + n] == 0
            && r[9 + n..] == value
  {
  }

  lemma {:induction false} LoadTurn(header: seq<Byte>, body: seq<Byte>, block: seq<Byte>, e: Entry, rest: seq<Byte>, into: seq<Entry>)
    requires |block| == |header| == 8 && ReadEntry(header, body) == Some((e, rest))
    ensures Loaded(header + body, block, into) == Loaded(rest, header, [e] + into)
  {
    ReadAll(header, body, block);
    assert header + block[8..] == header;
  }

  /** One turn of the loop on a saved entry. */
  lemma {:induction false} LoadRecord(e: Entry, rest: seq<Byte>, block: seq<Byte>, into: seq<Entry>)
    requires Name(e.key) && e.value < TWO64 && |block| == 8
    ensures |Header(e.key)| == 8
    ensures Loaded(Record(e) + rest, block, into) == Loaded(rest, Header(e.key), [e] + into)
  {
    var header, key, value := Header(e.key), e.key + [0], LeBytes(e.value, 8);
    EntryBack(e, rest);
    Regroup(header, key, value, rest);
    LoadTurn(header, key + (value + rest), block, e, rest, into);
  }

  lemma ReversedPush(es: seq<Entry>, into: seq<Entry>)
    ensures es == [] ==> Reversed(es) + into == into
    ensures es != [] ==> Reversed(es) + into == Reversed(es[1..]) + ([es[0]] + into)
  {
  }

  lemma {:induction false} LoadAfterSave(es: seq<Entry>, block: seq<Byte>, into: seq<Entry>)
    requires WellFormed(es) && |block| == 8
    ensures Loaded(Serialized(es), block, into) == Some(Reversed(es) + into)
    decreases |es|
  {
    ReversedPush(es, into);
    if es != [] {
      LoadRecord(es[0], Serialized(es[1..]), block, into);
      var rest, header, next := es[1..], Header(es[0].key), [es[0]] + into;
      LoadAfterSave(rest, header, next);
    }
  }

  lemma {:induction false} MapAppend(es: seq<Entry>, more: seq<Entry>)
    ensures AsMap(es + more) == AsMap(more) + AsMap(es)
    decreases |es|
  {
    if es == [] {
      assert es + more == more;
    } else {
      MapAppend(es[1..], more);
      assert (es + more)[1..] == es[1..] + more;
    }
  }

  predicate First(es: seq<Entry>, i: nat) {
    i < |es| && forall k :: 0 <= k < i ==> es[k].key != es[i].key
  }

  predicate Last(es: seq<Entry>, i: nat) {
    i < |es| && forall k :: i < k < |es| ==> es[k].key != es[i].key
  }

  /** The first and the last entry of each key hold the same value; so do all lists without repeated keys. */
  predicate Settled(es: seq<Entry>) {
    forall i, k :: 0 <= i < |es| && 0 <= k < |es| && First(es, i) && Last(es, k) && es[i].key == es[k].key ==>
      es[i].value == es[k].value
  }

  lemma {:induction false} FirstOf(es: seq<Entry>, m: nat) returns (i: nat)
    requires m < |es|
    ensures First(es, i) && es[i].key == es[m].key
    decreases m
  {
    i := m;
    if k :| 0 <= k < m && es[k].key == es[m].key {
      i := FirstOf(es, k);
    }
  }

  lemma {:induction false} LastOf(es: seq<Entry>, m: nat) returns (i: nat)
    requires m < |es|
    ensures Last(es, i) && es[i].key == es[m].key
    decreases |es| - m
  {
    i := m;
    if k :| m < k < |es| && es[k].key == es[m].key {
      i := LastOf(es, k);
    }
  }

  lemma ReversedEach(es: seq<Entry>)
    ensures forall k :: 0 <= k < |es| ==> Reversed(es)[k] == es[|es| - 1 - k]
  {
    forall k | 0 <= k < |es|
      ensures Reversed(es)[k] == es[|es| - 1 - k]
    {
      ReversedAt(es, k);
    }
  }

  lemma ReversedHas(es: seq<Entry>, name: seq<Byte>)
    ensures name in AsMap(Reversed(es)) <==> name in AsMap(es)
  {
    ReversedEach(es);
    MapHas(es, name);
    MapHas(Reversed(es), name);
    if k :| 0 <= k < |es| && es[k].key == name {
      assert Reversed(es)[|es| - 1 - k].key == name;
    }
  }

  /** Once reversed, a list answers with the last entry of a key. */
  lemma LastCounts(es: seq<Entry>, k: nat)
    requires Last(es, k)
    ensures es[k].key in AsMap(Reversed(es)) && AsMap(Reversed(es))[es[k].key] == es[k].value
  {
    ReversedEach(es);
    MapAt(Reversed(es), |es| - 1 - k);
  }

  lemma SettledAt(es: seq<Entry>, name: seq<Byte>)
    requires Settled(es) && name in AsMap(es)
    ensures name in AsMap(Reversed(es)) && AsMap(Reversed(es))[name] == AsMap(es)[name]
  {
    MapHas(es, name);
    var m :| 0 <= m < |es| && es[m].key == name;
    var i := FirstOf(es, m);
    var k := LastOf(es, m);
    MapAt(es, i);
    LastCounts(es, k);
  }

  lemma MapReversed(es: seq<Entry>)
    ensures AsMap(Reversed(es)) == AsMap(es) <==> Settled(es)
  {
    forall name: seq<Byte>
      ensures name in AsMap(Reversed(es)) <==> name in AsMap(es)
      ensures Settled(es) && name in AsMap(es) ==> AsMap(Reversed(es))[name] == AsMap(es)[name]
    {
      ReversedHas(es, name);
      if Settled(es) && name in AsMap(es) {
        SettledAt(es, name);
      }
    }
    if AsMap(Reversed(es)) == AsMap(es) {
      forall i, k | 0 <= i < |es| && 0 <= k < |es| && First(es, i) && Last(es, k) && es[i].key == es[k].key
        ensures es[i].value == es[k].value
      {
        MapAt(es, i);
        LastCounts(es, k);
      }
    }
  }

  /** What loading a saved cache does to any other: the saved entries come first, in the opposite order. They
      win over those already there with the saved values exactly if no key was saved twice with its first and
      last values different. */
  lemma SaveLoad(saved: seq<Entry>, into: seq<Entry>)
    requires WellFormed(saved)
    ensures Loaded(Serialized(saved), Zeros(8), into) == Some(Reversed(saved) + into)
    ensures AsMap(Reversed(saved) + into) == AsMap(into) + AsMap(saved) <==> Settled(saved)
    ensures Unique(saved) ==> Settled(saved)
  {
    LoadAfterSave(saved, Zeros(8), into);
    MapAppend(Reversed(saved), into);
    MapReversed(saved);
    forall name: seq<Byte>
      ensures name in AsMap(Reversed(saved)) <==> name in AsMap(saved)
    {
      ReversedHas(saved, name);
    }
    SameOver(AsMap(into), AsMap(saved), AsMap(Reversed(saved)));
  }

  lemma SameOver(m: map<seq<Byte>, nat>, a: map<seq<Byte>, nat>, b: map<seq<Byte>, nat>)
    requires forall name: seq<Byte> :: name in a <==> name in b
    ensures m + b == m + a <==> b == a
  {
    if m + b == m + a {
      assert forall name :: name in a ==> (m + a)[name] == a[name] && (m + b)[name] == b[name];
    }
  }

  /** A cache that was loaded over holds a key twice; saved and loaded again, the other value comes back. */
  lemma {:induction false} StaleValue(key: seq<Byte>, old1: nat, new1: nat)
    requires Name(key) && old1 != new1 && old1 < TWO64 && new1 < TWO64
    ensures var es := [Entry(key, new1), Entry(key, old1)];
            && Loaded(Serialized([Entry(key, new1)]), Zeros(8), [Entry(key, old1)]) == Some(es)
            && AsMap(es) == map[key := new1]
            && Loaded(Serialized(es), Zeros(8), []) == Some([es[1], es[0]])
            && AsMap([es[1], es[0]]) == map[key := old1]
  {
    var a, b := Entry(key, new1), Entry(key, old1);
    TwoEntries(a, b);
    TwoEntries(b, a);
    LoadAfterSave([a], Zeros(8), [b]);
    LoadAfterSave([a, b], Zeros(8), []);
    assert [a] + [b] == [a, b];
  }

  lemma TwoEntries(a: Entry, b: Entry)
    requires a.key == b.key
    ensures Reversed([a]) == [a] && Reversed([a, b]) == [b, a] && Reversed([a, b]) + [] == [b, a]
    ensures AsMap([a, b]) == map[a.key := a.value]
  {
    assert [a, b][1..] == [b] && [a][1..] == [];
    assert AsMap([b]) == map[b.key := b.value];
  }

  // ----- runs -----

  datatype Store = Store(name: seq<Byte>, value: nat)

  function MapRun(m: map<seq<Byte>, nat>, run: seq<Store>): map<seq<Byte>, nat>
    decreases |run|
  {
    if run == [] then m else MapRun(m[run[0].name := run[0].value], run[1..])
  }

  /** Any run of sets on an empty cache, saved and loaded into an empty cache: every lookup is that of the map
      the run builds. */
  method SaveAndReload(run: seq<Store>) returns (ok: bool, cache: Cache)
    requires forall k :: 0 <= k < |run| ==> Name(run[k].name) && run[k].value < TWO64
    ensures ok && cache.Valid() && Unique(cache.root) && AsMap(cache.root) == MapRun(map[], run)
  {
    var first := new Cache();
    var i := 0;
    while i < |run|
      invariant i <= |run| && fresh(first) && first.Valid() && Unique(first.root)
      invariant MapRun(AsMap(first.root), run[i..]) == MapRun(map[], run)
    {
      assert run[i..][0] == run[i] && run[i..][1..] == run[i + 1..];
      first.Set(run[i].name, run[i].value);
      i := i + 1;
    }
    var file := first.SerializedToFile();
    cache := new Cache();
    SaveLoad(first.root, []);
    ReversedKeeps(first.root);
    assert Reversed(first.root) + [] == Reversed(first.root);
    assert map[] + AsMap(first.root) == AsMap(first.root);
    ok := cache.UnserializedFromFile(file);
  }

  lemma {:induction false} ReversedAt(es: seq<Entry>, k: nat)
    requires k < |es|
    ensures Reversed(es)[k] == es[|es| - 1 - k]
  {
    if k < |es| - 1 {
      ReversedAt(es[1..], k);
    }
  }

  lemma ReversedKeeps(es: seq<Entry>)
    requires WellFormed(es) && Unique(es)
    ensures WellFormed(Reversed(es)) && Unique(Reversed(es))
  {
    ReversedEach(es);
  }
}
