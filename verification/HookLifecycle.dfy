/** Installing and destroying hooks over code memory, on targets where an address is not adjusted. */
module HookLifecycle {
  import opened Common
  import opened HookRing

  /** Code memory and the registered hooks, newest first. */
  datatype State = State(mem: seq<Byte>, hooks: seq<HookEntry>)

  /** A request to hook. `tramp` is the trampoline that will be written over the function; `window` is the
      number of bytes the relocator consumed, at least the trampoline's size; `relocated` is false when no
      executable memory was left for the relocated code. */
  datatype Request = Request(address: nat, target: nat, tramp: seq<Byte>, window: nat, relocated: bool)

  /** The targets differ in what a relocator does when it gets no memory. */
  datatype Target = Arm64 | X64

  datatype HookResult = Installed | Refused | Crashed

  datatype Op = Install(request: Request) | Destroy(address: nat)

  // ----- what the operations do -----

  predicate Fits(mem: seq<Byte>, a: nat, n: nat) { a + n <= |mem| }

  /** CodePatch as a write to a byte range. */
  function Patch(mem: seq<Byte>, a: nat, bytes: seq<Byte>): (m: seq<Byte>)
    requires Fits(mem, a, |bytes|)
    ensures |m| == |mem|
  {
    mem[..a] + bytes + mem[a + |bytes|..]
  }

  /** A second hook on an address is refused only when it leads to the same target as the newest one. */
  predicate Accepted(s: State, q: Request) {
    q.address != 0 &&
    var k := Find(s.hooks, q.address);
    k == |s.hooks| || s.hooks[k].target != q.target
  }

  /** Without memory the ARM64 relocator goes on with a null chunk; the x64 relocator returns. */
  predicate Crashes(target: Target, s: State, q: Request) { Accepted(s, q) && !q.relocated && target == Arm64 }

  /** The prologue is saved only if relocation succeeded; the trampoline is written in any case. */
  function Hooked(s: State, q: Request): State
    requires Fits(s.mem, q.address, q.window) && |q.tramp| <= q.window
  {
    var saved := if q.relocated then s.mem[q.address..q.address + q.window] else [];
    State(Patch(s.mem, q.address, q.tramp), [HookEntry(q.address, q.target, saved)] + s.hooks)
  }

  ghost predicate Inside(s: State) {
    forall i :: 0 <= i < |s.hooks| ==> Fits(s.mem, s.hooks[i].address, |s.hooks[i].saved|)
  }

  /** Restore the bytes of the newest hook on the address and forget that hook. */
  function Destroyed(s: State, a: nat): State
    requires Inside(s)
  {
    var k := Find(s.hooks, a);
    if k == |s.hooks| then s
    else State(Patch(s.mem, a, s.hooks[k].saved), Without(s.hooks, k))
  }

  lemma DestroyedInside(s: State, a: nat)
    requires Inside(s)
    ensures Inside(Destroyed(s, a))
  {
  }

  lemma HookedInside(s: State, q: Request)
    requires Inside(s) && Fits(s.mem, q.address, q.window) && |q.tramp| <= q.window
    ensures Inside(Hooked(s, q))
  {
  }

  // ----- the same, said of the bytes -----

  /** `bytes` stand at a, and every other byte is as before. */
  ghost predicate Written(before: seq<Byte>, after: seq<Byte>, a: nat, bytes: seq<Byte>) {
    && |after| == |before| && a + |bytes| <= |after| && after[a..a + |bytes|] == bytes
    && after[..a] == before[..a] && after[a + |bytes|..] == before[a + |bytes|..]
  }

  /** The k-th hook, counted from the newest, is the newest on this address. */
  ghost predicate Newest(hooks: seq<HookEntry>, k: nat, a: nat) {
    k < |hooks| && hooks[k].address == a && forall j :: 0 <= j < k ==> hooks[j].address != a
  }

  /** The newest hook on the address leads to this target. */
  ghost predicate SameNewest(hooks: seq<HookEntry>, a: nat, target: nat) {
    exists k: nat :: Newest(hooks, k, a) && hooks[k].target == target
  }

  lemma NewestIsFound(hooks: seq<HookEntry>, k: nat, a: nat)
    requires Newest(hooks, k, a)
    ensures Find(hooks, a) == k
  {
    FindIs(hooks, a, k);
  }

  lemma RefusedExactly(s: State, q: Request)
    ensures !Accepted(s, q) <==> q.address == 0 || SameNewest(s.hooks, q.address, q.target)
  {
    var k := Find(s.hooks, q.address);
    if k < |s.hooks| {
      assert Newest(s.hooks, k, q.address);
    }
    if SameNewest(s.hooks, q.address, q.target) {
      var j: nat :| Newest(s.hooks, j, q.address) && s.hooks[j].target == q.target;
      NewestIsFound(s.hooks, j, q.address);
    }
  }

  lemma PatchWrites(mem: seq<Byte>, a: nat, bytes: seq<Byte>)
    requires Fits(mem, a, |bytes|)
    ensures Written(mem, Patch(mem, a, bytes), a, bytes)
  {
  }

  lemma HookedWrites(s: State, q: Request)
    requires Fits(s.mem, q.address, q.window) && |q.tramp| <= q.window
    ensures Written(s.mem, Hooked(s, q).mem, q.address, q.tramp)
  {
    PatchWrites(s.mem, q.address, q.tramp);
  }

  /** What a hook request does to the bytes and to the list. */
  ghost predicate HookEffect(s: State, q: Request, result: HookResult, t: State)
    requires Fits(s.mem, q.address, q.window)
  {
    && (result == Refused <==> q.address == 0 || SameNewest(s.hooks, q.address, q.target))
    && (result == Installed ==>
          var saved := if q.relocated then s.mem[q.address..q.address + q.window] else [];
          Written(s.mem, t.mem, q.address, q.tramp) && t.hooks == [HookEntry(q.address, q.target, saved)] + s.hooks)
    && (result != Installed ==> t == s)
  }

  lemma HookExactly(target: Target, s: State, q: Request)
    requires Fits(s.mem, q.address, q.window) && |q.tramp| <= q.window
    ensures var result := if Crashes(target, s, q) then Crashed else if Accepted(s, q) then Installed else Refused;
            HookEffect(s, q, result, if result == Installed then Hooked(s, q) else s)
  {
    RefusedExactly(s, q);
    HookedWrites(s, q);
  }

  lemma DestroyedExactly(s: State, a: nat)
    requires Inside(s)
    ensures Find(s.hooks, a) < |s.hooks| <==> exists k :: 0 <= k < |s.hooks| && s.hooks[k].address == a
    ensures forall k :: 0 <= k < |s.hooks| && Newest(s.hooks, k, a) ==>
              && Written(s.mem, Destroyed(s, a).mem, a, s.hooks[k].saved)
              && Destroyed(s, a).hooks == s.hooks[..k] + s.hooks[k + 1..]
    ensures Find(s.hooks, a) == |s.hooks| ==> Destroyed(s, a) == s
  {
    forall k | 0 <= k < |s.hooks| && Newest(s.hooks, k, a)
      ensures Written(s.mem, Destroyed(s, a).mem, a, s.hooks[k].saved)
      ensures Destroyed(s, a).hooks == s.hooks[..k] + s.hooks[k + 1..]
    {
      NewestIsFound(s.hooks, k, a);
      PatchWrites(s.mem, a, s.hooks[k].saved);
    }
  }

  // ----- the objects -----

  class Dobby {
    const target: Target
    var code: seq<Byte>
    var interceptor: Interceptor

    ghost predicate Valid()
      reads this, interceptor, interceptor.head, interceptor.nodes
    {
      interceptor.Valid() && this !in interceptor.Repr() && Inside(View())
    }

    ghost function View(): State
      reads this, interceptor
    {
      State(code, interceptor.Entries())
    }

    constructor (target: Target, code: seq<Byte>)
      ensures Valid() && View() == State(code, []) && this.target == target
    {
      this.target := target;
      this.code := code;
      interceptor := new Interceptor();
    }

    /** The lookup at the start of DobbyHook. */
    method MayHook(q: Request) returns (ok: bool)
      requires Valid()
      ensures ok == Accepted(View(), q)
    {
      if q.address == 0 {
        return false;
      }
      var found, entry := interceptor.FindHookEntry(q.address);
      ok := !(found && entry.target == q.target);
    }

    /** Save the prologue if it was relocated, register the hook, write the trampoline. */
    method Install(q: Request)
      requires Valid() && Fits(code, q.address, q.window) && |q.tramp| <= q.window <= 64
      modifies this, interceptor.Repr()
      ensures Valid() && View() == Hooked(old(View()), q)
    {
      HookedInside(View(), q);
      var saved := [];
      if q.relocated {
        saved := code[q.address..q.address + q.window];
      }
      interceptor.AddHookEntry(HookEntry(q.address, q.target, saved));
      code := Patch(code, q.address, q.tramp);
      assert View() == Hooked(old(View()), q);
    }

    /** DobbyHook: look the address up, relocate, save the prologue, register the hook, write the trampoline. */
    method DobbyHook(q: Request) returns (result: HookResult)
      requires Valid() && Fits(code, q.address, q.window) && |q.tramp| <= q.window <= 64
      modifies this, interceptor.Repr()
      ensures Valid()
      ensures result == if Crashes(target, old(View()), q) then Crashed
                        else if Accepted(old(View()), q) then Installed else Refused
      ensures View() == if result == Installed then Hooked(old(View()), q) else old(View())
      ensures HookEffect(old(View()), q, result, View())
    {
      HookExactly(target, View(), q);
      var ok := MayHook(q);
      if !ok {
        return Refused;
      }
      if !q.relocated && target == Arm64 {
        return Crashed;
      }
      Install(q);
      result := Installed;
    }

    method DobbyDestroy(address: nat) returns (ok: bool)
      requires Valid()
      modifies this, interceptor.Repr()
      ensures Valid() && View() == Destroyed(old(View()), address)
      ensures ok == (Find(old(View()).hooks, address) < |old(View()).hooks|)
      ensures ok <==> exists k :: 0 <= k < |old(interceptor.Entries())| && old(interceptor.Entries())[k].address == address
      ensures forall k :: 0 <= k < |old(interceptor.Entries())| && Newest(old(interceptor.Entries()), k, address) ==>
                && Written(old(code), code, address, old(interceptor.Entries())[k].saved)
                && interceptor.Entries() == old(interceptor.Entries())[..k] + old(interceptor.Entries())[k + 1..]
      ensures !ok ==> code == old(code) && interceptor.Entries() == old(interceptor.Entries())
    {
      DestroyedExactly(View(), address);
      var found, entry := interceptor.FindHookEntry(address);
      DestroyedInside(View(), address);
      if found {
        code := Patch(code, address, entry.saved);
        interceptor.RemoveHookEntry(address);
        assert View() == Destroyed(old(View()), address);
      }
      ok := found;
    }
  }

  // ----- undoing everything -----

  predicate Disjoint(a: nat, m: nat, b: nat, n: nat) { a + m <= b || b + n <= a }

  /** Hooks on different addresses save disjoint windows. */
  ghost predicate Separate(hooks: seq<HookEntry>) {
    forall i, j :: 0 <= i < j < |hooks| && hooks[i].address != hooks[j].address ==>
      Disjoint(hooks[i].address, |hooks[i].saved|, hooks[j].address, |hooks[j].saved|)
  }

  /** Memory after restoring every hook, newest first. */
  function Undo(mem: seq<Byte>, hooks: seq<HookEntry>): (m: seq<Byte>)
    requires Inside(State(mem, hooks))
    ensures |m| == |mem|
    decreases |hooks|
  {
    if hooks == [] then mem
    else
      assert Inside(State(Patch(mem, hooks[0].address, hooks[0].saved), hooks[1..]));
      Undo(Patch(mem, hooks[0].address, hooks[0].saved), hooks[1..])
  }

  /** What every reachable state satisfies: undoing the live hooks gives back the original memory. */
  ghost predicate Inv(s: State, original: seq<Byte>) {
    Inside(s) && Separate(s.hooks) && Undo(s.mem, s.hooks) == original
  }

  lemma PatchCommutes(mem: seq<Byte>, a: nat, x: seq<Byte>, b: nat, y: seq<Byte>)
    requires Fits(mem, a, |x|) && Fits(mem, b, |y|) && Disjoint(a, |x|, b, |y|)
    ensures Patch(Patch(mem, a, x), b, y) == Patch(Patch(mem, b, y), a, x)
  {
    var l, r := Patch(Patch(mem, a, x), b, y), Patch(Patch(mem, b, y), a, x);
    forall i | 0 <= i < |mem|
      ensures l[i] == r[i]
    {
      PatchAt(mem, a, x, i);
      PatchAt(mem, b, y, i);
      PatchAt(Patch(mem, a, x), b, y, i);
      PatchAt(Patch(mem, b, y), a, x, i);
    }
  }

  lemma PatchAt(mem: seq<Byte>, a: nat, x: seq<Byte>, i: nat)
    requires Fits(mem, a, |x|) && i < |mem|
    ensures Patch(mem, a, x)[i] == if a <= i < a + |x| then x[i - a] else mem[i]
  {
  }

  lemma PatchBack(mem: seq<Byte>, a: nat, x: seq<Byte>, n: nat)
    requires Fits(mem, a, n) && |x| <= n
    ensures Patch(Patch(mem, a, x), a, mem[a..a + n]) == mem
  {
    var m := Patch(mem, a, x);
    assert m[..a] == mem[..a] && m[a + n..] == mem[a + n..];
  }

  /** Restoring a hook early is the same as restoring it in turn, if no newer hook is on its address. */
  lemma {:induction false} UndoEarly(mem: seq<Byte>, hooks: seq<HookEntry>, k: nat)
    requires Inside(State(mem, hooks)) && Separate(hooks) && k < |hooks|
    requires forall j :: 0 <= j < k ==> hooks[j].address != hooks[k].address
    ensures Inside(State(Patch(mem, hooks[k].address, hooks[k].saved), Without(hooks, k)))
    ensures Undo(Patch(mem, hooks[k].address, hooks[k].saved), Without(hooks, k)) == Undo(mem, hooks)
    decreases k
  {
    if k == 0 {
      assert Without(hooks, 0) == hooks[1..];
    } else {
      var h, e := hooks[0], hooks[k];
      var rest := hooks[1..];
      assert rest[k - 1] == e;
      UndoEarly(Patch(mem, h.address, h.saved), rest, k - 1);
      PatchCommutes(mem, h.address, h.saved, e.address, e.saved);
      assert Without(hooks, k)[0] == h && Without(hooks, k)[1..] == Without(rest, k - 1);
    }
  }

  /** Destroying keeps the invariant, in any order. */
  lemma DestroyKeeps(s: State, a: nat, original: seq<Byte>)
    requires Inv(s, original)
    ensures Inv(Destroyed(s, a), original)
  {
    var k := Find(s.hooks, a);
    if k < |s.hooks| {
      UndoEarly(s.mem, s.hooks, k);
    }
  }

  /** The request's window avoids the windows of hooks on other addresses. */
  ghost predicate Clear(s: State, q: Request) {
    && Fits(s.mem, q.address, q.window) && |q.tramp| <= q.window <= 64
    && forall i :: 0 <= i < |s.hooks| && s.hooks[i].address != q.address ==>
         Disjoint(q.address, q.window, s.hooks[i].address, |s.hooks[i].saved|)
  }

  lemma InstallKeeps(s: State, q: Request, original: seq<Byte>)
    requires Inv(s, original) && Clear(s, q) && q.relocated
    ensures Inv(Hooked(s, q), original)
  {
    var t := Hooked(s, q);
    assert t.hooks[1..] == s.hooks;
    PatchBack(s.mem, q.address, q.tramp, q.window);
  }

  // ----- whole runs -----

  /** Every hook request of the run is clear when it is made, and finds memory for its relocated code. */
  ghost predicate GoodRun(s: State, ops: seq<Op>)
    requires Inside(s)
    decreases |ops|
  {
    ops != [] ==>
      match ops[0]
      case Destroy(a) => Inside(Destroyed(s, a)) && GoodRun(Destroyed(s, a), ops[1..])
      case Install(q) =>
        && Clear(s, q) && q.relocated
        && (Accepted(s, q) ==> Inside(Hooked(s, q)) && GoodRun(Hooked(s, q), ops[1..]))
        && (!Accepted(s, q) ==> GoodRun(s, ops[1..]))
  }

  ghost function Execute(s: State, ops: seq<Op>): State
    requires Inside(s) && GoodRun(s, ops)
    decreases |ops|
  {
    if ops == [] then s
    else match ops[0]
      case Destroy(a) => Execute(Destroyed(s, a), ops[1..])
      case Install(q) => if Accepted(s, q) then Execute(Hooked(s, q), ops[1..]) else Execute(s, ops[1..])
  }

  lemma {:induction false} RunKeeps(s: State, ops: seq<Op>, original: seq<Byte>)
    requires Inv(s, original) && GoodRun(s, ops)
    ensures Inv(Execute(s, ops), original)
    decreases |ops|
  {
    if ops != [] {
      match ops[0]
      case Destroy(a) =>
        DestroyKeeps(s, a, original);
        RunKeeps(Destroyed(s, a), ops[1..], original);
      case Install(q) =>
        if Accepted(s, q) {
          InstallKeeps(s, q, original);
          RunKeeps(Hooked(s, q), ops[1..], original);
        } else {
          RunKeeps(s, ops[1..], original);
        }
    }
  }

  /** Undoing touches nothing outside the live windows. */
  lemma {:induction false} UndoOutside(mem: seq<Byte>, hooks: seq<HookEntry>, x: nat)
    requires Inside(State(mem, hooks)) && x < |mem|
    requires forall i :: 0 <= i < |hooks| ==> Disjoint(x, 1, hooks[i].address, |hooks[i].saved|)
    ensures Undo(mem, hooks)[x] == mem[x]
    decreases |hooks|
  {
    if hooks != [] {
      UndoOutside(Patch(mem, hooks[0].address, hooks[0].saved), hooks[1..], x);
    }
  }

  ghost predicate Oldest(hooks: seq<HookEntry>, k: nat) {
    k < |hooks| && forall j :: k < j < |hooks| ==> hooks[j].address != hooks[k].address
  }

  ghost predicate Outside(hooks: seq<HookEntry>, x: nat) {
    forall i :: 0 <= i < |hooks| ==> Disjoint(x, 1, hooks[i].address, |hooks[i].saved|)
  }

  /** The oldest hook on an address has saved the original bytes. */
  lemma {:induction false} OldestSaved(mem: seq<Byte>, hooks: seq<HookEntry>, k: nat)
    requires Inside(State(mem, hooks)) && Separate(hooks) && Oldest(hooks, k)
    ensures var e := hooks[k];
            Undo(mem, hooks)[e.address..e.address + |e.saved|] == e.saved
    decreases |hooks|
  {
    var m := Patch(mem, hooks[0].address, hooks[0].saved);
    if k > 0 {
      OldestSaved(m, hooks[1..], k - 1);
    } else {
      var e := hooks[0];
      forall x | e.address <= x < e.address + |e.saved|
        ensures Undo(m, hooks[1..])[x] == e.saved[x - e.address]
      {
        UndoOutside(m, hooks[1..], x);
      }
    }
  }

  /** The main theorem: over every run from unhooked code, memory differs from the original only inside
      live windows, the oldest hook on each address holds the original bytes, and once no hook is left
      memory is the original. */
  lemma RunRestores(original: seq<Byte>, ops: seq<Op>)
    requires GoodRun(State(original, []), ops)
    ensures var s := Execute(State(original, []), ops);
            && |s.mem| == |original| && Inside(s)
            && (s.hooks == [] ==> s.mem == original)
            && (forall x :: 0 <= x < |original| && Outside(s.hooks, x) ==> s.mem[x] == original[x])
            && (forall k: nat :: Oldest(s.hooks, k) ==>
                  var e := s.hooks[k]; e.saved == original[e.address..e.address + |e.saved|])
  {
    RunKeeps(State(original, []), ops, original);
    var s := Execute(State(original, []), ops);
    forall x | 0 <= x < |original| && Outside(s.hooks, x)
      ensures s.mem[x] == original[x]
    {
      UndoOutside(s.mem, s.hooks, x);
    }
    forall k: nat | Oldest(s.hooks, k)
      ensures var e := s.hooks[k]; e.saved == original[e.address..e.address + |e.saved|]
    {
      OldestSaved(s.mem, s.hooks, k);
    }
  }

  // ----- trampolines stay -----

  predicate Concerns(op: Op, a: nat) {
    match op
    case Install(q) => q.address == a
    case Destroy(b) => b == a
  }

  lemma {:induction false} RunSplits(s: State, before: seq<Op>, after: seq<Op>)
    requires Inside(s) && GoodRun(s, before + after)
    ensures GoodRun(s, before) && Inside(Execute(s, before)) && GoodRun(Execute(s, before), after)
    ensures Execute(s, before + after) == Execute(Execute(s, before), after)
    decreases |before|
  {
    if before == [] {
      assert before + after == after;
    } else {
      assert (before + after)[1..] == before[1..] + after;
      RunSplits(After(s, before[0]), before[1..], after);
    }
  }

  /** The state after one operation. */
  ghost function After(s: State, op: Op): State
    requires Inside(s) && (op.Install? ==> Clear(s, op.request))
  {
    match op
    case Destroy(a) => Destroyed(s, a)
    case Install(q) => if Accepted(s, q) then Hooked(s, q) else s
  }

  /** Some hook on a has a window of at least n bytes. */
  ghost predicate Guarded(s: State, a: nat, n: nat) {
    exists k :: 0 <= k < |s.hooks| && s.hooks[k].address == a && n <= |s.hooks[k].saved|
  }

  /** From s to t, the bytes at a have not changed, and a hook still guards them. */
  ghost predicate Kept(s: State, t: State, a: nat, n: nat) {
    && Separate(t.hooks) && Guarded(t, a, n) && |t.mem| == |s.mem|
    && a + n <= |s.mem| && t.mem[a..a + n] == s.mem[a..a + n]
  }

  lemma PatchElsewhere(mem: seq<Byte>, a: nat, bytes: seq<Byte>, b: nat, n: nat)
    requires Fits(mem, a, |bytes|) && Fits(mem, b, n) && Disjoint(a, |bytes|, b, n)
    ensures Patch(mem, a, bytes)[b..b + n] == mem[b..b + n]
  {
    forall i | b <= i < b + n
      ensures Patch(mem, a, bytes)[i] == mem[i]
    {
      PatchAt(mem, a, bytes, i);
    }
  }

  lemma StepElsewhere(s: State, op: Op, a: nat, n: nat)
    requires Inside(s) && Separate(s.hooks) && Guarded(s, a, n) && Fits(s.mem, a, n)
    requires !Concerns(op, a) && (op.Install? ==> Clear(s, op.request) && op.request.relocated)
    ensures Kept(s, After(s, op), a, n)
  {
    var k :| 0 <= k < |s.hooks| && s.hooks[k].address == a && n <= |s.hooks[k].saved|;
    match op
    case Destroy(b) => DestroyElsewhere(s, b, k, n);
    case Install(q) => InstallElsewhere(s, q, k, n);
  }

  lemma DestroyElsewhere(s: State, b: nat, k: nat, n: nat)
    requires Inside(s) && Separate(s.hooks) && k < |s.hooks| && n <= |s.hooks[k].saved| && b != s.hooks[k].address
    ensures Kept(s, Destroyed(s, b), s.hooks[k].address, n)
  {
    var a, f := s.hooks[k].address, Find(s.hooks, b);
    if f < |s.hooks| {
      var t := Destroyed(s, b);
      assert Disjoint(b, |s.hooks[f].saved|, a, |s.hooks[k].saved|);
      PatchElsewhere(s.mem, b, s.hooks[f].saved, a, n);
      assert t.hooks[if k < f then k else k - 1] == s.hooks[k];
    } else {
      assert s.hooks[k].address == a;
    }
  }

  lemma InstallElsewhere(s: State, q: Request, k: nat, n: nat)
    requires Inside(s) && Separate(s.hooks) && k < |s.hooks| && n <= |s.hooks[k].saved|
    requires Clear(s, q) && q.relocated && q.address != s.hooks[k].address
    ensures Kept(s, if Accepted(s, q) then Hooked(s, q) else s, s.hooks[k].address, n)
  {
    var a := s.hooks[k].address;
    if Accepted(s, q) {
      PatchElsewhere(s.mem, q.address, q.tramp, a, n);
      assert Hooked(s, q).hooks[k + 1] == s.hooks[k];
    } else {
      assert s.hooks[k].address == a;
    }
  }

  lemma {:induction false} TrampolineStays(s: State, ops: seq<Op>, a: nat, n: nat)
    requires Inside(s) && Separate(s.hooks) && GoodRun(s, ops) && Guarded(s, a, n) && Fits(s.mem, a, n)
    requires forall i :: 0 <= i < |ops| ==> !Concerns(ops[i], a)
    ensures var t := Execute(s, ops); a + n <= |t.mem| && t.mem[a..a + n] == s.mem[a..a + n]
    decreases |ops|
  {
    if ops != [] {
      StepElsewhere(s, ops[0], a, n);
      TrampolineStays(After(s, ops[0]), ops[1..], a, n);
    }
  }

  /** Interception over whole runs: if a hook was accepted and no later operation of the run is on its address,
      its trampoline still stands at that address. */
  lemma RunIntercepts(original: seq<Byte>, before: seq<Op>, q: Request, after: seq<Op>)
    requires GoodRun(State(original, []), before + ([Install(q)] + after))
    requires GoodRun(State(original, []), before) && Inside(Execute(State(original, []), before))
    requires var hooks := Execute(State(original, []), before).hooks;
             q.address != 0 && !SameNewest(hooks, q.address, q.target)
    requires forall i :: 0 <= i < |after| ==> !Concerns(after[i], q.address)
    ensures var s := Execute(State(original, []), before + ([Install(q)] + after));
            q.address + |q.tramp| <= |s.mem| && s.mem[q.address..q.address + |q.tramp|] == q.tramp
  {
    var start := State(original, []);
    RunSplits(start, before, [Install(q)] + after);
    RunKeeps(start, before, original);
    var s := Execute(start, before);
    RefusedExactly(s, q);
    InstallFirst(s, q, after);
    InstallStays(s, original, q, after);
  }

  lemma InstallFirst(s: State, q: Request, after: seq<Op>)
    requires Inside(s) && GoodRun(s, [Install(q)] + after) && Accepted(s, q)
    ensures Clear(s, q) && q.relocated && Inside(Hooked(s, q)) && GoodRun(Hooked(s, q), after)
    ensures Execute(s, [Install(q)] + after) == Execute(Hooked(s, q), after)
  {
    assert ([Install(q)] + after)[1..] == after;
  }

  lemma InstallStays(s: State, original: seq<Byte>, q: Request, after: seq<Op>)
    requires Inv(s, original) && Clear(s, q) && q.relocated && Inside(Hooked(s, q)) && GoodRun(Hooked(s, q), after)
    requires forall i :: 0 <= i < |after| ==> !Concerns(after[i], q.address)
    ensures var t := Execute(Hooked(s, q), after);
            q.address + |q.tramp| <= |t.mem| && t.mem[q.address..q.address + |q.tramp|] == q.tramp
  {
    InstallKeeps(s, q, original);
    HookedWrites(s, q);
    assert Hooked(s, q).hooks[0].address == q.address;
    TrampolineStays(Hooked(s, q), after, q.address, |q.tramp|);
  }

  /** What becomes of an accepted hook without memory for its relocated code. On ARM64 the process crashes. On
      x64 the hook is installed all the same, and destroying it restores the code exactly if relocation
      succeeded or the trampoline happened to be there already. */
  lemma FailedRelocation(target: Target, s: State, q: Request)
    requires Inside(s) && Fits(s.mem, q.address, q.window) && |q.tramp| <= q.window && Accepted(s, q)
    ensures Crashes(target, s, q) <==> target == Arm64 && !q.relocated
    ensures Inside(Hooked(s, q))
    ensures !Crashes(target, s, q) ==>
              (Destroyed(Hooked(s, q), q.address).mem == s.mem <==>
               q.relocated || s.mem[q.address..q.address + |q.tramp|] == q.tramp)
  {
    HookedInside(s, q);
    DestroyNewest(s, q);
    WriteAndBack(s.mem, q.address, q.tramp, q.window, q.relocated);
  }

  /** Writing x and then what was saved gives back the memory exactly if it was saved or x was there. */
  lemma WriteAndBack(mem: seq<Byte>, a: nat, x: seq<Byte>, n: nat, saves: bool)
    requires Fits(mem, a, n) && |x| <= n
    ensures Patch(Patch(mem, a, x), a, if saves then mem[a..a + n] else []) == mem <==> saves || mem[a..a + |x|] == x
  {
    if saves {
      PatchBack(mem, a, x, n);
    } else {
      PatchNothing(Patch(mem, a, x), a);
      PatchSame(mem, a, x);
    }
  }

  /** Destroying right after hooking writes the saved bytes over the trampoline. */
  lemma DestroyNewest(s: State, q: Request)
    requires Fits(s.mem, q.address, q.window) && |q.tramp| <= q.window && Inside(Hooked(s, q))
    ensures var saved := if q.relocated then s.mem[q.address..q.address + q.window] else [];
            Destroyed(Hooked(s, q), q.address).mem == Patch(Patch(s.mem, q.address, q.tramp), q.address, saved)
  {
    assert Find(Hooked(s, q).hooks, q.address) == 0;
  }

  lemma PatchNothing(mem: seq<Byte>, a: nat)
    requires a <= |mem|
    ensures Patch(mem, a, []) == mem
  {
  }

  lemma PatchSame(mem: seq<Byte>, a: nat, x: seq<Byte>)
    requires Fits(mem, a, |x|)
    ensures Patch(mem, a, x) == mem <==> mem[a..a + |x|] == x
  {
    assert Patch(mem, a, x)[a..a + |x|] == x;
    assert mem == mem[..a] + mem[a..a + |x|] + mem[a + |x|..];
  }
}
