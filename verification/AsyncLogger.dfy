/** The shared log buffer: any number of threads print, and one or more flush, in any interleaving of the single
    steps of their critical sections. */
module AsyncLogger {
  import opened Common

  /** Where a thread is: outside, behind the lock, the copy or the cursor update of a print, or behind the lock,
      the write or the reset of a flush. */
  datatype Point =
    | Outside
    | Locked(str: seq<Byte>) | Copied(str: seq<Byte>) | Advanced
    | Flushing | Written | Emptied

  /** The mutex, the threads, the buffer with its cursor, the bytes handed to write, and the strings printed in
      the order in which their threads took the mutex. */
  datatype State = State(
    owner: Option<nat>, threads: seq<Point>, buffer: seq<Byte>, cursor: nat, out: seq<Byte>, log: seq<seq<Byte>>)

  datatype Action =
    | Print(t: nat, str: seq<Byte>) | Copy(t: nat) | Advance(t: nat)
    | Flush(t: nat) | Write(t: nat) | Empty(t: nat)
    | Unlock(t: nat)

  function Initial(threads: nat, capacity: nat): State {
    State(None, seq(threads, _ => Outside), seq(capacity, _ => 0), 0, [], [])
  }

  // ----- the steps -----

  /** A step that the code of the thread takes next. The mutex is taken only when it is free, and a copy needs
      room: without it the source writes behind the buffer. */
  predicate Enabled(s: State, a: Action) {
    && a.t < |s.threads|
    && match a
       case Print(t, _) => s.threads[t] == Outside && s.owner == None
       case Copy(t) => s.threads[t].Locked? && s.cursor + |s.threads[t].str| <= |s.buffer|
       case Advance(t) => s.threads[t].Copied?
       case Flush(t) => s.threads[t] == Outside && s.owner == None
       case Write(t) => s.threads[t] == Flushing && 0 < s.cursor <= |s.buffer|
       case Empty(t) => s.threads[t] == Written
       case Unlock(t) => s.threads[t] == Advanced || s.threads[t] == Emptied || (s.threads[t] == Flushing && s.cursor == 0)
  }

  function At(s: State, t: nat, p: Point): State
    requires t < |s.threads|
  {
    s.(threads := s.threads[t := p])
  }

  function Next(s: State, a: Action): State
    requires Enabled(s, a)
  {
    match a
    case Print(t, str) => At(s, t, Locked(str)).(owner := Some(t), log := s.log + [str])
    case Copy(t) =>
      var str := s.threads[t].str;
      At(s, t, Copied(str)).(buffer := s.buffer[..s.cursor] + str + s.buffer[s.cursor + |str|..])
    case Advance(t) => At(s, t, Advanced).(cursor := s.cursor + |s.threads[t].str|)
    case Flush(t) => At(s, t, Flushing).(owner := Some(t))
    case Write(t) => At(s, t, Written).(out := s.out + s.buffer[..s.cursor])
    case Empty(t) => At(s, t, Emptied).(cursor := 0)
    case Unlock(t) => At(s, t, Outside).(owner := None)
  }

  // ----- what every step keeps -----

  function Concat(log: seq<seq<Byte>>): seq<Byte> {
    if log == [] then [] else Concat(log[..|log| - 1]) + log[|log| - 1]
  }

  /** Only the owner of the mutex is inside a critical section. */
  ghost predicate Exclusive(s: State) {
    && (s.owner.Some? ==> s.owner.value < |s.threads|)
    && forall t :: 0 <= t < |s.threads| ==> (s.threads[t] != Outside <==> s.owner == Some(t))
  }

  function Current(s: State): Point {
    if s.owner.Some? && s.owner.value < |s.threads| then s.threads[s.owner.value] else Outside
  }

  /** Bytes written, then bytes in the buffer. */
  function Pending(s: State): seq<Byte>
    requires s.cursor <= |s.buffer|
  {
    s.out + s.buffer[..s.cursor]
  }

  /** The string being printed is the last of the log, and all before it are written or in the buffer. */
  ghost predicate Before(s: State, str: seq<Byte>)
    requires s.cursor <= |s.buffer|
  {
    s.log != [] && s.log[|s.log| - 1] == str && Pending(s) == Concat(s.log[..|s.log| - 1])
  }

  ghost predicate Data(s: State, p: Point) {
    && s.cursor <= |s.buffer|
    && match p
       case Locked(str) => Before(s, str)
       case Copied(str) =>
         && Before(s, str) && s.cursor + |str| <= |s.buffer|
         && s.buffer[s.cursor..s.cursor + |str|] == str
       case Written => s.out == Concat(s.log)
       case _ => Pending(s) == Concat(s.log)
  }

  ghost predicate Inv(s: State) { Exclusive(s) && Data(s, Current(s)) }

  lemma InitialInv(threads: nat, capacity: nat)
    ensures Inv(Initial(threads, capacity))
  {
    assert Pending(Initial(threads, capacity)) == [];
  }

  lemma NextExclusive(s: State, a: Action)
    requires Exclusive(s) && Enabled(s, a)
    ensures Exclusive(Next(s, a))
    ensures Current(Next(s, a)) == Next(s, a).threads[a.t]
    ensures !a.Print? && !a.Flush? ==> Current(s) == s.threads[a.t]
    ensures a.Print? || a.Flush? ==> Current(s) == Outside
  {
    assert s.owner == Some(a.t) <==> s.threads[a.t] != Outside;
  }

  lemma ConcatLast(log: seq<seq<Byte>>, str: seq<Byte>)
    ensures Concat(log + [str]) == Concat(log) + str
  {
    assert (log + [str])[..|log|] == log;
  }

  lemma CopyKeeps(s: State, t: nat)
    requires Enabled(s, Copy(t)) && Data(s, s.threads[t])
    ensures var s' := Next(s, Copy(t)); Data(s', s'.threads[t])
  {
    var s', str := Next(s, Copy(t)), s.threads[t].str;
    assert s'.buffer[..s.cursor] == s.buffer[..s.cursor];
    assert s'.buffer[s.cursor..s.cursor + |str|] == str;
  }

  lemma AdvanceKeeps(s: State, t: nat)
    requires Enabled(s, Advance(t)) && Data(s, s.threads[t])
    ensures Data(Next(s, Advance(t)), Advanced)
  {
    var str := s.threads[t].str;
    assert s.buffer[..s.cursor + |str|] == s.buffer[..s.cursor] + str;
    assert s.out + (s.buffer[..s.cursor] + str) == Pending(s) + str;
  }

  lemma NextKeeps(s: State, a: Action)
    requires Inv(s) && Enabled(s, a)
    ensures Inv(Next(s, a))
  {
    NextExclusive(s, a);
    match a
    case Print(t, str) => ConcatLast(s.log, str); assert (s.log + [str])[..|s.log|] == s.log;
    case Copy(t) => CopyKeeps(s, t);
    case Advance(t) => AdvanceKeeps(s, t);
    case Empty(t) => assert s.out + s.buffer[..0] == s.out;
    case _ =>
  }

  /** Nobody is ever stuck: while the mutex is free, every thread can start to print or to flush; and the thread
      that holds it has a next step, unless its string does not fit the rest of the buffer. */
  lemma NoDeadlock(s: State)
    requires Inv(s)
    ensures s.owner == None ==> forall t: nat, str: seq<Byte> :: t < |s.threads| ==> Enabled(s, Print(t, str))
    ensures s.owner == None ==> forall t: nat :: t < |s.threads| ==> Enabled(s, Flush(t))
    ensures s.owner.Some? ==>
              var t := s.owner.value;
              && t < |s.threads|
              && ((exists a: Action :: a.t == t && Enabled(s, a)) <==>
                  !(s.threads[t].Locked? && s.cursor + |s.threads[t].str| > |s.buffer|))
  {
    if s.owner == None {
      forall t: nat, str: seq<Byte> | t < |s.threads|
        ensures Enabled(s, Print(t, str))
      {
        assert s.threads[t] == Outside;
      }
      forall t: nat | t < |s.threads|
        ensures Enabled(s, Flush(t))
      {
        assert s.threads[t] == Outside;
      }
    } else {
      var t := s.owner.value;
      match s.threads[t]
      case Locked(str) =>
        if s.cursor + |str| <= |s.buffer| { assert Enabled(s, Copy(t)); }
      case Copied(_) => assert Enabled(s, Advance(t));
      case Advanced => assert Enabled(s, Unlock(t));
      case Flushing => assert if s.cursor == 0 then Enabled(s, Unlock(t)) else Enabled(s, Write(t));
      case Written => assert Enabled(s, Empty(t));
      case Emptied => assert Enabled(s, Unlock(t));
    }
  }

  /** A print that fits and is not interrupted appends its string to what is pending. */
  lemma PrintAppends(s: State, t: nat, str: seq<Byte>)
    requires Inv(s) && s.owner == None && t < |s.threads| && s.cursor + |str| <= |s.buffer|
    ensures var s1 := Next(s, Print(t, str));
            && Enabled(s1, Copy(t))
            && var s2 := Next(s1, Copy(t));
               && Enabled(s2, Advance(t))
               && var s3 := Next(s2, Advance(t));
                  && Enabled(s3, Unlock(t))
                  && var s4 := Next(s3, Unlock(t));
                     && s4.owner == None && s4.threads == s.threads && s4.out == s.out
                     && s4.cursor == s.cursor + |str|
                     && s4.buffer[..s4.cursor] == s.buffer[..s.cursor] + str
  {
    assert s.threads[t] == Outside;
    var buffer := s.buffer[..s.cursor] + str + s.buffer[s.cursor + |str|..];
    assert buffer[..s.cursor + |str|] == s.buffer[..s.cursor] + str;
    assert s.threads[t := Locked(str)][t := Copied(str)][t := Advanced][t := Outside] == s.threads;
  }

  /** A flush that is not interrupted hands out everything pending. */
  lemma FlushWrites(s: State, t: nat)
    requires Inv(s) && s.owner == None && t < |s.threads| && s.cursor > 0
    ensures var s1 := Next(s, Flush(t));
            && Enabled(s1, Write(t))
            && var s2 := Next(s1, Write(t));
               && Enabled(s2, Empty(t))
               && var s3 := Next(s2, Empty(t));
                  && Enabled(s3, Unlock(t))
                  && var s4 := Next(s3, Unlock(t));
                     && s4.owner == None && s4.threads == s.threads && s4.cursor == 0
                     && s4.out == s.out + s.buffer[..s.cursor]
  {
    assert s.threads[t] == Outside;
    assert s.threads[t := Flushing][t := Written][t := Emptied][t := Outside] == s.threads;
  }

  // ----- whole runs -----

  ghost predicate Runs(s: State, actions: seq<Action>)
    decreases |actions|
  {
    actions != [] ==> Enabled(s, actions[0]) && Runs(Next(s, actions[0]), actions[1..])
  }

  ghost function Execute(s: State, actions: seq<Action>): State
    requires Runs(s, actions)
    decreases |actions|
  {
    if actions == [] then s else Execute(Next(s, actions[0]), actions[1..])
  }

  lemma {:induction false} RunKeeps(s: State, actions: seq<Action>)
    requires Inv(s) && Runs(s, actions)
    ensures Inv(Execute(s, actions))
    decreases |actions|
  {
    if actions != [] {
      NextKeeps(s, actions[0]);
      RunKeeps(Next(s, actions[0]), actions[1..]);
    }
  }

  lemma PrefixOfBefore(s: State, str: seq<Byte>)
    requires s.cursor <= |s.buffer| && Before(s, str)
    ensures s.out <= Concat(s.log)
  {
    assert Concat(s.log) == s.out + (s.buffer[..s.cursor] + str);
  }

  /** The main theorem: in every interleaving at most one thread is in a critical section; at every moment the
      bytes handed to write are a prefix of the printed strings in lock order; and whenever the mutex is free,
      they and the live part of the buffer are exactly those strings. */
  lemma InterleavingsLog(threads: nat, capacity: nat, actions: seq<Action>)
    requires Runs(Initial(threads, capacity), actions)
    ensures var s := Execute(Initial(threads, capacity), actions);
            && (forall t, u :: 0 <= t < u < |s.threads| ==> s.threads[t] == Outside || s.threads[u] == Outside)
            && s.cursor <= |s.buffer| && s.out <= Concat(s.log)
            && (s.owner == None ==> Pending(s) == Concat(s.log))
  {
    InitialInv(threads, capacity);
    RunKeeps(Initial(threads, capacity), actions);
    var s := Execute(Initial(threads, capacity), actions);
    match Current(s)
    case Locked(str) => PrefixOfBefore(s, str);
    case Copied(str) => PrefixOfBefore(s, str);
    case Written =>
    case _ => assert s.out <= Pending(s);
  }
}
