/** The monitor's breakpoints: a pool of nodes on a used list and a free list, and the program
    bytes they patch. */
module Breakpoints {
  import opened MachineInts
  import opened NodeLists

  const NR_BP: nat := 32
  const NULL: int := -1
  const INT3_CODE: u8 := 0xf1

  /** A node of the pool; next is an index into it or NULL.  A watchpoint keeps an expression
      and its value where a breakpoint keeps an address. */
  datatype BP = BP(oriByte: u8, enable: bool, inUse: bool, NO: nat, isWatch: bool, addr: u32, oldVal: u32, next: int)

  // ----- lists through the pool -----

  /** From p, the next links of the pool run through the nodes s and end. */
  predicate Chain(pool: seq<BP>, p: int, s: seq<nat>)
    decreases |s|
  {
    if s == [] then p == NULL else p == s[0] && s[0] < |pool| && Chain(pool, pool[s[0]].next, s[1..])
  }

  /** Used and free nodes are disjoint, together the whole pool, and told apart by inUse. */
  predicate Partition(pool: seq<BP>, used: seq<nat>, free: seq<nat>)
  {
    && NoDuplicates(used) && NoDuplicates(free)
    && forall k :: 0 <= k < |pool| ==> pool[k].NO == k && (pool[k].inUse <==> k in used) && (k in used) != (k in free)
  }

  lemma {:induction false} ChainFrame(pool: seq<BP>, pool': seq<BP>, p: int, s: seq<nat>)
    requires Chain(pool, p, s) && |pool'| == |pool|
    requires forall k :: 0 <= k < |pool| && k in s ==> pool'[k].next == pool[k].next
    ensures Chain(pool', p, s)
    decreases |s|
  {
    if s != [] {
      assert s[0] in s;
      ChainFrame(pool, pool', pool[s[0]].next, s[1..]);
    }
  }

  lemma {:induction false} ChainElements(pool: seq<BP>, p: int, s: seq<nat>)
    requires Chain(pool, p, s)
    ensures forall k :: k in s ==> k < |pool|
    decreases |s|
  {
    if s != [] {
      assert forall k :: k in s <==> k == s[0] || k in s[1..];
      ChainElements(pool, pool[s[0]].next, s[1..]);
    }
  }

  /** Linking a node in front of a list. */
  lemma ChainPush(pool: seq<BP>, pool': seq<BP>, front: int, p: nat, s: seq<nat>)
    requires Chain(pool, front, s) && p < |pool| == |pool'| && p !in s && pool'[p].next == front
    requires forall k :: 0 <= k < |pool| && k != p ==> pool'[k].next == pool[k].next
    ensures Chain(pool', p, [p] + s)
  {
    ChainFrame(pool, pool', front, s);
    assert ([p] + s)[1..] == s;
  }

  /** Taking the first free node over to the used list. */
  lemma PartitionTake(pool: seq<BP>, pool': seq<BP>, used: seq<nat>, free: seq<nat>, p: nat)
    requires Partition(pool, used, free) && free != [] && p == free[0] && p < |pool| == |pool'|
    requires forall k :: 0 <= k < |pool| ==> pool'[k].NO == pool[k].NO && (pool'[k].inUse <==> pool[k].inUse || k == p)
    ensures Partition(pool', [p] + used, free[1..])
  {
    assert p in free;
    PushIsDistinct(p, used);
  }

  /** Giving a used node back to the free list. */
  lemma PartitionGive(pool: seq<BP>, pool': seq<BP>, used: seq<nat>, used': seq<nat>, free: seq<nat>, p: nat)
    requires Partition(pool, used, free) && p in used && p < |pool| == |pool'|
    requires NoDuplicates(used') && forall k :: k in used' <==> k in used && k != p
    requires forall k :: 0 <= k < |pool| ==> pool'[k].NO == pool[k].NO && (pool'[k].inUse <==> pool[k].inUse && k != p)
    ensures Partition(pool', used', [p] + free)
  {
    PushIsDistinct(p, free);
  }

  /** Redirecting the link before node i unlinks it. */
  lemma {:induction false} ChainUnlink(pool: seq<BP>, pool': seq<BP>, p: int, s: seq<nat>, i: nat)
    requires Chain(pool, p, s) && NoDuplicates(s) && 0 < i < |s| && |pool'| == |pool|
    requires s[i - 1] < |pool| && s[i] < |pool| && pool'[s[i - 1]].next == pool[s[i]].next
    requires forall k :: 0 <= k < |pool| && k != s[i - 1] ==> pool'[k].next == pool[k].next
    ensures Chain(pool', p, Without(s, i))
    decreases i
  {
    var t := s[1..];
    assert Without(s, i) == [s[0]] + Without(t, i - 1);
    assert Without(s, i)[1..] == Without(t, i - 1);
    if i == 1 {
      assert Without(t, 0) == t[1..];
      assert s[0] !in t[1..];
      ChainFrame(pool, pool', pool[s[1]].next, t[1..]);
    } else {
      assert t[i - 2] == s[i - 1] && t[i - 1] == s[i] && t[i - 2] in t;
      ChainUnlink(pool, pool', pool[s[0]].next, t, i - 1);
    }
  }

  // ----- program bytes -----

  predicate IsBreak(pool: seq<BP>, k: nat) { k < |pool| && !pool[k].isWatch }

  /** Some breakpoint on the list sits at address a. */
  predicate BreakAt(pool: seq<BP>, used: seq<nat>, a: nat)
  {
    exists k :: k in used && IsBreak(pool, k) && pool[k].addr == a
  }

  /** Breakpoint addresses are distinct and in memory, and each node has saved the program's
      own byte. */
  predicate SavedBytes(pool: seq<BP>, used: seq<nat>, program: seq<u8>)
  {
    && (forall k :: k in used && IsBreak(pool, k) ==>
          pool[k].addr < |program| && pool[k].oriByte == program[pool[k].addr])
    && (forall k, l :: k in used && l in used && k != l && IsBreak(pool, k) && IsBreak(pool, l) ==>
          pool[k].addr != pool[l].addr)
  }

  /** Only breakpoint addresses may differ from the program, and only by holding INT3. */
  predicate Restorable(pool: seq<BP>, used: seq<nat>, mem: seq<u8>, program: seq<u8>)
  {
    && |mem| == |program| && SavedBytes(pool, used, program)
    && forall a :: 0 <= a < |mem| ==>
         mem[a] == program[a] || (mem[a] == INT3_CODE && BreakAt(pool, used, a))
  }

  /** The program with INT3 at exactly the breakpoint addresses. */
  predicate Patched(pool: seq<BP>, used: seq<nat>, mem: seq<u8>, program: seq<u8>)
  {
    && Restorable(pool, used, mem, program)
    && forall a :: 0 <= a < |mem| && BreakAt(pool, used, a) ==> mem[a] == INT3_CODE
  }

  /** Memory after the saved bytes of the list are written back from its end to its front. */
  function Restored(pool: seq<BP>, s: seq<nat>, mem: seq<u8>): (m: seq<u8>)
    ensures |m| == |mem|
  {
    if s == [] then mem
    else
      var m := Restored(pool, s[1..], mem);
      if IsBreak(pool, s[0]) && pool[s[0]].addr < |mem| then m[pool[s[0]].addr := pool[s[0]].oriByte] else m
  }

  lemma {:induction false} RestoredAt(pool: seq<BP>, s: seq<nat>, mem: seq<u8>, program: seq<u8>, a: nat)
    requires |mem| == |program| && a < |mem| && SavedBytes(pool, s, program)
    ensures Restored(pool, s, mem)[a] == if BreakAt(pool, s, a) then program[a] else mem[a]
    decreases |s|
  {
    if s != [] {
      assert forall k :: k in s <==> k == s[0] || k in s[1..];
      RestoredAt(pool, s[1..], mem, program, a);
    }
  }

  /** Writing all saved bytes back gives the program. */
  lemma RestoredIsProgram(pool: seq<BP>, used: seq<nat>, mem: seq<u8>, program: seq<u8>)
    requires Restorable(pool, used, mem, program)
    ensures Restored(pool, used, mem) == program
  {
    forall a | 0 <= a < |mem|
      ensures Restored(pool, used, mem)[a] == program[a]
    {
      RestoredAt(pool, used, mem, program, a);
    }
  }

  class Monitor {
    const bpList: array<BP>
    const mem: array<u8>
    var head: int
    var free: int
    ghost var used: seq<nat>
    ghost var unused: seq<nat>
    /** The program bytes without any breakpoint. */
    ghost const program: seq<u8>

    ghost predicate Valid()
      reads this, bpList
    {
      && bpList.Length == NR_BP && mem.Length <= 0x1_0000_0000
      && Chain(bpList[..], head, used) && Chain(bpList[..], free, unused)
      && Partition(bpList[..], used, unused)
      && forall k :: k in used && IsBreak(bpList[..], k) ==> bpList[k].addr < mem.Length
    }

    ghost predicate IsRestorable()
      reads this, bpList, mem
    {
      Restorable(bpList[..], used, mem[..], program)
    }

    ghost predicate IsPatched()
      reads this, bpList, mem
    {
      Patched(bpList[..], used, mem[..], program)
    }

    method InitBpList()
      requires bpList.Length == NR_BP && mem.Length <= 0x1_0000_0000
      modifies this, bpList
      ensures Valid() && used == [] && mem[..] == old(mem[..])
      ensures mem[..] == program ==> IsPatched()
    {
      for i := 0 to NR_BP
        invariant forall k :: 0 <= k < i ==> bpList[k].NO == k && !bpList[k].inUse && bpList[k].next == k + 1
      {
        bpList[i] := bpList[i].(NO := i, inUse := false, next := i + 1);
      }
      bpList[NR_BP - 1] := bpList[NR_BP - 1].(next := NULL);
      head := NULL;
      free := 0;
      used := [];
      unused := WholePool(bpList[..], 0);
      if mem[..] == program {
        CleanIsPatched(bpList[..], mem[..]);
      }
    }

    /** Takes the first free node; it is on no list until its caller links it. */
    method NewBP() returns (p: nat)
      requires Valid() && unused != []
      modifies this`free, this`unused, bpList
      ensures p == old(unused)[0] && unused == old(unused)[1..] && p !in used && p !in unused
      ensures p < NR_BP && bpList[..] == old(bpList[..])[p := old(bpList[..])[p].(inUse := true)]
      ensures Chain(bpList[..], free, unused) && Chain(bpList[..], head, used)
    {
      ghost var pool := bpList[..];
      assert unused[0] in unused;
      p := free;
      free := bpList[free].next;
      unused := unused[1..];
      bpList[p] := bpList[p].(inUse := true);
      ChainFrame(pool, bpList[..], free, unused);
      ChainFrame(pool, bpList[..], head, used);
    }

    method SetBreakpoint(addr: u32) returns (NO: nat)
      requires Valid() && unused != [] && addr < mem.Length
      modifies this, bpList, mem
      ensures Valid() && NO == old(unused)[0] && used == [NO] + old(used) && unused == old(unused)[1..]
      ensures mem[..] == old(mem[..])[addr := INT3_CODE]
      ensures NO < NR_BP && bpList[..] == old(bpList[..])[NO := bpList[NO]]
      ensures bpList[NO].enable && !bpList[NO].isWatch && bpList[NO].addr == addr && bpList[NO].oriByte == old(mem[addr])
      ensures old(IsRestorable() && !BreakAt(bpList[..], used, addr)) ==> IsRestorable()
      ensures old(IsPatched() && !BreakAt(bpList[..], used, addr)) ==> IsPatched()
    {
      hide Restorable, BreakAt, Chain, NoDuplicates;
      ghost var pool0 := bpList[..];
      var p := NewBP();
      ghost var pool := bpList[..];
      bpList[p] := bpList[p].(isWatch := false, addr := addr);
      bpList[p] := bpList[p].(oriByte := mem[addr]);
      mem[addr] := INT3_CODE;
      bpList[p] := bpList[p].(enable := true);
      bpList[p] := bpList[p].(next := head);
      ChainFrame(pool, bpList[..], free, unused);
      ChainPush(pool, bpList[..], head, p, used);
      PartitionTake(pool0, bpList[..], used, old(unused), p);
      head := p;
      used := [p] + used;
      NO := bpList[p].NO;
      if old(IsRestorable() && !BreakAt(bpList[..], used, addr)) {
        SetKeepsRestorable(pool0, bpList[..], old(used), old(mem[..]), program, p);
      }
    }

    /** A watchpoint takes a node but leaves the program alone. */
    method SetWatchpoint(success: bool, val: u32) returns (NO: int)
      requires Valid() && unused != []
      modifies this, bpList
      ensures Valid() && mem[..] == old(mem[..])
      ensures !success ==> NO == -1 && used == old(used) && unused == old(unused) && bpList[..] == old(bpList[..])
      ensures success ==> NO == old(unused)[0] && used == [NO] + old(used) && unused == old(unused)[1..]
      ensures success ==> bpList[NO].enable && bpList[NO].isWatch && bpList[NO].oldVal == val
      ensures success ==> bpList[..] == old(bpList[..])[NO := bpList[NO]]
      ensures old(IsRestorable()) ==> IsRestorable()
      ensures old(IsPatched()) ==> IsPatched()
    {
      hide Restorable, BreakAt, Chain, NoDuplicates;
      if !success {
        return -1;
      }
      ghost var pool0 := bpList[..];
      var p := NewBP();
      ghost var pool := bpList[..];
      bpList[p] := bpList[p].(isWatch := true);
      bpList[p] := bpList[p].(oldVal := val);
      bpList[p] := bpList[p].(enable := true);
      bpList[p] := bpList[p].(next := head);
      ChainFrame(pool, bpList[..], free, unused);
      ChainPush(pool, bpList[..], head, p, used);
      PartitionTake(pool0, bpList[..], used, old(unused), p);
      head := p;
      used := [p] + used;
      NO := bpList[p].NO;
      if old(IsRestorable()) {
        WatchKeepsRestorable(pool0, bpList[..], old(used), mem[..], program, p);
      }
    }

    method FreeBP(p: nat)
      requires bpList.Length == NR_BP && p < NR_BP && bpList[p].inUse
      requires !bpList[p].isWatch ==> bpList[p].addr < mem.Length
      requires Chain(bpList[..], free, unused) && p !in unused
      modifies this`free, this`unused, bpList, mem
      ensures free == p && unused == [p] + old(unused) && Chain(bpList[..], free, unused)
      ensures bpList[..] == old(bpList[..])[p := old(bpList[..])[p].(inUse := false, next := old(free))]
      ensures mem[..] == Undone(old(bpList[..]), p, old(mem[..]))
      ensures mem[..] == if old(bpList[p]).isWatch then old(mem[..])
                         else old(mem[..])[old(bpList[p]).addr := old(bpList[p]).oriByte]
    {
      ghost var pool := bpList[..];
      if bpList[p].isWatch {
        // the expression string is freed
      } else {
        mem[bpList[p].addr] := bpList[p].oriByte;
      }
      bpList[p] := bpList[p].(inUse := false);
      bpList[p] := bpList[p].(next := free);
      ChainPush(pool, bpList[..], free, p, unused);
      free := p;
      unused := [p] + unused;
    }

    /** The search through the used list: the node with this number and the one before it. */
    method Search(NO: int) returns (p: int, prev: int, ghost i: nat)
      requires Valid()
      ensures p == NULL <==> NO !in used
      ensures p != NULL ==> p == NO && p < NR_BP && i < |used| && used[i] == p
      ensures p != NULL ==> prev == (if i == 0 then NULL else used[i - 1]) && prev < NR_BP
    {
      p, prev, i := head, NULL, 0;
      while p != NULL
        invariant i <= |used| && Chain(bpList[..], p, used[i..])
        invariant prev == (if i == 0 then NULL else used[i - 1]) && prev < NR_BP
        invariant NO !in used[..i]
        decreases |used| - i
      {
        assert p == used[i..][0] == used[i];
        assert bpList[..][p].NO == p;
        if bpList[p].NO == NO {
          return;
        }
        assert used[..i + 1] == used[..i] + [used[i]];
        assert used[i..][1..] == used[i + 1..];
        prev, p := p, bpList[p].next;
        i := i + 1;
      }
      assert used[i..] == [] && used[..i] == used;
    }

    /** Deleting by number unlinks that node, gives it back and writes its byte back. */
    method DeleteBreakpoint(NO: int) returns (found: bool)
      requires Valid()
      modifies this, bpList, mem
      ensures Valid() && (found <==> NO in old(used))
      ensures !found ==> used == old(used) && unused == old(unused) && mem[..] == old(mem[..]) && bpList[..] == old(bpList[..])
      ensures found ==>
                && unused == [NO] + old(unused)
                && (exists i: nat :: i < |old(used)| && old(used)[i] == NO && used == Without(old(used), i))
                && mem[..] == Undone(old(bpList[..]), NO, old(mem[..]))
                && mem[..] == if old(bpList[NO]).isWatch then old(mem[..])
                              else old(mem[..])[old(bpList[NO]).addr := old(bpList[NO]).oriByte]
      ensures old(IsRestorable()) ==> IsRestorable()
      ensures old(IsPatched()) ==> IsPatched()
    {
      hide Restorable, BreakAt, Without, Undone, Chain, NoDuplicates;
      var p, prev;
      ghost var i;
      p, prev, i := Search(NO);
      if p == NULL {
        return false;
      }
      ghost var pool := bpList[..];
      WithoutIsDistinct(used, i);
      Unlink(p, prev, i);
      ghost var pool' := bpList[..];
      assert Undone(pool', p, mem[..]) == Undone(pool, p, mem[..]) by { SameUndone(pool, pool', p, mem[..]); }
      FreeBP(p);
      used := Without(used, i);
      ChainFrame(pool', bpList[..], head, used);
      PartitionGive(pool, bpList[..], old(used), used, old(unused), p);
      if old(IsRestorable()) {
        DeleteKeepsRestorable(pool, bpList[..], old(used), used, old(mem[..]), program, p);
      }
      found := true;
    }

    /** Takes node i off the used list. */
    method Unlink(p: nat, prev: int, ghost i: nat)
      requires Valid() && i < |used| && used[i] == p < NR_BP
      requires prev == (if i == 0 then NULL else used[i - 1]) && prev < NR_BP
      modifies this`head, bpList
      ensures Chain(bpList[..], head, Without(used, i)) && Chain(bpList[..], free, unused)
      ensures prev == NULL ==> bpList[..] == old(bpList[..])
      ensures prev != NULL ==> bpList[..] == old(bpList[..])[prev := old(bpList[..])[prev].(next := old(bpList[p].next))]
    {
      ghost var pool := bpList[..];
      if prev == NULL {
        head := bpList[p].next;
        assert Without(used, 0) == used[1..];
      } else {
        assert used[i - 1] in used;
        bpList[prev] := bpList[prev].(next := bpList[p].next);
        ChainUnlink(pool, bpList[..], head, used, i);
        ChainFrame(pool, bpList[..], free, unused);
      }
    }

    /** Gives back the list s from p on, last node first. */
    method DeleteAllRecursively(p: int, ghost s: seq<nat>)
      requires bpList.Length == NR_BP && Chain(bpList[..], p, s) && NoDuplicates(s)
      requires Chain(bpList[..], free, unused)
      requires forall k :: k in s ==> k < NR_BP && k !in unused && bpList[k].inUse
      requires forall k :: k in s && !bpList[k].isWatch ==> bpList[k].addr < mem.Length
      modifies this`free, this`unused, bpList, mem
      ensures unused == s + old(unused) && Chain(bpList[..], free, unused)
      ensures forall k :: 0 <= k < NR_BP ==>
                bpList[k] == if k in s then old(bpList[k]).(inUse := false, next := bpList[k].next) else old(bpList[k])
      ensures mem[..] == Restored(old(bpList[..]), s, old(mem[..]))
      decreases |s|
    {
      if p == NULL {
        return;
      }
      ghost var t := s[1..];
      assert forall k :: k in t ==> k in s && k != p;
      if bpList[p].next != NULL {
        DeleteAllRecursively(bpList[p].next, t);
      }
      assert s == [s[0]] + t;
      FreeBP(p);
      assert unused == s + old(unused);
    }

    /** Every node is free again, and the program has its own bytes back. */
    method DeleteAllBreakpoint()
      requires Valid()
      modifies this, bpList, mem
      ensures Valid() && used == [] && unused == old(used) + old(unused)
      ensures mem[..] == Restored(old(bpList[..]), old(used), old(mem[..]))
      ensures old(IsRestorable()) ==> mem[..] == program && IsPatched()
    {
      if IsRestorable() {
        RestoredIsProgram(bpList[..], used, mem[..], program);
      }
      ghost var pool := bpList[..];
      ChainElements(pool, head, used);
      DeleteAllRecursively(head, used);
      head := NULL;
      JoinIsDistinct(used, unused[|used|..]);
      used := [];
      if old(IsRestorable()) {
        assert mem[..] == program;
        CleanIsPatched(bpList[..], mem[..]);
      }
    }

    /** Writes every breakpoint's own byte, front to back. */
    method MaskBreakpoints()
      requires Valid()
      modifies mem
      ensures Valid() && mem[..] == Overwritten(bpList[..], used, old(mem[..]), false)
      ensures old(IsRestorable()) ==> mem[..] == program && IsRestorable()
    {
      var p := head;
      ghost var s := used;
      if IsRestorable() {
        MaskGivesProgram(bpList[..], used, mem[..], program);
      }
      while p != NULL
        invariant Chain(bpList[..], p, s) && (forall k :: k in s ==> k in used)
        invariant Overwritten(bpList[..], s, mem[..], false) == Overwritten(bpList[..], used, old(mem[..]), false)
        decreases |s|
      {
        assert s[0] in s;
        if !bpList[p].isWatch {
          mem[bpList[p].addr] := bpList[p].oriByte;
        }
        p := bpList[p].next;
        s := s[1..];
      }
    }

    /** Writes INT3 at every breakpoint, front to back. */
    method ResumeBreakpoints()
      requires Valid()
      modifies bpList, mem
      ensures Valid() && mem[..] == Overwritten(old(bpList[..]), used, old(mem[..]), true)
      ensures forall k :: 0 <= k < NR_BP ==>
                bpList[k] == if k in used && !old(bpList[k]).isWatch then old(bpList[k]).(enable := true) else old(bpList[k])
      ensures old(IsRestorable()) ==> IsPatched()
    {
      var p := head;
      ghost var s, pool := used, bpList[..];
      while p != NULL
        invariant Chain(pool, p, s) && (forall k :: k in s ==> k in used)
        invariant forall k :: 0 <= k < NR_BP ==> bpList[k] == pool[k].(enable := bpList[k].enable)
        invariant forall k :: 0 <= k < NR_BP ==>
                    if k in used && IsBreak(pool, k) then k in s || bpList[k].enable else bpList[k] == pool[k]
        invariant Overwritten(pool, s, mem[..], true) == Overwritten(pool, used, old(mem[..]), true)
        decreases |s|
      {
        assert s[0] in s;
        if !bpList[p].isWatch {
          mem[bpList[p].addr] := INT3_CODE;
          bpList[p] := bpList[p].(enable := true);
        }
        p := bpList[p].next;
        s := s[1..];
      }
      ChainFrame(pool, bpList[..], head, used);
      ChainFrame(pool, bpList[..], free, unused);
      if old(IsRestorable()) {
        ResumeGivesPatched(pool, bpList[..], used, old(mem[..]), program);
      }
    }

    /** Masking and resuming leaves memory as it was whenever every breakpoint is in place, also where
        two of them share an address. */
    method MaskThenResume()
      requires Valid() && InPlace(bpList[..], used, mem[..])
      modifies bpList, mem
      ensures Valid() && mem[..] == old(mem[..]) && InPlace(bpList[..], used, mem[..])
      ensures old(IsPatched()) ==> IsPatched()
      ensures forall k :: 0 <= k < NR_BP ==>
                bpList[k] == if k in used && !old(bpList[k]).isWatch then old(bpList[k]).(enable := true) else old(bpList[k])
    {
      ghost var pool, before := bpList[..], mem[..];
      MaskBreakpoints();
      ghost var masked := mem[..];
      ResumeBreakpoints();
      forall a | 0 <= a < mem.Length
        ensures mem[a] == before[a]
      {
        if BreakAt(pool, used, a) {
          OverwrittenByInt3(pool, used, masked, a);
        } else {
          OverwrittenElsewhere(pool, used, before, false, a);
          OverwrittenElsewhere(pool, used, masked, true, a);
        }
      }
      assert mem[..] == before;
      assert forall k :: k in used && IsBreak(bpList[..], k) ==> IsBreak(pool, k) && bpList[k].addr == pool[k].addr;
    }

    /** Setting breakpoints at any addresses, repeated ones included, and deleting them all
        restores memory exactly when no address is repeated, or INT3 was there to begin with:
        a second breakpoint saves the INT3 of the first, and is undone last. */
    method SetThenDeleteAll(addrs: seq<u32>)
      requires Valid() && used == [] && |addrs| <= |unused|
      requires forall i :: 0 <= i < |addrs| ==> addrs[i] < mem.Length
      modifies this, bpList, mem
      ensures Valid() && used == []
      ensures mem[..] == old(mem[..]) <==> HarmlessRepeats(old(mem[..]), addrs)
    {
      var i := 0;
      ghost var mem0 := mem[..];
      while i < |addrs|
        invariant Valid() && i <= |addrs| && |unused| >= |addrs| - i
        invariant Records(bpList[..], used, mem[..], mem0, addrs[..i])
        decreases |addrs| - i
      {
        ghost var pool, us, m := bpList[..], used, mem[..];
        var NO := SetBreakpoint(addrs[i]);
        RecordsOneMore(pool, bpList[..], us, NO, m, mem[..], mem0, addrs[..i], addrs[i]);
        assert addrs[..i] + [addrs[i]] == addrs[..i + 1];
        i := i + 1;
      }
      assert addrs[..i] == addrs;
      RestoredIff(bpList[..], used, mem[..], mem0, addrs);
      DeleteAllBreakpoint();
    }
  }

  predicate HarmlessRepeats(mem: seq<u8>, addrs: seq<u32>)
    requires forall i :: 0 <= i < |addrs| ==> addrs[i] < |mem|
  {
    forall i, j :: 0 <= i < j < |addrs| && addrs[i] == addrs[j] ==> mem[addrs[i]] == INT3_CODE
  }

  /** The byte a breakpoint at a saves after breakpoints at addrs have been set. */
  function SavedByte(mem0: seq<u8>, addrs: seq<u32>, a: u32): u8
    requires a < |mem0|
  {
    if a in addrs then INT3_CODE else mem0[a]
  }

  /** Newest first, the list holds a breakpoint for each address with the byte it found. */
  predicate Records(pool: seq<BP>, s: seq<nat>, mem: seq<u8>, mem0: seq<u8>, addrs: seq<u32>)
    decreases |s|
  {
    && |s| == |addrs| && |mem| == |mem0| && (forall i :: 0 <= i < |addrs| ==> addrs[i] < |mem0|)
    && (forall a: u32 :: a < |mem| ==> mem[a] == SavedByte(mem0, addrs, a))
    && RecordsList(pool, s, mem0, addrs)
  }

  predicate RecordsList(pool: seq<BP>, s: seq<nat>, mem0: seq<u8>, addrs: seq<u32>)
    requires |s| == |addrs| && forall i :: 0 <= i < |addrs| ==> addrs[i] < |mem0|
  {
    if s == [] then true
    else
      var n := |s| - 1;
      && IsBreak(pool, s[0]) && pool[s[0]].addr == addrs[n]
      && pool[s[0]].oriByte == SavedByte(mem0, addrs[..n], addrs[n])
      && RecordsList(pool, s[1..], mem0, addrs[..n])
  }

  lemma {:induction false} RecordsFrame(pool: seq<BP>, pool': seq<BP>, s: seq<nat>, mem0: seq<u8>, addrs: seq<u32>)
    requires |s| == |addrs| && (forall i :: 0 <= i < |addrs| ==> addrs[i] < |mem0|) && RecordsList(pool, s, mem0, addrs)
    requires |pool'| == |pool| && forall k :: 0 <= k < |pool| && k in s ==> pool'[k] == pool[k]
    ensures RecordsList(pool', s, mem0, addrs)
  {
    if s != [] {
      assert s[0] in s;
      RecordsFrame(pool, pool', s[1..], mem0, addrs[..|s| - 1]);
    }
  }

  lemma RecordsOneMore(pool: seq<BP>, pool': seq<BP>, s: seq<nat>, p: nat, mem: seq<u8>, mem': seq<u8>,
                       mem0: seq<u8>, addrs: seq<u32>, a: u32)
    requires Records(pool, s, mem, mem0, addrs) && a < |mem0| && p !in s && p < |pool'| == |pool|
    requires pool' == pool[p := pool'[p]] && mem' == mem[a := INT3_CODE]
    requires !pool'[p].isWatch && pool'[p].addr == a && pool'[p].oriByte == mem[a]
    ensures Records(pool', [p] + s, mem', mem0, addrs + [a])
  {
    RecordsFrame(pool, pool', s, mem0, addrs);
    assert ([p] + s)[1..] == s && (addrs + [a])[..|s|] == addrs;
  }

  /** After undoing the list, each repeated address is left with INT3. */
  lemma {:induction false} RestoredRecords(pool: seq<BP>, s: seq<nat>, mem: seq<u8>, mem0: seq<u8>, addrs: seq<u32>, a: u32)
    requires |s| == |addrs| && |mem| == |mem0| && (forall i :: 0 <= i < |addrs| ==> addrs[i] < |mem0|) && a < |mem|
    requires RecordsList(pool, s, mem0, addrs)
    ensures Restored(pool, s, mem)[a] ==
            if a !in addrs then mem[a] else if Repeated(addrs, a) then INT3_CODE else mem0[a]
    decreases |s|
  {
    if s != [] {
      var n := |s| - 1;
      assert addrs == addrs[..n] + [addrs[n]];
      RestoredRecords(pool, s[1..], mem, mem0, addrs[..n], a);
      RepeatedIndices(addrs[..n], a);
    }
  }

  predicate Repeated(addrs: seq<u32>, a: u32)
  {
    addrs != [] && (Repeated(addrs[..|addrs| - 1], a) || (addrs[|addrs| - 1] == a && a in addrs[..|addrs| - 1]))
  }

  lemma {:induction false} RepeatedIndices(addrs: seq<u32>, a: u32)
    ensures Repeated(addrs, a) <==> exists i, j :: 0 <= i < j < |addrs| && addrs[i] == a == addrs[j]
  {
    if addrs != [] {
      var n := |addrs| - 1;
      RepeatedIndices(addrs[..n], a);
      if addrs[n] == a && a in addrs[..n] {
        var i :| 0 <= i < n && addrs[..n][i] == a;
        assert addrs[i] == a == addrs[n];
      }
      if exists i, j :: 0 <= i < j < |addrs| && addrs[i] == a == addrs[j] {
        var i, j :| 0 <= i < j < |addrs| && addrs[i] == a == addrs[j];
        assert addrs[..n][i] == a;
        if j < n {
          assert addrs[..n][j] == a;
        }
      }
    }
  }

  lemma RestoredIff(pool: seq<BP>, s: seq<nat>, mem: seq<u8>, mem0: seq<u8>, addrs: seq<u32>)
    requires Records(pool, s, mem, mem0, addrs) && |mem| <= 0x1_0000_0000
    ensures Restored(pool, s, mem) == mem0 <==> HarmlessRepeats(mem0, addrs)
  {
    var m := Restored(pool, s, mem);
    forall a: u32 | a < |mem|
      ensures m[a] == if Repeated(addrs, a) then INT3_CODE else mem0[a]
      ensures Repeated(addrs, a) <==> exists i, j :: 0 <= i < j < |addrs| && addrs[i] == a == addrs[j]
    {
      RestoredRecords(pool, s, mem, mem0, addrs, a);
      RepeatedIndices(addrs, a);
    }
    if m == mem0 {
      forall i, j | 0 <= i < j < |addrs| && addrs[i] == addrs[j]
        ensures mem0[addrs[i]] == INT3_CODE
      {
        assert Repeated(addrs, addrs[i]);
      }
    }
  }

  /** Memory after writing INT3, or the saved byte, at each breakpoint of the list in turn. */
  function Overwritten(pool: seq<BP>, s: seq<nat>, mem: seq<u8>, int3: bool): (m: seq<u8>)
    ensures |m| == |mem|
    decreases |s|
  {
    if s == [] then mem
    else if IsBreak(pool, s[0]) && pool[s[0]].addr < |mem| then
      Overwritten(pool, s[1..], mem[pool[s[0]].addr := if int3 then INT3_CODE else pool[s[0]].oriByte], int3)
    else Overwritten(pool, s[1..], mem, int3)
  }

  lemma {:induction false} OverwrittenAt(pool: seq<BP>, s: seq<nat>, mem: seq<u8>, program: seq<u8>, int3: bool, a: nat)
    requires |mem| == |program| && a < |mem| && SavedBytes(pool, s, program) && NoDuplicates(s)
    ensures Overwritten(pool, s, mem, int3)[a] ==
            if BreakAt(pool, s, a) then (if int3 then INT3_CODE else program[a]) else mem[a]
    decreases |s|
  {
    if s != [] {
      assert forall k :: k in s <==> k == s[0] || k in s[1..];
      var mem' := if IsBreak(pool, s[0]) && pool[s[0]].addr < |mem|
                  then mem[pool[s[0]].addr := if int3 then INT3_CODE else pool[s[0]].oriByte] else mem;
      OverwrittenAt(pool, s[1..], mem', program, int3, a);
    }
  }

  /** Every breakpoint address holds INT3. */
  predicate InPlace(pool: seq<BP>, used: seq<nat>, mem: seq<u8>)
  {
    forall k :: k in used && IsBreak(pool, k) ==> pool[k].addr < |mem| && mem[pool[k].addr] == INT3_CODE
  }

  lemma {:induction false} OverwrittenElsewhere(pool: seq<BP>, s: seq<nat>, mem: seq<u8>, int3: bool, a: nat)
    requires a < |mem| && !BreakAt(pool, s, a)
    ensures Overwritten(pool, s, mem, int3)[a] == mem[a]
    decreases |s|
  {
    if s != [] {
      assert forall k :: k in s <==> k == s[0] || k in s[1..];
      var here := IsBreak(pool, s[0]) && pool[s[0]].addr < |mem|;
      var mem' := if here then mem[pool[s[0]].addr := if int3 then INT3_CODE else pool[s[0]].oriByte] else mem;
      OverwrittenElsewhere(pool, s[1..], mem', int3, a);
    }
  }

  lemma {:induction false} OverwrittenByInt3(pool: seq<BP>, s: seq<nat>, mem: seq<u8>, a: nat)
    requires a < |mem|
    ensures BreakAt(pool, s, a) || mem[a] == INT3_CODE ==> Overwritten(pool, s, mem, true)[a] == INT3_CODE
    decreases |s|
  {
    if s != [] {
      assert forall k :: k in s <==> k == s[0] || k in s[1..];
      var here := IsBreak(pool, s[0]) && pool[s[0]].addr < |mem|;
      OverwrittenByInt3(pool, s[1..], if here then mem[pool[s[0]].addr := INT3_CODE] else mem, a);
    }
  }

  /** Two breakpoints at address 0, where the program has 0x90: node 1, set last, has saved the INT3 of
      node 0, is undone last, and leaves it in memory. */
  lemma RepeatedExample(pool: seq<BP>)
    requires |pool| == 2 && !pool[0].isWatch && !pool[1].isWatch && pool[0].addr == 0 == pool[1].addr
    requires pool[0].oriByte == 0x90 && pool[1].oriByte == INT3_CODE
    ensures Records(pool, [1, 0], [INT3_CODE], [0x90], [0, 0])
    ensures Restored(pool, [1, 0], [INT3_CODE]) == [INT3_CODE] && !HarmlessRepeats([0x90], [0, 0])
  {
    var addrs: seq<u32> := [0, 0];
    assert addrs[0] == addrs[1] && addrs[..1] == [0] && [0][..0] == [];
    assert [1, 0][1..] == [0] && [0][1..] == [];
  }

  lemma MaskGivesProgram(pool: seq<BP>, used: seq<nat>, mem: seq<u8>, program: seq<u8>)
    requires Restorable(pool, used, mem, program) && NoDuplicates(used)
    ensures Overwritten(pool, used, mem, false) == program && Restorable(pool, used, program, program)
  {
    forall a | 0 <= a < |mem|
      ensures Overwritten(pool, used, mem, false)[a] == program[a]
    {
      OverwrittenAt(pool, used, mem, program, false, a);
    }
  }

  lemma ResumeGivesPatched(pool: seq<BP>, pool': seq<BP>, used: seq<nat>, mem: seq<u8>, program: seq<u8>)
    requires Restorable(pool, used, mem, program) && NoDuplicates(used) && |pool'| == |pool|
    requires forall k :: 0 <= k < |pool| ==> pool'[k] == pool[k].(enable := pool'[k].enable)
    ensures Patched(pool', used, Overwritten(pool, used, mem, true), program)
  {
    forall a | 0 <= a < |mem|
      ensures BreakAt(pool', used, a) <==> BreakAt(pool, used, a)
      ensures Overwritten(pool, used, mem, true)[a] == if BreakAt(pool, used, a) then INT3_CODE else mem[a]
    {
      OverwrittenAt(pool, used, mem, program, true, a);
    }
  }

  lemma PatchedIsUnique(pool: seq<BP>, pool': seq<BP>, used: seq<nat>, mem: seq<u8>, mem': seq<u8>, program: seq<u8>)
    requires Patched(pool, used, mem, program) && Patched(pool', used, mem', program) && |pool'| == |pool|
    requires forall k :: 0 <= k < |pool| ==> pool'[k] == pool[k].(enable := pool'[k].enable)
    ensures mem == mem'
  {
    forall a | 0 <= a < |mem|
      ensures mem[a] == mem'[a]
    {
      assert BreakAt(pool', used, a) <==> BreakAt(pool, used, a);
    }
  }

  /** Memory with the saved byte of node p written back. */
  function Undone(pool: seq<BP>, p: int, mem: seq<u8>): seq<u8>
  {
    if 0 <= p < |pool| && IsBreak(pool, p) && pool[p].addr < |mem| then mem[pool[p].addr := pool[p].oriByte] else mem
  }

  lemma SameUndone(pool: seq<BP>, pool': seq<BP>, p: nat, mem: seq<u8>)
    requires p < |pool| == |pool'| && pool'[p].isWatch == pool[p].isWatch
    requires pool'[p].addr == pool[p].addr && pool'[p].oriByte == pool[p].oriByte
    ensures Undone(pool', p, mem) == Undone(pool, p, mem)
  {
  }

  lemma WatchKeepsRestorable(pool: seq<BP>, pool': seq<BP>, used: seq<nat>, mem: seq<u8>, program: seq<u8>, p: nat)
    requires Restorable(pool, used, mem, program) && p < |pool| == |pool'| && p !in used
    requires pool' == pool[p := pool'[p]] && !IsBreak(pool', p)
    ensures Restorable(pool', [p] + used, mem, program)
    ensures Patched(pool, used, mem, program) ==> Patched(pool', [p] + used, mem, program)
  {
    forall a: nat
      ensures BreakAt(pool', [p] + used, a) <==> BreakAt(pool, used, a)
    {
      if BreakAt(pool, used, a) {
        var k :| k in used && IsBreak(pool, k) && pool[k].addr == a;
        assert k in [p] + used;
      }
    }
  }

  lemma DeleteKeepsRestorable(pool: seq<BP>, pool': seq<BP>, used: seq<nat>, used': seq<nat>, mem: seq<u8>, program: seq<u8>, p: nat)
    requires Restorable(pool, used, mem, program) && |pool| == |pool'| && p in used && p < |pool|
    requires forall k :: k in used' <==> k in used && k != p
    requires forall k :: 0 <= k < |pool| ==>
               pool'[k].isWatch == pool[k].isWatch && pool'[k].addr == pool[k].addr && pool'[k].oriByte == pool[k].oriByte
    ensures Restorable(pool', used', Undone(pool, p, mem), program)
    ensures Patched(pool, used, mem, program) ==> Patched(pool', used', Undone(pool, p, mem), program)
  {
    forall a: nat
      ensures BreakAt(pool, used, a) <==> BreakAt(pool', used', a) || (IsBreak(pool, p) && pool[p].addr == a)
    {
      if BreakAt(pool, used, a) {
        var k :| k in used && IsBreak(pool, k) && pool[k].addr == a;
        assert k == p || (k in used' && IsBreak(pool', k));
      }
    }
    forall a: nat
      ensures IsBreak(pool, p) && pool[p].addr == a ==> !BreakAt(pool', used', a)
    {
    }
  }

  /** The pool linked up in order is one chain. */
  lemma {:induction false} WholePool(pool: seq<BP>, i: nat) returns (s: seq<nat>)
    requires i <= NR_BP == |pool|
    requires forall k :: 0 <= k < NR_BP ==> pool[k].next == if k == NR_BP - 1 then NULL else k + 1
    ensures Chain(pool, if i == NR_BP then NULL else i, s)
    ensures NoDuplicates(s) && forall k :: k in s <==> i <= k < NR_BP
    decreases NR_BP - i
  {
    s := [];
    if i < NR_BP {
      s := WholePool(pool, i + 1);
      assert ([i] + s)[1..] == s;
      s := [i] + s;
    }
  }

  lemma CleanIsPatched(pool: seq<BP>, mem: seq<u8>)
    ensures Patched(pool, [], mem, mem)
  {
  }

  /** Setting a breakpoint at a fresh address keeps the invariant of the program bytes. */
  lemma SetKeepsRestorable(pool: seq<BP>, pool': seq<BP>, used: seq<nat>, mem: seq<u8>, program: seq<u8>, p: nat)
    requires Restorable(pool, used, mem, program) && p < |pool| == |pool'| && p !in used
    requires pool' == pool[p := pool'[p]] && IsBreak(pool', p)
    requires var a := pool'[p].addr; a < |mem| && pool'[p].oriByte == mem[a] && !BreakAt(pool, used, a)
    ensures Restorable(pool', [p] + used, mem[pool'[p].addr := INT3_CODE], program)
    ensures Patched(pool, used, mem, program) ==> Patched(pool', [p] + used, mem[pool'[p].addr := INT3_CODE], program)
  {
    forall a: nat
      ensures BreakAt(pool', [p] + used, a) <==> BreakAt(pool, used, a) || a == pool'[p].addr
    {
      if a == pool'[p].addr {
        assert p in [p] + used;
      } else if BreakAt(pool, used, a) {
        var k :| k in used && IsBreak(pool, k) && pool[k].addr == a;
        assert k in [p] + used;
      }
    }
    assert mem[pool'[p].addr] == program[pool'[p].addr];
  }
}
