/** The falling letters of the typing game: a doubly linked list of nodes drawn from a pool with
    a free list. */
module LetterList {
  import opened NodeLists

  const SIZE: nat := 1000
  const NULL: int := -1
  const SCR_WIDTH: nat := 320
  const SCR_HEIGHT: real := 200.0

  /** A letter on the screen: x is the distance from the top, v the speed downwards. */
  datatype Letter = Letter(x: real, y: nat, text: nat, v: real)

  /** A pool node; prev and next are indices into the pool or NULL. */
  datatype Node = Node(letter: Letter, prev: int, next: int)

  // ----- lists through the pool -----

  /** The node at position i of a list, or NULL beyond its ends. */
  function At(s: seq<nat>, i: int): int
  {
    if 0 <= i < |s| then s[i] else NULL
  }

  predicate LinkedAt(pool: seq<Node>, s: seq<nat>, i: nat)
    requires i < |s|
  {
    s[i] < |pool| && pool[s[i]].prev == At(s, i - 1) && pool[s[i]].next == At(s, i + 1)
  }

  /** Both links of every node of the list lead to its neighbours. */
  predicate Linked(pool: seq<Node>, s: seq<nat>)
  {
    forall i :: 0 <= i < |s| ==> LinkedAt(pool, s, i)
  }

  /** From p, the next links run through s and end. */
  predicate FreeChain(pool: seq<Node>, p: int, s: seq<nat>)
    decreases |s|
  {
    if s == [] then p == NULL else p == s[0] && s[0] < |pool| && FreeChain(pool, pool[s[0]].next, s[1..])
  }

  lemma {:induction false} FreeChainFrame(pool: seq<Node>, pool': seq<Node>, p: int, s: seq<nat>)
    requires FreeChain(pool, p, s) && |pool'| == |pool|
    requires forall k :: 0 <= k < |pool| && k in s ==> pool'[k].next == pool[k].next
    ensures FreeChain(pool', p, s)
    decreases |s|
  {
    if s != [] {
      assert s[0] in s;
      FreeChainFrame(pool, pool', pool[s[0]].next, s[1..]);
    }
  }

  /** The two lists are disjoint and together make up the pool. */
  ghost predicate Partition(live: seq<nat>, free: seq<nat>)
  {
    && NoDuplicates(live) && NoDuplicates(free)
    && forall k: nat :: (k <= SIZE ==> (k in live) != (k in free)) && (k > SIZE ==> k !in live && k !in free)
  }

  lemma PartitionSizes(live: seq<nat>, free: seq<nat>)
    requires Partition(live, free)
    ensures |live| + |free| == SIZE + 1
  {
    JoinIsDistinct(live, free);
    DistinctCount(live + free, SIZE + 1);
  }

  /** Only links differ between the two pools. */
  predicate SameLetters(pool: seq<Node>, pool': seq<Node>)
  {
    |pool'| == |pool| && forall k :: 0 <= k < |pool| ==> pool'[k].letter == pool[k].letter
  }

  /** Mirroring the links of the neighbours of position i makes room for p there. */
  lemma InsertLinks(pool: seq<Node>, pool': seq<Node>, s: seq<nat>, i: nat, p: nat)
    requires Linked(pool, s) && NoDuplicates(s) && i <= |s| && p !in s && p < |pool| == |pool'|
    requires pool'[p].prev == At(s, i - 1) && pool'[p].next == At(s, i)
    requires forall k :: 0 <= k < |pool| && k != p ==>
      && pool'[k].next == (if k == At(s, i - 1) then p else pool[k].next)
      && pool'[k].prev == (if k == At(s, i) then p else pool[k].prev)
    ensures Linked(pool', Inserted(s, i, p))
  {
    hide NoDuplicates, Inserted, At;
    InsertedAt(s, i, p, 0);
    var t := Inserted(s, i, p);
    forall j | 0 <= j < |t|
      ensures LinkedAt(pool', t, j)
    {
      InsertedAt(s, i, p, j - 1);
      InsertedAt(s, i, p, j);
      InsertedAt(s, i, p, j + 1);
      if j != i {
        var j0 := if j < i then j else j - 1;
        assert LinkedAt(pool, s, j0);
        Neighbours(s, i, j0);
      }
    }
  }

  lemma InsertedAt(s: seq<nat>, i: nat, p: nat, j: int)
    requires i <= |s|
    ensures At(Inserted(s, i, p), j) == if j < i then At(s, j) else if j == i then p else At(s, j - 1)
    ensures |Inserted(s, i, p)| == |s| + 1
    ensures 0 <= j <= |s| ==> Inserted(s, i, p)[j] == if j < i then s[j] else if j == i then p else s[j - 1]
  {
  }

  lemma WithoutAt(s: seq<nat>, i: nat, j: int)
    requires i < |s|
    ensures At(Without(s, i), j) == if j < i then At(s, j) else At(s, j + 1)
    ensures |Without(s, i)| == |s| - 1
    ensures 0 <= j < |s| - 1 ==> Without(s, i)[j] == if j < i then s[j] else s[j + 1]
  {
  }

  lemma Neighbours(s: seq<nat>, i: nat, j: nat)
    requires NoDuplicates(s) && j < |s|
    ensures i < |s| && s[j] == s[i] ==> j == i
    ensures s[j] == At(s, i - 1) <==> j == i - 1
    ensures s[j] == At(s, i) <==> j == i
    ensures s[j] == At(s, i + 1) <==> j == i + 1
  {
    hide NoDuplicates;
    forall m | 0 <= m < |s| && m != j
      ensures s[m] != s[j]
    {
      DistinctAt(s, if m < j then m else j, if m < j then j else m);
    }
  }

  /** Joining the neighbours of position i takes the node there off the list. */
  lemma RemoveLinks(pool: seq<Node>, pool': seq<Node>, s: seq<nat>, i: nat)
    requires Linked(pool, s) && NoDuplicates(s) && i < |s| && |pool| == |pool'|
    requires forall k :: 0 <= k < |pool| && k != s[i] ==>
      && pool'[k].next == (if k == At(s, i - 1) then At(s, i + 1) else pool[k].next)
      && pool'[k].prev == (if k == At(s, i + 1) then At(s, i - 1) else pool[k].prev)
    ensures Linked(pool', Without(s, i))
  {
    hide NoDuplicates, Without, At;
    WithoutAt(s, i, 0);
    var t := Without(s, i);
    forall j | 0 <= j < |t|
      ensures LinkedAt(pool', t, j)
    {
      var j0 := if j < i then j else j + 1;
      WithoutAt(s, i, j - 1);
      WithoutAt(s, i, j);
      WithoutAt(s, i, j + 1);
      assert LinkedAt(pool, s, j0);
      Neighbours(s, i, j0);
    }
  }

  // ----- letters -----

  /** A letter one tick of the game clock later. */
  function Moved(l: Letter): Letter { l.(x := l.x + l.v) }

  predicate OverTop(l: Letter) { l.x < 0.0 }

  predicate Gone(l: Letter) { OverTop(l) || l.x + 7.9 > SCR_HEIGHT }

  /** A letter as the game keeps it: wholly on the screen, at a whole number of half pixels, falling
      at half a pixel a tick or flying up at three. */
  predicate OnScreen(l: Letter)
  {
    && l.text < 26 && 8 <= l.y <= SCR_WIDTH - 16 && l.y % 8 == 0
    && 0.0 <= l.x <= SCR_HEIGHT - 8.0 && (2.0 * l.x).Floor as real == 2.0 * l.x
    && (l.v == 0.5 || l.v == -3.0)
  }

  predicate AllOnScreen(pool: seq<Node>, s: seq<nat>)
  {
    forall i :: 0 <= i < |s| ==> s[i] < |pool| && OnScreen(pool[s[i]].letter)
  }

  lemma MovedStaysOnScreen(l: Letter)
    requires OnScreen(l)
    ensures Gone(Moved(l)) || OnScreen(Moved(l))
  {
    var n, m := (2.0 * l.x).Floor, if l.v == 0.5 then 1 else -6;
    assert 2.0 * Moved(l).x == (n + m) as real;
  }

  /** The letters of a list that stay through one tick, in order. */
  function Survivors(pool: seq<Node>, s: seq<nat>): seq<nat>
  {
    if s == [] then []
    else if s[0] < |pool| && !Gone(Moved(pool[s[0]].letter)) then [s[0]] + Survivors(pool, s[1..])
    else Survivors(pool, s[1..])
  }

  /** The letters of a list that leave through the top in one tick. */
  function Hits(pool: seq<Node>, s: seq<nat>): nat
  {
    if s == [] then 0
    else (if s[0] < |pool| && OverTop(Moved(pool[s[0]].letter)) then 1 else 0) + Hits(pool, s[1..])
  }

  /** Each letter has gone its speed down, or up, and is otherwise the same. */
  lemma AdvancedIff(start: seq<Node>, pool: seq<Node>, s: seq<nat>)
    requires |pool| == |start| && forall i :: 0 <= i < |s| ==> s[i] < |pool|
    ensures Advanced(start, pool, s) <==>
              forall i :: 0 <= i < |s| ==>
                var was, now := start[s[i]].letter, pool[s[i]].letter;
                now.x == was.x + was.v && now.y == was.y && now.v == was.v && now.text == was.text
  {
  }

  /** Exactly the letters that are wholly on the screen after one more step stay. */
  lemma {:induction false} StaysIff(pool: seq<Node>, s: seq<nat>, k: nat)
    ensures k in Survivors(pool, s) <==>
              k in s && k < |pool| && 0.0 <= pool[k].letter.x + pool[k].letter.v <= 192.1
  {
    if s != [] {
      StaysIff(pool, s[1..], k);
    }
  }

  /** Those that stay keep their order. */
  lemma {:induction false} StaysInOrder(pool: seq<Node>, s: seq<nat>, i: nat, j: nat)
    requires i < j < |Survivors(pool, s)|
    ensures exists p, q :: 0 <= p < q < |s| && s[p] == Survivors(pool, s)[i] && s[q] == Survivors(pool, s)[j]
    decreases |s|
  {
    var t, rest := Survivors(pool, s), Survivors(pool, s[1..]);
    if t == rest || i > 0 {
      var less := if t == rest then 0 else 1;
      StaysInOrder(pool, s[1..], i - less, j - less);
      var p, q :| 0 <= p < q < |s[1..]| && s[1..][p] == t[i] && s[1..][q] == t[j];
      assert s[p + 1] == t[i] && s[q + 1] == t[j];
    } else {
      assert t[j] == rest[j - 1] && t[j] in rest;
      StaysIff(pool, s[1..], t[j]);
      var q :| 0 <= q < |s[1..]| && s[1..][q] == t[j];
      assert s[0] == t[0] && s[q + 1] == t[j];
    }
  }

  /** The hits are the letters that end up above the screen. */
  lemma {:induction false} HitsAre(pool: seq<Node>, s: seq<nat>)
    requires NoDuplicates(s)
    ensures Hits(pool, s) == |set k | k in s && k < |pool| && pool[k].letter.x + pool[k].letter.v < 0.0|
  {
    var all := set k | k in s && k < |pool| && pool[k].letter.x + pool[k].letter.v < 0.0;
    if s == [] {
      assert all == {};
    } else {
      HitsAre(pool, s[1..]);
      var rest := set k | k in s[1..] && k < |pool| && pool[k].letter.x + pool[k].letter.v < 0.0;
      assert s[0] !in s[1..];
      if s[0] < |pool| && OverTop(Moved(pool[s[0]].letter)) {
        assert all == {s[0]} + rest;
      } else {
        assert all == rest;
      }
    }
  }

  /** The letters of a list, as they were at the start. */
  predicate Unmoved(start: seq<Node>, pool: seq<Node>, s: seq<nat>)
  {
    |pool| == |start| && forall i :: 0 <= i < |s| ==> s[i] < |pool| && pool[s[i]].letter == start[s[i]].letter
  }

  /** The letters of a list, one tick after the start. */
  predicate Advanced(start: seq<Node>, pool: seq<Node>, s: seq<nat>)
  {
    |pool| == |start| && forall i :: 0 <= i < |s| ==> s[i] < |pool| && pool[s[i]].letter == Moved(start[s[i]].letter)
  }

  /** A falling letter whose key is down. */
  predicate IsCandidate(pool: seq<Node>, pressed: seq<bool>, k: nat)
  {
    k < |pool| && pool[k].letter.v > 0.0 && pool[k].letter.text < |pressed| && pressed[pool[k].letter.text]
  }

  /** The candidate nearest the bottom among the first n of the list, the first among equals. */
  predicate IsLowest(pool: seq<Node>, pressed: seq<bool>, s: seq<nat>, n: nat, i: int)
  {
    && 0 <= i < n <= |s| && IsCandidate(pool, pressed, s[i])
    && forall j :: 0 <= j < n && IsCandidate(pool, pressed, s[j]) ==>
      (if j < i then pool[s[j]].letter.x < pool[s[i]].letter.x else pool[s[j]].letter.x <= pool[s[i]].letter.x)
  }

  /** The number of keys that are down. */
  function Down(pressed: seq<bool>): nat
  {
    if pressed == [] then 0 else (if pressed[0] then 1 else 0) + Down(pressed[1..])
  }

  lemma {:induction false} DownAfterRelease(pressed: seq<bool>, key: nat)
    requires key < |pressed| && pressed[key]
    ensures Down(pressed[key := false]) == Down(pressed) - 1
    decreases |pressed|
  {
    var after := pressed[key := false];
    if key > 0 {
      DownAfterRelease(pressed[1..], key - 1);
      assert after[1..] == pressed[1..][key - 1 := false];
    } else {
      assert after[1..] == pressed[1..];
    }
  }

  /** The letter at node k set to fly up. */
  function Turned(pool: seq<Node>, k: nat): seq<Node>
    requires k < |pool|
  {
    pool[k := pool[k].(letter := pool[k].letter.(v := -3.0))]
  }

  /** The pool as the program starts with it. */
  predicate NeverLinked(pool: seq<Node>)
  {
    forall k :: 0 <= k < |pool| ==> pool[k].next == NULL
  }

  class Game {
    const pool: array<Node>
    const pressed: array<bool>
    var freeHead: int
    var head: int
    var hit: nat
    var miss: nat
    ghost var live: seq<nat>
    ghost var free: seq<nat>
    ghost var timesLinked: nat
    ghost var created: nat

    /** The shape of the lists, whichever nodes are on them. */
    ghost predicate Shaped()
      reads this, pool
    {
      && pool.Length == SIZE + 1 && pressed.Length == 26
      && Linked(pool[..], live) && timesLinked <= 1
      && (if timesLinked == 1 then FreeChain(pool[..], freeHead, free)
          else freeHead == NULL && live == [] && free == [] && NeverLinked(pool[..]))
    }

    /** The pool is shared out between the two lists, with at least one node free. */
    ghost predicate Valid()
      reads this, pool
    {
      && Shaped() && head == At(live, 0)
      && (timesLinked == 1 ==> Partition(live, free) && |live| <= SIZE)
      && AllOnScreen(pool[..], live)
      && created == |live| + hit + miss
    }

    constructor ()
      ensures Valid() && fresh(pool) && fresh(pressed) && timesLinked == 0 && live == [] && created == 0
    {
      pool := new Node[SIZE + 1](_ => Node(Letter(0.0, 0, 0, 0.0), NULL, NULL));
      pressed := new bool[26](_ => false);
      freeHead, head, hit, miss := NULL, NULL, 0, 0;
      live, free, timesLinked, created := [], [], 0, 0;
    }

    /** fly_new: the first free node, after linking the whole pool the first time. */
    method NewNode() returns (ret: nat)
      requires Valid() && |live| < SIZE
      modifies this`freeHead, this`free, this`timesLinked, pool
      ensures Shaped() && timesLinked == 1 && Partition([ret] + live, free)
      ensures ret <= SIZE && pool[ret].prev == NULL == pool[ret].next
      ensures forall k :: 0 <= k <= SIZE && k != ret ==> pool[k].letter == old(pool[k]).letter
    {
      hide NoDuplicates, OnScreen, LinkedAt;
      var freeNode := freeHead;
      if freeNode == NULL {
        assert timesLinked == 0 by {
          if timesLinked == 1 {
            PartitionSizes(live, free);
          }
        }
        for i := 1 to SIZE + 1
          invariant forall k :: 0 <= k <= SIZE ==> pool[k] == old(pool[k]).(next := if k < i - 1 then k + 1 else NULL)
        {
          pool[i - 1] := pool[i - 1].(next := i);
        }
        freeNode := 0;
        free := WholePool(pool[..], 0);
        timesLinked := 1;
      }
      RoomLeft(pool[..], freeNode, live, free);
      assert pool[freeNode].next != NULL;
      ghost var before := pool[..];
      assert free[0] in free;
      ret := freeNode;
      assert free == [ret] + free[1..];
      freeHead := pool[freeNode].next;
      free := free[1..];
      pool[ret] := pool[ret].(prev := NULL, next := NULL);
      PartitionMove(live, ret, free);
      FreeChainFrame(before, pool[..], freeHead, free);
      LinkedFrame(before, pool[..], live);
    }

    /** fly_insert: links obj between its two neighbours, position i of the list. */
    method Insert(prev: int, next: int, obj: nat, ghost i: nat)
      requires prev != NULL || next != NULL
      requires Shaped() && timesLinked == 1 && Partition([obj] + live, free)
      requires i <= |live| && prev == At(live, i - 1) && next == At(live, i)
      modifies this`live, pool
      ensures Shaped() && live == Inserted(old(live), i, obj) && Partition(live, free)
      ensures SameLetters(old(pool[..]), pool[..])
    {
      hide NoDuplicates, LinkedAt;
      ghost var before := pool[..];
      PartitionInsert(live, free, obj, i);
      AtIsListed(live, i);
      AtIsListed(live, i - 1);
      pool[obj] := pool[obj].(prev := prev);
      pool[obj] := pool[obj].(next := next);
      if prev != NULL {
        pool[prev] := pool[prev].(next := obj);
      }
      if next != NULL {
        pool[next] := pool[next].(prev := obj);
      }
      InsertLinks(before, pool[..], live, i, obj);
      FreeChainFrame(before, pool[..], freeHead, free);
      live := Inserted(live, i, obj);
    }

    /** fly_remove: joins the neighbours of the node at position i of the list. */
    method Remove(node: nat, ghost i: nat)
      requires Shaped() && timesLinked == 1 && Partition(live, free)
      requires i < |live| && node == live[i] && node <= SIZE
      modifies this`live, pool
      ensures Shaped() && live == Without(old(live), i) && Partition([node] + live, free)
      ensures SameLetters(old(pool[..]), pool[..])
    {
      hide NoDuplicates;
      ghost var before := pool[..];
      assert LinkedAt(before, live, i);
      AtIsListed(live, i + 1);
      AtIsListed(live, i - 1);
      hide LinkedAt;
      var prev, next := pool[node].prev, pool[node].next;
      if prev != NULL {
        pool[prev] := pool[prev].(next := next);
      }
      if next != NULL {
        pool[next] := pool[next].(prev := prev);
      }
      RemoveLinks(before, pool[..], live, i);
      PartitionRemove(live, free, i);
      FreeChainFrame(before, pool[..], freeHead, free);
      live := Without(live, i);
    }

    /** fly_free: puts a node that is on no list in front of the free list. */
    method FreeNode(node: nat)
      requires Shaped() && timesLinked == 1 && Partition([node] + live, free) && node <= SIZE
      modifies this`freeHead, this`free, pool
      ensures Shaped() && free == [node] + old(free) && Partition(live, free)
      ensures SameLetters(old(pool[..]), pool[..])
    {
      hide NoDuplicates, LinkedAt;
      ghost var before := pool[..];
      PartitionMove(live, node, free);
      pool[node] := pool[node].(next := freeHead);
      freeHead := node;
      FreeChainFrame(before, pool[..], old(freeHead), free);
      LinkedFrame(before, pool[..], live);
      assert ([node] + free)[1..] == free;
      free := [node] + free;
    }

    /** A new letter at the top, in front of the list; the column and the key come from rand. */
    method CreateNewLetter(column: nat, key: nat)
      requires Valid() && |live| < SIZE
      modifies this, pool, pressed
      ensures Valid() && timesLinked == 1 && created == old(created) + 1 && hit == old(hit) && miss == old(miss)
      ensures |live| == |old(live)| + 1 && live[1..] == old(live) && live[0] <= SIZE && live[0] !in old(live)
      ensures pool[live[0]].letter == Letter(0.0, column % (SCR_WIDTH / 8 - 2) * 8 + 8, key % 26, 0.5)
      ensures forall k :: 0 <= k <= SIZE && k != live[0] ==> pool[k].letter == old(pool[k]).letter
      ensures pressed[..] == old(pressed[..])[key % 26 := false]
    {
      hide NoDuplicates, Linked, AllOnScreen, Partition, FreeChain;
      ghost var start, was := pool[..], live;
      if head == NULL {
        head := NewNode();
        PartitionInsert(live, free, head, 0);
        SingleIsLinked(pool[..], head);
        live := [head];
      } else {
        var now := NewNode();
        PartitionInsert(live, free, now, 0);
        Insert(NULL, head, now, 0);
        head := now;
      }
      assert live == [head] + was;
      ghost var before := pool[..];
      var letter := Letter(0.0, column % (SCR_WIDTH / 8 - 2) * 8 + 8, key % 26, 0.5);
      pool[head] := pool[head].(letter := letter);
      pressed[letter.text] := false;
      created := created + 1;
      LinkedFrame(before, pool[..], live);
      FreeChainFrame(before, pool[..], freeHead, free);
      CreatedOnScreen(start, pool[..], was, head, column, key);
    }

    /** One tick for the letter at position i: it moves, and leaves the list when off the screen. */
    method UpdateLetter(it: nat, ghost i: nat) returns (next: int)
      requires Valid() && i < |live| && it == live[i]
      modifies this`freeHead, this`head, this`hit, this`miss, this`live, this`free, pool
      ensures Valid() && it <= SIZE && next == At(old(live), i + 1)
      ensures pool[it].letter == Moved(old(pool[it]).letter)
      ensures forall k :: 0 <= k <= SIZE && k != it ==> pool[k].letter == old(pool[k]).letter
      ensures live == if Gone(pool[it].letter) then Without(old(live), i) else old(live)
      ensures hit == old(hit) + if OverTop(pool[it].letter) then 1 else 0
    {
      hide NoDuplicates, Linked, Moved, OverTop, Partition, AllOnScreen, FreeChain, At, Without;
      ghost var before, was := pool[..], live;
      NextOf(before, was, i);
      assert timesLinked == 1;
      PartitionDistinct(was, free);
      next := pool[it].next;
      pool[it] := pool[it].(letter := Moved(pool[it].letter));
      LinkedFrame(before, pool[..], was);
      FreeChainFrame(before, pool[..], freeHead, free);
      ghost var moved := pool[..];
      MovedOnScreen(before, moved, was, i);
      if Gone(pool[it].letter) {
        if OverTop(pool[it].letter) {
          hit := hit + 1;
        } else {
          miss := miss + 1;
        }
        Remove(it, i);
        FreeNode(it);
        OnScreenFrame(moved, pool[..], live);
        WithoutAt(was, i, 0);
        HeadOfRest(was, i);
        if it == head {
          head := next;
        }
      }
    }

    /** One tick for every letter; those that leave the screen are counted and freed. */
    method UpdateLetterPos()
      requires Valid()
      modifies this`freeHead, this`head, this`hit, this`miss, this`live, this`free, pool
      ensures Valid() && live == Survivors(old(pool[..]), old(live)) && Advanced(old(pool[..]), pool[..], live)
      ensures hit == old(hit) + Hits(old(pool[..]), old(live))
    {
      hide NoDuplicates, OnScreen, Linked, FreeChain, Partition, Survivors, Hits, Advanced, InTick, OverTop, Gone, Moved,
        At, Without, AllOnScreen, NeverLinked;
      ghost var start := pool[..];
      ghost var kept: seq<nat>, rest := [], live;
      TickStart(start, live, hit);
      FirstAndNext(kept, rest);
      var it := head;
      while it != NULL
        invariant Valid() && live == kept + rest && it == At(rest, 0)
        invariant InTick(start, old(live), old(hit), pool[..], kept, rest, hit)
        decreases |rest|
      {
        ghost var before, was := pool[..], hit;
        FirstAndNext(kept, rest);
        PartitionDistinct(live, free);
        it := UpdateLetter(it, |kept|);
        TickStep(start, old(live), old(hit), before, pool[..], kept, rest, was, hit);
        ghost var stays := if Gone(pool[rest[0]].letter) then [] else [rest[0]];
        assert live == kept + stays + rest[1..];
        kept, rest := kept + stays, rest[1..];
      }
      FirstAndNext(kept, rest);
      TickEnd(start, old(live), old(hit), pool[..], kept, hit);
      assert live == kept;
    }

    /** Turns the lowest falling letter whose key is down, and takes the key up. */
    method UpdateKeypress() returns (found: bool, ghost i: nat)
      requires Valid()
      modifies pool, pressed
      ensures Valid()
      ensures !found ==> forall j :: 0 <= j < |live| ==> !IsCandidate(pool[..], pressed[..], live[j])
      ensures !found ==> pool[..] == old(pool[..]) && pressed[..] == old(pressed[..])
      ensures found ==> i < |live| && IsLowest(old(pool[..]), old(pressed[..]), live, |live|, i)
      ensures found ==> pool[..] == Turned(old(pool[..]), live[i])
      ensures found ==> pressed[..] == old(pressed[..])[old(pool[..])[live[i]].letter.text := false]
      ensures found ==>
                var nodes, keys := old(pool[..]), old(pressed[..]);
                var k := live[i];
                && nodes[k].letter.v > 0.0 && keys[nodes[k].letter.text]
                && pool[..] == nodes[k := nodes[k].(letter := nodes[k].letter.(v := -3.0))]
                && forall j :: 0 <= j < |live| && nodes[live[j]].letter.v > 0.0 && keys[nodes[live[j]].letter.text] ==>
                     nodes[live[j]].letter.x <= nodes[k].letter.x
                     && (j < i ==> nodes[live[j]].letter.x < nodes[k].letter.x)
    {
      hide Linked, FreeChain, Partition, NeverLinked;
      ghost var before := pool[..];
      var target, at := FindTarget();
      found := target != NULL;
      if found {
        i := at;
        TurnedOnScreen(before, live, i);
        pressed[pool[target].letter.text] := false;
        pool[target] := pool[target].(letter := pool[target].letter.(v := -3.0));
        LinkedFrame(before, pool[..], live);
        if timesLinked == 1 {
          FreeChainFrame(before, pool[..], freeHead, free);
        }
      } else {
        i := 0;
      }
    }

    /** The scan of the list for the letter to hit. */
    method FindTarget() returns (target: int, ghost at: int)
      requires Valid()
      ensures target == NULL <==> forall j :: 0 <= j < |live| ==> !IsCandidate(pool[..], pressed[..], live[j])
      ensures target != NULL ==> 0 <= at < |live| && target == live[at] <= SIZE && IsLowest(pool[..], pressed[..], live, |live|, at)
    {
      hide Linked, FreeChain, Partition, NeverLinked, NoDuplicates;
      ghost var nodes, keys := pool[..], pressed[..];
      target, at := NULL, -1;
      var min := -100.0;
      var it := head;
      ghost var n := 0;
      while it != NULL
        invariant 0 <= n <= |live| && it == At(live, n)
        invariant target == NULL <==> at == -1
        invariant at == -1 ==> min == -100.0 && forall j :: 0 <= j < n ==> !IsCandidate(nodes, keys, live[j])
        invariant at != -1 ==> target == At(live, at) && IsLowest(nodes, keys, live, n, at) && min == nodes[live[at]].letter.x
        decreases |live| - n
      {
        NextOf(nodes, live, n);
        assert OnScreen(nodes[live[n]].letter);
        if pool[it].letter.v > 0.0 && pool[it].letter.x > min && pressed[pool[it].letter.text] {
          min := pool[it].letter.x;
          target, at := it, n;
        }
        it := pool[it].next;
        n := n + 1;
      }
    }

    /** The main loop's first step: keys are handled until none of them finds a letter. */
    method HandleKeys()
      requires Valid()
      modifies pool, pressed
      ensures Valid() && forall j :: 0 <= j < |live| ==> !IsCandidate(pool[..], pressed[..], live[j])
    {
      hide Linked, FreeChain, Partition, NeverLinked, NoDuplicates, Turned, At, IsCandidate, IsLowest, OnScreen;
      var more, i := UpdateKeypress();
      while more
        invariant Valid() && (!more ==> forall j :: 0 <= j < |live| ==> !IsCandidate(pool[..], pressed[..], live[j]))
        decreases Down(pressed[..]), more
      {
        ghost var before, keys := pool[..], pressed[..];
        more, i := UpdateKeypress();
        if more {
          ReleaseIsFewer(before, keys, live, i);
        }
      }
    }
  }

  // ----- what becomes of a letter -----

  /** A letter n ticks later. */
  function Ticked(l: Letter, n: nat): Letter
  {
    if n == 0 then l else Moved(Ticked(l, n - 1))
  }

  lemma {:induction false} TickedIsLinear(l: Letter, n: nat)
    ensures Ticked(l, n) == l.(x := l.x + n as real * l.v)
  {
    if n > 0 {
      TickedIsLinear(l, n - 1);
      assert n as real * l.v == (n - 1) as real * l.v + l.v;
    }
  }

  /** How long a letter stays: a falling one until its 8 pixels no longer fit, one flying up until
      it is over the top. */
  function TicksLeft(l: Letter): int
  {
    if l.v > 0.0 then 385 - (2.0 * l.x).Floor else (l.x / 3.0).Floor + 1
  }

  /** Left alone, every letter leaves at a known tick, through the top exactly when it was hit. */
  lemma LeavesOnTime(l: Letter, n: nat)
    requires OnScreen(l)
    ensures TicksLeft(l) > 0
    ensures n < TicksLeft(l) ==> !Gone(Ticked(l, n))
    ensures n == TicksLeft(l) ==> Gone(Ticked(l, n)) && (OverTop(Ticked(l, n)) <==> l.v < 0.0)
  {
    TickedIsLinear(l, n);
    if l.v > 0.0 {
      assert n as real * l.v == n as real / 2.0;
    } else {
      assert n as real * l.v == -3.0 * n as real;
    }
  }

  // ----- steps of the proofs -----

  lemma ReleaseIsFewer(pool: seq<Node>, pressed: seq<bool>, s: seq<nat>, i: nat)
    requires i < |s| && s[i] < |pool| && IsLowest(pool, pressed, s, |s|, i)
    ensures pool[s[i]].letter.text < |pressed|
    ensures Down(pressed[pool[s[i]].letter.text := false]) < Down(pressed)
  {
    DownAfterRelease(pressed, pool[s[i]].letter.text);
  }

  lemma PartitionDistinct(live: seq<nat>, free: seq<nat>)
    requires Partition(live, free)
    ensures NoDuplicates(live)
  {
  }

  lemma OnScreenFrame(pool: seq<Node>, pool': seq<Node>, s: seq<nat>)
    requires AllOnScreen(pool, s) && SameLetters(pool, pool')
    ensures AllOnScreen(pool', s)
  {
  }

  lemma MovedOnScreen(pool: seq<Node>, pool': seq<Node>, live: seq<nat>, i: nat)
    requires AllOnScreen(pool, live) && NoDuplicates(live) && i < |live| && |pool'| == |pool|
    requires pool'[live[i]].letter == Moved(pool[live[i]].letter)
    requires forall k :: 0 <= k < |pool| && k != live[i] ==> pool'[k].letter == pool[k].letter
    ensures AllOnScreen(pool', if Gone(pool'[live[i]].letter) then Without(live, i) else live)
  {
    MovedStaysOnScreen(pool[live[i]].letter);
    hide NoDuplicates, Moved, Gone, OnScreen, Without;
    var gone := Gone(pool'[live[i]].letter);
    var t := if gone then Without(live, i) else live;
    WithoutAt(live, i, 0);
    forall j | 0 <= j < |t|
      ensures t[j] < |pool'| && OnScreen(pool'[t[j]].letter)
    {
      WithoutAt(live, i, j);
      var j0 := if gone && j >= i then j + 1 else j;
      assert t[j] == live[j0];
      if j0 != i {
        DistinctAt(live, if j0 < i then j0 else i, if j0 < i then i else j0);
      }
    }
  }

  /** Only the first node is the head, and the next one becomes it. */
  lemma HeadOfRest(live: seq<nat>, i: nat)
    requires NoDuplicates(live) && i < |live|
    ensures At(Without(live, i), 0) == if live[i] == At(live, 0) then At(live, i + 1) else At(live, 0)
  {
    if i > 0 {
      DistinctAt(live, 0, i);
    }
  }

  lemma TurnedOnScreen(pool: seq<Node>, s: seq<nat>, i: nat)
    requires AllOnScreen(pool, s) && i < |s|
    ensures s[i] < |pool| && AllOnScreen(Turned(pool, s[i]), s)
  {
    assert OnScreen(pool[s[i]].letter);
  }

  lemma FirstAndNext(kept: seq<nat>, rest: seq<nat>)
    ensures At(rest, 0) == NULL <==> rest == []
    ensures rest != [] ==> (kept + rest)[|kept|] == rest[0] == At(rest, 0) && At(kept + rest, |kept| + 1) == At(rest[1..], 0)
    ensures rest != [] ==> Without(kept + rest, |kept|) == kept + [] + rest[1..] && kept + rest == kept + [rest[0]] + rest[1..]
  {
  }

  /** Halfway through a tick: the letters already moved that stay, and those still to move. */
  predicate InTick(start: seq<Node>, all: seq<nat>, hit0: nat, pool: seq<Node>, kept: seq<nat>, rest: seq<nat>, hit: nat)
  {
    && Unmoved(start, pool, rest) && Advanced(start, pool, kept)
    && Survivors(start, all) == kept + Survivors(start, rest)
    && hit0 + Hits(start, all) == hit + Hits(start, rest)
  }

  lemma TickStart(start: seq<Node>, all: seq<nat>, hit0: nat)
    requires AllOnScreen(start, all)
    ensures InTick(start, all, hit0, start, [], all, hit0)
  {
  }

  lemma TickEnd(start: seq<Node>, all: seq<nat>, hit0: nat, pool: seq<Node>, kept: seq<nat>, hit: nat)
    requires InTick(start, all, hit0, pool, kept, [], hit)
    ensures kept == Survivors(start, all) && Advanced(start, pool, kept) && hit == hit0 + Hits(start, all)
  {
  }

  /** Moving the first of the remaining letters. */
  lemma TickStep(start: seq<Node>, all: seq<nat>, hit0: nat, before: seq<Node>, after: seq<Node>,
                 kept: seq<nat>, rest: seq<nat>, was: nat, hit: nat)
    requires InTick(start, all, hit0, before, kept, rest, was) && |after| == |before|
    requires NoDuplicates(kept + rest) && rest != [] && rest[0] < |before|
    requires after[rest[0]].letter == Moved(before[rest[0]].letter)
    requires forall k :: 0 <= k < |before| && k != rest[0] ==> after[k].letter == before[k].letter
    requires hit == was + if OverTop(after[rest[0]].letter) then 1 else 0
    ensures var stays := if Gone(after[rest[0]].letter) then [] else [rest[0]];
            InTick(start, all, hit0, after, kept + stays, rest[1..], hit)
  {
    assert OverTop(after[rest[0]].letter) ==> Gone(after[rest[0]].letter);
    hide NoDuplicates, Moved, Gone, OverTop;
    var stays := if Gone(after[rest[0]].letter) then [] else [rest[0]];
    LettersStep(start, before, after, kept, rest);
    assert after[rest[0]].letter == Moved(start[rest[0]].letter);
    assert rest[0] < |start| by {
      hide Survivors, Hits;
    }
    SurvivorsStep(start, kept, rest);
    hide Unmoved, Survivors, Hits;
    assert stays == [] ==> kept + stays == kept;
  }

  lemma SurvivorsStep(start: seq<Node>, kept: seq<nat>, rest: seq<nat>)
    requires rest != [] && rest[0] < |start|
    ensures var stays := if Gone(Moved(start[rest[0]].letter)) then [] else [rest[0]];
            kept + Survivors(start, rest) == kept + stays + Survivors(start, rest[1..])
    ensures Hits(start, rest) == Hits(start, rest[1..]) + if OverTop(Moved(start[rest[0]].letter)) then 1 else 0
  {
    hide Moved, Gone, OverTop;
    var stays := if Gone(Moved(start[rest[0]].letter)) then [] else [rest[0]];
    var tail := Survivors(start, rest[1..]);
    assert [] + tail == tail;
    assert Survivors(start, rest) == stays + tail;
    hide Survivors;
    assert kept + stays + tail == kept + (stays + tail);
  }

  lemma LettersStep(start: seq<Node>, before: seq<Node>, after: seq<Node>, kept: seq<nat>, rest: seq<nat>)
    requires Unmoved(start, before, rest) && Advanced(start, before, kept) && |after| == |before|
    requires NoDuplicates(kept + rest) && rest != [] && rest[0] < |before|
    requires after[rest[0]].letter == Moved(before[rest[0]].letter)
    requires forall k :: 0 <= k < |before| && k != rest[0] ==> after[k].letter == before[k].letter
    ensures Unmoved(start, after, rest[1..]) && Advanced(start, after, kept) && Advanced(start, after, kept + [rest[0]])
  {
    hide NoDuplicates, Moved;
    OthersStay(kept, rest);
  }

  lemma OthersStay(kept: seq<nat>, rest: seq<nat>)
    requires NoDuplicates(kept + rest) && rest != []
    ensures forall j :: 0 <= j < |kept| ==> kept[j] != rest[0]
    ensures forall j :: 0 <= j < |rest[1..]| ==> rest[1..][j] != rest[0]
  {
    hide NoDuplicates;
    forall j | 0 <= j < |kept|
      ensures kept[j] != rest[0]
    {
      DistinctAt(kept + rest, j, |kept|);
    }
    forall j | 0 <= j < |rest[1..]|
      ensures rest[1..][j] != rest[0]
    {
      DistinctAt(kept + rest, |kept|, |kept| + 1 + j);
    }
  }

  lemma SingleIsLinked(pool: seq<Node>, p: nat)
    requires p < |pool| && pool[p].prev == NULL == pool[p].next
    ensures Linked(pool, [p])
  {
  }

  lemma NextOf(pool: seq<Node>, s: seq<nat>, i: nat)
    requires Linked(pool, s) && i < |s|
    ensures s[i] < |pool| && pool[s[i]].next == At(s, i + 1)
  {
    assert LinkedAt(pool, s, i);
  }

  lemma CreatedOnScreen(pool: seq<Node>, pool': seq<Node>, s: seq<nat>, p: nat, column: nat, key: nat)
    requires AllOnScreen(pool, s) && p < |pool'| == |pool| && p !in s
    requires pool'[p].letter == Letter(0.0, column % (SCR_WIDTH / 8 - 2) * 8 + 8, key % 26, 0.5)
    requires forall k :: 0 <= k < |pool| && k != p ==> pool'[k].letter == pool[k].letter
    ensures AllOnScreen(pool', [p] + s)
  {
    assert OnScreen(pool'[p].letter);
    hide OnScreen;
    forall i | 0 <= i < |[p] + s|
      ensures ([p] + s)[i] < |pool'| && OnScreen(pool'[([p] + s)[i]].letter)
    {
      assert i > 0 ==> ([p] + s)[i] == s[i - 1] && s[i - 1] in s;
    }
  }

  // ----- sharing out the pool -----

  lemma {:induction false} WholePool(pool: seq<Node>, i: nat) returns (s: seq<nat>)
    requires i <= SIZE + 1 == |pool|
    requires forall k :: 0 <= k <= SIZE ==> pool[k].next == if k < SIZE then k + 1 else NULL
    ensures FreeChain(pool, if i == SIZE + 1 then NULL else i, s)
    ensures NoDuplicates(s) && forall k :: k in s <==> i <= k <= SIZE
    ensures i == 0 ==> Partition([], s)
    decreases SIZE + 1 - i
  {
    s := [];
    if i <= SIZE {
      s := WholePool(pool, i + 1);
      assert ([i] + s)[1..] == s;
      s := [i] + s;
    }
  }

  /** The assertion in fly_new holds exactly while fewer than SIZE letters are live. */
  lemma RoomLeft(pool: seq<Node>, freeHead: int, live: seq<nat>, free: seq<nat>)
    requires FreeChain(pool, freeHead, free) && Partition(live, free) && |live| <= SIZE
    ensures free != [] && 0 <= freeHead < |pool|
    ensures pool[freeHead].next != NULL <==> |live| < SIZE
  {
    PartitionSizes(live, free);
  }

  /** A free node can be moved over to the other side, and back. */
  lemma PartitionMove(live: seq<nat>, p: nat, free: seq<nat>)
    ensures Partition(live, [p] + free) <==> Partition([p] + live, free)
    ensures Partition([p] + live, free) ==> p <= SIZE && p !in live && p !in free
  {
    assert ([p] + live)[1..] == live && ([p] + free)[1..] == free;
    assert p in [p] + live && p in [p] + free;
  }

  lemma PartitionInsert(live: seq<nat>, free: seq<nat>, p: nat, i: nat)
    requires Partition([p] + live, free) && i <= |live|
    ensures Partition(Inserted(live, i, p), free) && p <= SIZE && p !in live && p !in free && NoDuplicates(live)
    ensures forall k :: k in live ==> k <= SIZE
  {
    assert ([p] + live)[1..] == live && p in [p] + live;
    assert forall k: nat :: k in [p] + live <==> k == p || k in live;
    hide NoDuplicates, Inserted;
    InsertIsDistinct(live, i, p);
  }

  lemma PartitionRemove(live: seq<nat>, free: seq<nat>, i: nat)
    requires Partition(live, free) && i < |live|
    ensures Partition([live[i]] + Without(live, i), free)
  {
    var t := Without(live, i);
    WithoutIsDistinct(live, i);
    hide Without;
    PushIsDistinct(live[i], t);
    hide NoDuplicates;
    assert forall k: nat :: k in [live[i]] + t <==> k in live;
  }

  lemma LinkedFrame(pool: seq<Node>, pool': seq<Node>, s: seq<nat>)
    requires Linked(pool, s) && |pool'| == |pool|
    requires forall k :: 0 <= k < |pool| && k in s ==> pool'[k].prev == pool[k].prev && pool'[k].next == pool[k].next
    ensures Linked(pool', s)
  {
    forall i | 0 <= i < |s|
      ensures LinkedAt(pool', s, i)
    {
      assert LinkedAt(pool, s, i);
    }
  }

  lemma AtIsListed(s: seq<nat>, i: int)
    ensures At(s, i) == NULL || (At(s, i) >= 0 && At(s, i) in s)
  {
  }
}
