/** Sequences of distinct pool indices, the abstract value of a linked list in a pool. */
module NodeLists {
  predicate NoDuplicates(s: seq<nat>)
  {
    s == [] || (s[0] !in s[1..] && NoDuplicates(s[1..]))
  }

  lemma PushIsDistinct(p: nat, s: seq<nat>)
    requires NoDuplicates(s) && p !in s
    ensures NoDuplicates([p] + s)
  {
    assert ([p] + s)[1..] == s;
  }

  function Without(s: seq<nat>, i: nat): seq<nat>
    requires i < |s|
  {
    s[..i] + s[i + 1..]
  }

  lemma {:induction false} WithoutIsDistinct(s: seq<nat>, i: nat)
    requires NoDuplicates(s) && i < |s|
    ensures NoDuplicates(Without(s, i))
    ensures forall k :: k in Without(s, i) <==> k in s && k != s[i]
    ensures s[i] !in s[..i]
    decreases i
  {
    if i == 0 {
      assert Without(s, 0) == s[1..];
    } else {
      WithoutIsDistinct(s[1..], i - 1);
      assert Without(s, i) == [s[0]] + Without(s[1..], i - 1);
      assert s[1..][i - 1] == s[i];
      assert s[..i] == [s[0]] + s[1..][..i - 1];
      PushIsDistinct(s[0], Without(s[1..], i - 1));
    }
  }

  function Inserted(s: seq<nat>, i: nat, p: nat): seq<nat>
    requires i <= |s|
  {
    s[..i] + [p] + s[i..]
  }

  lemma {:induction false} InsertIsDistinct(s: seq<nat>, i: nat, p: nat)
    requires NoDuplicates(s) && i <= |s| && p !in s
    ensures NoDuplicates(Inserted(s, i, p))
    ensures forall k :: k in Inserted(s, i, p) <==> k in s || k == p
    decreases i
  {
    if i == 0 {
      assert Inserted(s, 0, p) == [p] + s;
      PushIsDistinct(p, s);
    } else {
      var t := Inserted(s[1..], i - 1, p);
      InsertIsDistinct(s[1..], i - 1, p);
      assert s[..i] == [s[0]] + s[1..][..i - 1] && s[i..] == s[1..][i - 1..];
      assert Inserted(s, i, p) == [s[0]] + t;
      PushIsDistinct(s[0], t);
    }
  }

  lemma {:induction false} JoinIsDistinct(s: seq<nat>, t: seq<nat>)
    requires NoDuplicates(s) && NoDuplicates(t) && forall k :: k in s ==> k !in t
    ensures NoDuplicates(s + t)
    decreases |s|
  {
    if s == [] {
      assert s + t == t;
    } else {
      JoinIsDistinct(s[1..], t);
      assert (s + t)[1..] == s[1..] + t;
    }
  }

  lemma {:induction false} DistinctAt(s: seq<nat>, i: nat, j: nat)
    requires NoDuplicates(s) && i < j < |s|
    ensures s[i] != s[j]
    decreases i
  {
    if i > 0 {
      DistinctAt(s[1..], i - 1, j - 1);
    } else {
      assert s[1..][j - 1] == s[j];
    }
  }

  /** A list of distinct numbers that holds exactly those below n has n members. */
  lemma {:induction false} DistinctCount(s: seq<nat>, n: nat)
    requires NoDuplicates(s) && forall k: nat :: k in s <==> k < n
    ensures |s| == n
    decreases n
  {
    assert |s| > 0 ==> s[0] in s;
    if n > 0 {
      var k: nat := n - 1;
      assert k in s;
      var i :| 0 <= i < |s| && s[i] == k;
      WithoutIsDistinct(s, i);
      DistinctCount(Without(s, i), n - 1);
    }
  }
}
