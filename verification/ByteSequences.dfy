/** Slices of byte sequences. */
module ByteSequences {
  import opened MachineInts

  /** Bytes with some of them, from position k on, replaced. */
  function Spliced(s: seq<u8>, k: nat, t: seq<u8>): (r: seq<u8>)
    requires k + |t| <= |s|
    ensures |r| == |s|
  {
    s[..k] + t + s[k + |t|..]
  }

  lemma SliceOfSpliced(s: seq<u8>, at: nat, data: seq<u8>, lo: nat, hi: nat)
    requires at + |data| <= |s| && lo <= hi <= |s|
    ensures lo <= at && at + |data| <= hi ==> Spliced(s, at, data)[lo..hi] == Spliced(s[lo..hi], at - lo, data)
    ensures at + |data| <= lo || hi <= at ==> Spliced(s, at, data)[lo..hi] == s[lo..hi]
  {
    hide Spliced;
    if lo <= at && at + |data| <= hi {
      var a, b := Spliced(s, at, data)[lo..hi], Spliced(s[lo..hi], at - lo, data);
      forall i | 0 <= i < hi - lo
        ensures a[i] == b[i]
      {
        SplicedAt(s, at, data, lo + i);
        SplicedAt(s[lo..hi], at - lo, data, i);
      }
    }
    if at + |data| <= lo || hi <= at {
      var a := Spliced(s, at, data)[lo..hi];
      forall i | 0 <= i < hi - lo
        ensures a[i] == s[lo..hi][i]
      {
        SplicedAt(s, at, data, lo + i);
      }
    }
  }

  lemma SplicedAt(s: seq<u8>, k: nat, t: seq<u8>, i: nat)
    requires k + |t| <= |s| && i < |s|
    ensures Spliced(s, k, t)[i] == if k <= i < k + |t| then t[i - k] else s[i]
  {
  }

  lemma JoinSlices(s: seq<u8>, a: nat, b: nat, c: nat)
    requires a <= b <= c <= |s|
    ensures s[a..b] + s[b..c] == s[a..c]
  {
  }

  lemma SliceOfSlice(s: seq<u8>, lo: nat, hi: nat, k: nat, n: nat)
    requires lo + k + n <= hi <= |s|
    ensures s[lo + k..][..n] == s[lo..hi][k..k + n]
  {
    var a, b := s[lo + k..][..n], s[lo..hi][k..k + n];
    forall i | 0 <= i < n
      ensures a[i] == b[i]
    {
      assert s[lo + k..][i] == s[lo + k + i] == s[lo..hi][k + i];
    }
  }
}
