/** Linear memory: accesses of up to four bytes that may cross a page, over a flat array of
    physical bytes. */
module LinearMemory {
  import opened MachineInts
  import opened ByteSequences

  const MEM_SIZE: nat := 0x800_0000
  const PAGE_SIZE: nat := 0x1000

  type PageNumber = x: int | 0 <= x < 0x10_0000

  /** Address translation: the identity without paging, otherwise any map from pages to
      frames, which keeps the offset within the page. */
  datatype Mmu = Mmu(paging: bool, frame: PageNumber -> PageNumber)
  {
    function Translate(la: u32): u32
    {
      if paging then frame(la / PAGE_SIZE) * PAGE_SIZE + la % PAGE_SIZE else la
    }

    /** The address check of the code, which also refuses the last byte of memory. */
    predicate InRam(la: u32, len: nat)
    {
      forall i: nat {:trigger Next(la, i)} :: i < len ==> Translate(Next(la, i)) + 1 < MEM_SIZE
    }
  }

  /** The linear address i bytes on, wrapping at 2^32. */
  function Next(la: u32, i: nat): u32 { (la + i) % 0x1_0000_0000 }

  // ----- little-endian numbers -----

  function Compose(s: seq<u8>): nat
  {
    if s == [] then 0 else s[0] + 0x100 * Compose(s[1..])
  }

  function Bytes(data: nat, len: nat): (s: seq<u8>)
    ensures |s| == len
  {
    if len == 0 then [] else [data % 0x100] + Bytes(data / 0x100, len - 1)
  }

  /** The k low bytes of data, and the rest. */
  function LowBytes(data: nat, k: nat): nat
  {
    if k == 0 then 0 else data % 0x100 + 0x100 * LowBytes(data / 0x100, k - 1)
  }

  function HighBytes(data: nat, k: nat): nat
  {
    if k == 0 then data else HighBytes(data / 0x100, k - 1)
  }

  lemma {:induction false} ComposeBytes(data: nat, len: nat)
    ensures Compose(Bytes(data, len)) == data % Pow2(8 * len)
  {
    if len > 0 {
      ComposeBytes(data / 0x100, len - 1);
      Pow2Add(8, 8 * (len - 1));
      assert Pow2(8) == 0x100;
      assert Bytes(data, len)[1..] == Bytes(data / 0x100, len - 1);
      ModSplit(data, Pow2(8 * (len - 1)));
    }
  }

  /** Byte i of a number, and of the number that bytes make, is the digit of weight 2^(8i). */
  lemma {:induction false} ByteAt(data: nat, len: nat, i: nat)
    requires i < len
    ensures Bytes(data, len)[i] == data / Pow2(8 * i) % 0x100
  {
    if i > 0 {
      ByteAt(data / 0x100, len - 1, i - 1);
      ShiftTwice(data, i);
    }
  }

  lemma ShiftTwice(x: nat, i: nat)
    requires i > 0
    ensures x / 0x100 / Pow2(8 * (i - 1)) == x / Pow2(8 * i)
  {
    var p := Pow2(8 * (i - 1));
    Pow2Add(8, 8 * (i - 1));
    assert Pow2(8) == 0x100;
    var y, q := x / 0x100, x / 0x100 / p;
    assert y == q * p + y % p;
    MulSwaps(q, 0x100, p);
    DivisionIs(x, 0x100 * p, q, 0x100 * (y % p) + x % 0x100);
  }

  lemma {:induction false} ComposedByteAt(s: seq<u8>, i: nat)
    requires i < |s|
    ensures Compose(s) / Pow2(8 * i) % 0x100 == s[i]
  {
    var rest := Compose(s[1..]);
    ComposeIsFirst(s);
    hide Compose;
    assert Compose(s) / 0x100 == rest && Compose(s) % 0x100 == s[0];
    if i > 0 {
      ComposedByteAt(s[1..], i - 1);
      ShiftTwice(Compose(s), i);
    }
  }

  lemma {:induction false} ComposedBelow(s: seq<u8>)
    ensures Compose(s) < Pow2(8 * |s|)
  {
    if s != [] {
      ComposedBelow(s[1..]);
      Pow2Add(8, 8 * (|s| - 1));
      assert Pow2(8) == 0x100;
    }
  }

  lemma ModSplit(x: nat, p: pos)
    ensures x % 0x100 + 0x100 * (x / 0x100 % p) == x % (0x100 * p)
  {
    var q := x / 0x100 / p;
    assert x / 0x100 == q * p + x / 0x100 % p;
    MulSwaps(q, 0x100, p);
    DivisionIs(x, 0x100 * p, q, x % 0x100 + 0x100 * (x / 0x100 % p));
  }

  // ----- what an access means, byte by byte -----

  /** The bytes at consecutive linear addresses, each translated on its own. */
  function LinearBytes(mem: seq<u8>, mmu: Mmu, la: u32, len: nat): (s: seq<u8>)
    requires |mem| == MEM_SIZE && mmu.InRam(la, len)
    ensures |s| == len
  {
    seq(len, i requires 0 <= i < len => mem[mmu.Translate(Next(la, i))])
  }

  /** Memory after writing len bytes one at a time, each translated on its own. */
  function Stored(mem: seq<u8>, mmu: Mmu, la: u32, len: nat, data: nat): (m: seq<u8>)
    requires |mem| == MEM_SIZE && mmu.InRam(la, len)
    ensures |m| == MEM_SIZE
    decreases len
  {
    if len == 0 then mem
    else
      assert Next(la, 0) == la;
      assert mmu.InRam(Next(la, 1), len - 1) by { InRamTail(mmu, la, len, 1); }
      Stored(mem[mmu.Translate(la) := data % 0x100], mmu, Next(la, 1), len - 1, data / 0x100)
  }

  lemma InRamTail(mmu: Mmu, la: u32, len: nat, k: nat)
    requires mmu.InRam(la, len) && k <= len
    ensures mmu.InRam(la, k) && mmu.InRam(Next(la, k), len - k)
  {
    forall i: nat | i < len - k
      ensures mmu.Translate(Next(Next(la, k), i)) + 1 < MEM_SIZE
    {
      NextTwice(la, k, i);
      assert mmu.Translate(Next(la, k + i)) + 1 < MEM_SIZE;
    }
  }

  /** Two accesses in a row. */
  lemma {:induction false} StoredInTwo(mem: seq<u8>, mmu: Mmu, la: u32, k: nat, len: nat, data: nat)
    requires |mem| == MEM_SIZE && mmu.InRam(la, len) && k <= len
    ensures mmu.InRam(la, k) && mmu.InRam(Next(la, k), len - k)
    ensures Stored(mem, mmu, la, len, data)
            == Stored(Stored(mem, mmu, la, k, LowBytes(data, k)), mmu, Next(la, k), len - k, HighBytes(data, k))
    decreases k
  {
    InRamTail(mmu, la, len, k);
    assert Next(la, 0) == la;
    if k > 0 {
      InRamTail(mmu, la, len, 1);
      NextTwice(la, 1, k - 1);
      LowBytesSplit(data, k);
      StoredInTwo(mem[mmu.Translate(la) := data % 0x100], mmu, Next(la, 1), k - 1, len - 1, data / 0x100);
    }
  }

  lemma LowBytesSplit(data: nat, k: nat)
    requires k > 0
    ensures LowBytes(data, k) % 0x100 == data % 0x100 && LowBytes(data, k) / 0x100 == LowBytes(data / 0x100, k - 1)
  {
  }

  lemma NextTwice(la: u32, i: nat, j: nat)
    ensures Next(Next(la, i), j) == Next(la, i + j)
  {
  }

  /** Bytes of other physical addresses are left alone. */
  lemma {:induction false} StoredElsewhere(mem: seq<u8>, mmu: Mmu, la: u32, len: nat, data: nat, p: nat)
    requires |mem| == MEM_SIZE && mmu.InRam(la, len) && p < MEM_SIZE
    requires forall i: nat {:trigger Next(la, i)} :: i < len ==> mmu.Translate(Next(la, i)) != p
    ensures Stored(mem, mmu, la, len, data)[p] == mem[p]
    decreases len
  {
    if len > 0 {
      assert Next(la, 0) == la;
      InRamTail(mmu, la, len, 1);
      forall i: nat | i < len - 1
        ensures mmu.Translate(Next(Next(la, 1), i)) != p
      {
        NextTwice(la, 1, i);
      }
      StoredElsewhere(mem[mmu.Translate(la) := data % 0x100], mmu, Next(la, 1), len - 1, data / 0x100, p);
    }
  }

  /** Addresses less than a page apart are translated to different bytes, even when their
      pages share a frame or the second one has wrapped around. */
  lemma TranslateDistinct(mmu: Mmu, la: u32, i: nat, j: nat)
    requires i < j < i + PAGE_SIZE
    ensures mmu.Translate(Next(la, i)) != mmu.Translate(Next(la, j))
  {
    assert Next(la, j) == Next(Next(la, i), j - i) by { NextTwice(la, i, j - i); }
    OffsetsDiffer(Next(la, i), j - i);
    OffsetKept(mmu, Next(la, i));
    OffsetKept(mmu, Next(la, j));
  }

  lemma OffsetsDiffer(la: u32, k: nat)
    requires 0 < k < PAGE_SIZE
    ensures Next(la, k) % PAGE_SIZE != la % PAGE_SIZE
  {
  }

  lemma OffsetKept(mmu: Mmu, la: u32)
    ensures mmu.Translate(la) % PAGE_SIZE == la % PAGE_SIZE
  {
  }

  /** Reading back what was written gives the data, cut to the size of the access. */
  lemma {:induction false} ReadAfterWrite(mem: seq<u8>, mmu: Mmu, la: u32, len: nat, data: nat)
    requires |mem| == MEM_SIZE && len <= 4 && mmu.InRam(la, len)
    ensures LinearBytes(Stored(mem, mmu, la, len, data), mmu, la, len) == Bytes(data, len)
    ensures Compose(LinearBytes(Stored(mem, mmu, la, len, data), mmu, la, len)) == data % Pow2(8 * len)
    decreases len
  {
    ComposeBytes(data, len);
    if len > 0 {
      assert Next(la, 0) == la;
      InRamTail(mmu, la, len, 1);
      var mem' := mem[mmu.Translate(la) := data % 0x100];
      var after := Stored(mem, mmu, la, len, data);
      ReadAfterWrite(mem', mmu, Next(la, 1), len - 1, data / 0x100);
      forall i: nat | i < len - 1
        ensures mmu.Translate(Next(Next(la, 1), i)) != mmu.Translate(la)
      {
        NextTwice(la, 1, i);
        TranslateDistinct(mmu, la, 0, i + 1);
      }
      StoredElsewhere(mem', mmu, Next(la, 1), len - 1, data / 0x100, mmu.Translate(la));
      BytesTail(after, mmu, la, len);
    }
  }

  lemma BytesTail(mem: seq<u8>, mmu: Mmu, la: u32, len: nat)
    requires |mem| == MEM_SIZE && len > 0 && mmu.InRam(la, len)
    ensures mmu.InRam(Next(la, 1), len - 1)
    ensures LinearBytes(mem, mmu, la, len) == [mem[mmu.Translate(Next(la, 0))]] + LinearBytes(mem, mmu, Next(la, 1), len - 1)
  {
    InRamTail(mmu, la, len, 1);
    assert Next(la, 0) == la;
    forall i: nat | i < len - 1
      ensures Next(Next(la, 1), i) == Next(la, i + 1)
    {
      NextTwice(la, 1, i);
    }
  }

  // ----- the same by places: with paging the frame of each byte's own page -----

  lemma ReadMeans(mem: seq<u8>, mmu: Mmu, la: u32, len: nat)
    requires |mem| == MEM_SIZE && mmu.InRam(la, len)
    ensures var r := Compose(LinearBytes(mem, mmu, la, len));
            && r < Pow2(8 * len)
            && forall i: nat {:trigger Next(la, i)} :: i < len ==>
                 mem[if mmu.paging then mmu.frame(Next(la, i) / PAGE_SIZE) * PAGE_SIZE + Next(la, i) % PAGE_SIZE
                     else Next(la, i)] == r / Pow2(8 * i) % 0x100
  {
    var s := LinearBytes(mem, mmu, la, len);
    ComposedBelow(s);
    forall i: nat | i < len
      ensures mem[mmu.Translate(Next(la, i))] == Compose(s) / Pow2(8 * i) % 0x100
    {
      ComposedByteAt(s, i);
    }
    hide Compose, Next;
  }

  lemma WriteMeans(mem: seq<u8>, mmu: Mmu, la: u32, len: nat, data: nat)
    requires |mem| == MEM_SIZE && len <= 4 && mmu.InRam(la, len)
    ensures var m := Stored(mem, mmu, la, len, data);
            && (forall i: nat {:trigger Next(la, i)} :: i < len ==>
                  m[if mmu.paging then mmu.frame(Next(la, i) / PAGE_SIZE) * PAGE_SIZE + Next(la, i) % PAGE_SIZE
                    else Next(la, i)] == data / Pow2(8 * i) % 0x100)
            && (forall p :: 0 <= p < MEM_SIZE && m[p] != mem[p] ==>
                  exists i: nat :: i < len &&
                    p == if mmu.paging then mmu.frame(Next(la, i) / PAGE_SIZE) * PAGE_SIZE + Next(la, i) % PAGE_SIZE
                         else Next(la, i))
  {
    var m := Stored(mem, mmu, la, len, data);
    ReadAfterWrite(mem, mmu, la, len, data);
    forall i: nat | i < len
      ensures m[mmu.Translate(Next(la, i))] == data / Pow2(8 * i) % 0x100
    {
      ByteAt(data, len, i);
      assert LinearBytes(m, mmu, la, len)[i] == Bytes(data, len)[i];
    }
    hide Stored, Bytes, LinearBytes, Next, Compose;
    forall p | 0 <= p < MEM_SIZE && m[p] != mem[p]
      ensures exists i: nat :: i < len && p == mmu.Translate(Next(la, i))
    {
      if forall i: nat {:trigger Next(la, i)} :: i < len ==> mmu.Translate(Next(la, i)) != p {
        StoredElsewhere(mem, mmu, la, len, data, p);
        assert false;
      }
    }
  }

  // ----- within one page -----

  predicate CrossesPage(la: u32, len: pos) { la / PAGE_SIZE != Next(la, len - 1) / PAGE_SIZE }

  lemma SamePage(mmu: Mmu, la: u32, len: pos, i: nat)
    requires len <= 4 && !CrossesPage(la, len) && i < len
    ensures mmu.Translate(Next(la, i)) == mmu.Translate(la) + i
  {
  }

  lemma BytesInPage(mem: seq<u8>, mmu: Mmu, la: u32, len: pos)
    requires |mem| == MEM_SIZE && len <= 4 && mmu.InRam(la, len) && !CrossesPage(la, len)
    ensures mmu.Translate(la) + len < MEM_SIZE
    ensures LinearBytes(mem, mmu, la, len) == mem[mmu.Translate(la)..mmu.Translate(la) + len]
  {
    SamePage(mmu, la, len, len - 1);
    assert mmu.Translate(Next(la, len - 1)) + 1 < MEM_SIZE;
    forall i: nat | i < len
      ensures mmu.Translate(Next(la, i)) == mmu.Translate(la) + i
    {
      SamePage(mmu, la, len, i);
    }
  }

  lemma {:induction false} StoredInPage(mem: seq<u8>, mmu: Mmu, la: u32, len: nat, data: nat)
    requires |mem| == MEM_SIZE && 1 <= len <= 4 && mmu.InRam(la, len) && !CrossesPage(la, len)
    ensures mmu.Translate(la) + len < MEM_SIZE
    ensures Stored(mem, mmu, la, len, data) == Spliced(mem, mmu.Translate(la), Bytes(data, len))
    decreases len
  {
    var p := mmu.Translate(la);
    BytesInPage(mem, mmu, la, len);
    FirstByte(mem, mmu, la, len, data);
    hide Stored, Bytes, LinearBytes, Spliced;
    if len > 1 {
      SamePage(mmu, la, len, 1);
      NoCrossingLater(la, len);
      hide CrossesPage, Next;
      StoredInPage(mem[p := data % 0x100], mmu, Next(la, 1), len - 1, data / 0x100);
      SplicedTail(mem, p, data % 0x100, Bytes(data / 0x100, len - 1));
    } else {
      SplicedByte(mem, p, data % 0x100);
    }
  }

  lemma FirstByte(mem: seq<u8>, mmu: Mmu, la: u32, len: nat, data: nat)
    requires |mem| == MEM_SIZE && len >= 1 && mmu.InRam(la, len)
    ensures mmu.Translate(la) < MEM_SIZE && mmu.InRam(Next(la, 1), len - 1)
    ensures var mem' := mem[mmu.Translate(la) := data % 0x100];
            && Stored(mem, mmu, la, len, data) == Stored(mem', mmu, Next(la, 1), len - 1, data / 0x100)
            && (len == 1 ==> Stored(mem, mmu, la, len, data) == mem')
    ensures Bytes(data, len) == [data % 0x100] + Bytes(data / 0x100, len - 1)
    ensures len == 1 ==> Bytes(data, len) == [data % 0x100]
  {
    assert Next(la, 0) == la;
    InRamTail(mmu, la, len, 1);
  }

  lemma SplicedByte(mem: seq<u8>, p: nat, x: u8)
    requires p < |mem|
    ensures Spliced(mem, p, [x]) == mem[p := x]
  {
  }

  lemma NoCrossingLater(la: u32, len: nat)
    requires 2 <= len <= 4 && !CrossesPage(la, len)
    ensures !CrossesPage(Next(la, 1), len - 1)
  {
  }

  lemma SplicedTail(mem: seq<u8>, p: nat, x: u8, b: seq<u8>)
    requires p + 1 + |b| <= |mem|
    ensures Spliced(mem[p := x], p + 1, b) == Spliced(mem, p, [x] + b)
  {
  }

  // ----- across pages -----

  function NextPage(la: u32): u32 { Wrap32(la as int + 4095) / 4096 * 4096 }

  lemma CrossingPoint(la: u32, len: pos)
    requires len <= 4 && CrossesPage(la, len)
    ensures var low := Wrap32(NextPage(la) as int - la);
            && 1 <= low < len && Next(la, low) == NextPage(la)
            && !CrossesPage(la, low) && !CrossesPage(NextPage(la), len - low)
  {
    var rest := PAGE_SIZE - la % PAGE_SIZE;
    assert 1 <= rest < len;
    PageEnd(la, rest);
    hide NextPage;
  }

  /** rest bytes before the end of its page, an address has the next page that far on. */
  lemma PageEnd(la: u32, rest: nat)
    requires 1 <= rest < 4 && la % PAGE_SIZE == PAGE_SIZE - rest
    ensures NextPage(la) == Next(la, rest) && NextPage(la) % PAGE_SIZE == 0
    ensures Wrap32(NextPage(la) as int - la) == rest
  {
    var page := la / PAGE_SIZE;
    assert la == page * PAGE_SIZE + (PAGE_SIZE - rest);
    if page == 0xf_ffff {
      assert Wrap32(la as int + 4095) == 4095 - rest;
    } else {
      assert Wrap32(la as int + 4095) == (page + 1) * PAGE_SIZE + (4095 - rest);
    }
  }

  function ShiftLeft(x: nat, k: nat): nat
  {
    if k == 0 then x else 0x100 * ShiftLeft(x, k - 1)
  }

  lemma {:induction false} ComposeConcat(a: seq<u8>, b: seq<u8>)
    ensures Compose(a + b) == Compose(a) + ShiftLeft(Compose(b), |a|)
  {
    if a == [] {
      assert a + b == b;
    } else {
      assert (a + b)[1..] == a[1..] + b;
      ComposeConcat(a[1..], b);
    }
  }

  lemma ComposeBound(s: seq<u8>)
    requires |s| <= 4
    ensures Compose(s) < (if |s| == 0 then 1 else if |s| == 1 then 0x100 else if |s| == 2 then 0x1_0000
                          else if |s| == 3 then 0x100_0000 else 0x1_0000_0000)
  {
    if s != [] {
      ComposeBound(s[1..]);
    }
  }

  lemma BytesInTwo(mem: seq<u8>, mmu: Mmu, la: u32, len: nat, k: nat)
    requires |mem| == MEM_SIZE && mmu.InRam(la, len) && k <= len
    ensures mmu.InRam(la, k) && mmu.InRam(Next(la, k), len - k)
    ensures LinearBytes(mem, mmu, la, len)
            == LinearBytes(mem, mmu, la, k) + LinearBytes(mem, mmu, Next(la, k), len - k)
  {
    InRamTail(mmu, la, len, k);
    forall i: nat | i < len - k
      ensures Next(Next(la, k), i) == Next(la, k + i)
    {
      NextTwice(la, k, i);
    }
  }

  /** x << (8 * k) in 32 bits, and x >> (8 * k) and the mask below it. */
  function Shl32(x: u32, k: nat): u32
    requires 1 <= k <= 3
  {
    (if k == 1 then x * 0x100 else if k == 2 then x * 0x1_0000 else x * 0x100_0000) % 0x1_0000_0000
  }

  function Shr32(x: u32, k: nat): u32
    requires 1 <= k <= 3
  {
    if k == 1 then x / 0x100 else if k == 2 then x / 0x1_0000 else x / 0x100_0000
  }

  function Mask32(x: u32, k: nat): u32
    requires 1 <= k <= 3
  {
    if k == 1 then x % 0x100 else if k == 2 then x % 0x1_0000 else x % 0x100_0000
  }

  lemma ShiftAndMask(x: u32, k: nat)
    requires 1 <= k <= 3
    ensures Shr32(x, k) == HighBytes(x, k) && Mask32(x, k) == LowBytes(x, k)
  {
  }

  lemma JoinHalves(low: seq<u8>, high: seq<u8>)
    requires 1 <= |low| <= 3 && |low| + |high| <= 4
    ensures Compose(high) < 0x1_0000_0000 && Compose(low + high) < 0x1_0000_0000
    ensures Shl32(Compose(high), |low|) + Compose(low) == Compose(low + high)
  {
    ComposeConcat(low, high);
    ComposeBound(low);
    ComposeBound(high);
    ComposeBound(low + high);
    hide Compose;
    ShiftFits(Compose(high), |low|, |high|);
  }

  lemma ShiftFits(x: nat, k: nat, n: nat)
    requires 1 <= k <= 3 && k + n <= 4
    requires x < (if n == 0 then 1 else if n == 1 then 0x100 else if n == 2 then 0x1_0000 else 0x100_0000)
    ensures Shl32(x, k) == ShiftLeft(x, k)
  {
    assert ShiftLeft(x, 1) == 0x100 * x && ShiftLeft(x, 2) == 0x1_0000 * x && ShiftLeft(x, 3) == 0x100_0000 * x;
  }

  lemma ComposeFour(bytes: seq<u8>, len: nat)
    requires |bytes| == 4 && len <= 4 && forall k :: len <= k < 4 ==> bytes[k] == 0
    ensures Compose(bytes[..len]) == bytes[0] as int + 0x100 * bytes[1] as int + 0x1_0000 * bytes[2] as int
                                     + 0x100_0000 * bytes[3] as int
  {
    if len > 0 {
      ComposeIsFirst(bytes[..len]);
      if len > 1 {
        ComposeIsFirst(bytes[1..len]);
        if len > 2 {
          ComposeIsFirst(bytes[2..len]);
          if len > 3 {
            ComposeIsFirst(bytes[3..len]);
          }
        }
      }
    }
  }

  lemma ComposeIsFirst(s: seq<u8>)
    requires s != []
    ensures Compose(s) == s[0] + 0x100 * Compose(s[1..])
  {
  }

  class Memory {
    const hwMem: array<u8>
    var mmu: Mmu

    ghost predicate Valid()
      reads this
    {
      hwMem.Length == MEM_SIZE
    }

    /** Copies len bytes over the low bytes of a zero: the number they make, low byte first. */
    method HwMemRead(paddr: u32, len: nat) returns (ret: u32)
      requires Valid() && len <= 4 && paddr + len < MEM_SIZE
      ensures ret == Compose(hwMem[paddr..paddr + len])
    {
      var bytes: seq<u8> := [0, 0, 0, 0];
      for i := 0 to len
        invariant |bytes| == 4 && bytes[..i] == hwMem[paddr..paddr + i]
        invariant forall k :: i <= k < 4 ==> bytes[k] == 0
      {
        bytes := bytes[i := hwMem[paddr + i]];
      }
      ret := bytes[0] as int + 0x100 * bytes[1] as int + 0x1_0000 * bytes[2] as int + 0x100_0000 * bytes[3] as int;
      ComposeFour(bytes, len);
    }

    method HwMemWrite(paddr: u32, len: nat, data: u32)
      requires Valid() && len <= 4 && paddr + len < MEM_SIZE
      modifies hwMem
      ensures hwMem[..] == Spliced(old(hwMem[..]), paddr, Bytes(data, len))
    {
      var bytes := Bytes(data, len);
      forall i | 0 <= i < len {
        hwMem[paddr + i] := bytes[i];
      }
    }

    /** A read of up to four bytes is the little-endian number written by the bytes at the
        consecutive linear addresses, wherever each of them is. */
    method LaddrRead(la: u32, len: nat) returns (r: u32)
      requires Valid() && 1 <= len <= 4 && mmu.InRam(la, len)
      ensures r == Compose(LinearBytes(hwMem[..], mmu, la, len))
      ensures r < Pow2(8 * len)
      ensures forall i: nat {:trigger Next(la, i)} :: i < len ==>
                hwMem[if mmu.paging then mmu.frame(Next(la, i) / PAGE_SIZE) * PAGE_SIZE + Next(la, i) % PAGE_SIZE
                      else Next(la, i)] == r / Pow2(8 * i) % 0x100
      decreases len
    {
      hide Compose, Next;
      ReadMeans(hwMem[..], mmu, la, len);
      ghost var bytes := LinearBytes(hwMem[..], mmu, la, len);
      if CrossesPage(la, len) {
        CrossingPoint(la, len);
        var lowLen: nat := Wrap32(NextPage(la) as int - la);
        BytesInTwo(hwMem[..], mmu, la, len, lowLen);
        JoinHalves(LinearBytes(hwMem[..], mmu, la, lowLen), LinearBytes(hwMem[..], mmu, NextPage(la), len - lowLen));
        var low := LaddrRead(la, lowLen);
        var high := LaddrRead(NextPage(la), len - lowLen);
        r := Shl32(high, lowLen) + low;
      } else {
        BytesInPage(hwMem[..], mmu, la, len);
        var paddr := mmu.Translate(la);
        r := HwMemRead(paddr, len);
        assert hwMem[..][paddr..paddr + len] == hwMem[paddr..paddr + len];
      }
    }

    /** A write of up to four bytes is the same as writing its bytes one at a time at the
        consecutive linear addresses, and changes nothing else. */
    method LaddrWrite(la: u32, len: nat, data: u32)
      requires Valid() && 1 <= len <= 4 && mmu.InRam(la, len)
      modifies hwMem
      ensures hwMem[..] == Stored(old(hwMem[..]), mmu, la, len, data)
      ensures forall i: nat {:trigger Next(la, i)} :: i < len ==>
                hwMem[if mmu.paging then mmu.frame(Next(la, i) / PAGE_SIZE) * PAGE_SIZE + Next(la, i) % PAGE_SIZE
                      else Next(la, i)] == data / Pow2(8 * i) % 0x100
      decreases len
    {
      hide Stored, Next;
      ghost var mem := hwMem[..];
      WriteMeans(mem, mmu, la, len, data);
      if CrossesPage(la, len) {
        CrossingPoint(la, len);
        var lowLen: nat := Wrap32(NextPage(la) as int - la);
        ShiftAndMask(data, lowLen);
        StoredInTwo(mem, mmu, la, lowLen, len, data);
        LaddrWrite(la, lowLen, Mask32(data, lowLen));
        LaddrWrite(NextPage(la), len - lowLen, Shr32(data, lowLen));
      } else {
        StoredInPage(mem, mmu, la, len, data);
        HwMemWrite(mmu.Translate(la), len, data);
      }
    }
  }
}
