/** The kernel's page tables: the nested loops that fill them, the user directory, and the
    video mapping, against the two-level walk of 32-bit paging. */
module Paging {
  import opened MachineInts

  const PAGE_SIZE: nat := 0x1000
  const NR_PDE: nat := 1024
  const NR_PTE: nat := 1024
  const PT_SIZE: nat := 0x40_0000
  const PHY_MEM: nat := 0x800_0000
  const KOFFSET: nat := 0xC000_0000
  const SCR_SIZE: nat := 64000
  const VMEM_ADDR: nat := 0xa_0000

  /** A directory or table entry: bit 0 is the present bit, the top 20 bits the frame. */
  predicate Present(e: u32) { e % 2 == 1 }
  function FrameOf(e: u32): nat { e / PAGE_SIZE }
  function MakeEntry(addr: u32): u32 { addr / PAGE_SIZE * PAGE_SIZE + 0x7 }
  function WithFrame(e: u32, f: nat): u32
    requires f < 0x10_0000
  {
    e % PAGE_SIZE + f * PAGE_SIZE
  }
  function WithPresent(e: u32, present: bool): u32 { e - e % 2 + (if present then 1 else 0) }

  /** Where the tables lie in physical memory, in frames. */
  datatype Layout = Layout(kernelTables: nat, videoTable: nat)
  {
    predicate Valid()
    {
      && kernelTables + 32 <= 0x10_0000 && videoTable < 0x10_0000
      && !(kernelTables <= videoTable < kernelTables + 32)
    }
  }

  /** Elsewhere: the entry leads to a frame that is none of the tables modelled here. */
  datatype Translation = Unmapped | Mapped(pa: u32) | Elsewhere

  /** The two-level walk (section 4.3 of Intel SDM Volume 3A). */
  function Walk(l: Layout, dir: seq<u32>, ktab: seq<u32>, vtab: seq<u32>, va: u32): Translation
    requires |dir| == NR_PDE && |ktab| == 32 * NR_PTE && |vtab| == NR_PTE
  {
    var pde, index := dir[va / PT_SIZE], va / PAGE_SIZE % NR_PTE;
    if !Present(pde) then Unmapped
    else if l.kernelTables <= FrameOf(pde) < l.kernelTables + 32 then
      Resolve(ktab[(FrameOf(pde) - l.kernelTables) * NR_PTE + index], va)
    else if FrameOf(pde) == l.videoTable then Resolve(vtab[index], va)
    else Elsewhere
  }

  function Resolve(pte: u32, va: u32): Translation
  {
    if Present(pte) then Mapped(FrameOf(pte) * PAGE_SIZE + va % PAGE_SIZE) else Unmapped
  }

  /** Physical memory at its own address and again at 3 GiB, and nothing else. */
  function KernelMapping(va: u32): Translation
  {
    if va < PHY_MEM then Mapped(va)
    else if KOFFSET <= va < KOFFSET + PHY_MEM then Mapped(va - KOFFSET)
    else Unmapped
  }

  /** What a user process sees once its tables are set up. */
  function UserMapping(va: u32): Translation
  {
    if va >= KOFFSET then KernelMapping(va) else Unmapped
  }

  predicate InVideo(va: u32) { VMEM_ADDR <= va < VMEM_ADDR + 0x1_0000 }

  // ----- table contents -----

  predicate KernelTable(ktab: seq<u32>, n: nat)
    requires n <= |ktab|
  {
    forall k :: 0 <= k < n ==> k < 0x10_0000 && ktab[k] == k * PAGE_SIZE + 7
  }

  predicate KernelDirectory(l: Layout, dir: seq<u32>, n: nat)
    requires |dir| == NR_PDE && n <= 32 && l.Valid()
  {
    forall j :: 0 <= j < NR_PDE ==>
      dir[j] == if j < n then (l.kernelTables + j) * PAGE_SIZE + 7
                else if 768 <= j < 768 + n then (l.kernelTables + (j - 768)) * PAGE_SIZE + 7
                else 0
  }

  lemma KernelWalk(l: Layout, dir: seq<u32>, ktab: seq<u32>, vtab: seq<u32>, va: u32)
    requires l.Valid() && |dir| == NR_PDE && |ktab| == 32 * NR_PTE && |vtab| == NR_PTE
    requires KernelDirectory(l, dir, 32) && KernelTable(ktab, 32 * NR_PTE)
    ensures Walk(l, dir, ktab, vtab, va) == KernelMapping(va)
  {
    var j, index := va / PT_SIZE, va / PAGE_SIZE % NR_PTE;
    SplitAddress(va);
    EntryParts(0);
    if j < 32 || 768 <= j < 800 {
      var t := if j < 32 then j else j - 768;
      EntryParts(l.kernelTables + t);
      EntryParts(t * NR_PTE + index);
      assert dir[j] == (l.kernelTables + t) * PAGE_SIZE + 7;
      assert ktab[t * NR_PTE + index] == (t * NR_PTE + index) * PAGE_SIZE + 7;
      hide Present, FrameOf, KernelTable, KernelDirectory;
    }
  }

  lemma SplitAddress(va: u32)
    ensures va / PT_SIZE < NR_PDE
    ensures va == va / PT_SIZE * PT_SIZE + va / PAGE_SIZE % NR_PTE * PAGE_SIZE + va % PAGE_SIZE
  {
  }

  lemma EntryParts(f: nat)
    requires f < 0x10_0000
    ensures var e: u32 := f * PAGE_SIZE + 7; Present(e) && FrameOf(e) == f
    ensures !Present(0)
  {
  }

  class Tables {
    const layout: Layout
    const kpdir: array<u32>
    const kptable: array<u32>
    const updir: array<u32>
    const newTable: array<u32>
    const kpdirPa: u32
    const updirPa: u32
    var cr3: u32
    var ucr3: u32
    var paging: bool

    ghost predicate Valid()
    {
      && layout.Valid()
      && kpdir.Length == NR_PDE && updir.Length == NR_PDE && newTable.Length == NR_PTE
      && kptable.Length == 32 * NR_PTE
      && kpdir != kptable && kpdir != updir && kpdir != newTable
      && kptable != updir && kptable != newTable && updir != newTable
    }

    ghost function KernelTranslation(va: u32): Translation
      requires Valid()
      reads kpdir, kptable, newTable
    {
      Walk(layout, kpdir[..], kptable[..], newTable[..], va)
    }

    ghost function UserTranslation(va: u32): Translation
      requires Valid()
      reads updir, kptable, newTable
    {
      Walk(layout, updir[..], kptable[..], newTable[..], va)
    }

    method InitPage()
      requires Valid()
      modifies this, kpdir, kptable
      ensures KernelDirectory(layout, kpdir[..], 32) && KernelTable(kptable[..], 32 * NR_PTE)
      ensures forall va: u32 :: KernelTranslation(va) == KernelMapping(va)
      ensures paging && cr3 == kpdirPa / PAGE_SIZE * PAGE_SIZE
    {
      forall j | 0 <= j < NR_PDE {
        kpdir[j] := 0;
      }
      var pframeIdx, ptable := 0, 0;
      for pdirIdx := 0 to PHY_MEM / PT_SIZE
        invariant ptable == pdirIdx * NR_PTE && pframeIdx == ptable
        invariant KernelTable(kptable[..], ptable)
        invariant KernelDirectory(layout, kpdir[..], pdirIdx)
      {
        var address := (layout.kernelTables * PAGE_SIZE) + ptable * 4;
        kpdir[pdirIdx] := MakeEntry(address);
        kpdir[pdirIdx + KOFFSET / PT_SIZE] := MakeEntry(address);
        for ptableIdx := 0 to NR_PTE
          invariant ptable == pdirIdx * NR_PTE + ptableIdx && pframeIdx == ptable
          invariant KernelTable(kptable[..], ptable)
          invariant KernelDirectory(layout, kpdir[..], pdirIdx + 1)
        {
          kptable[ptable] := MakeEntry(Wrap32(pframeIdx * 0x1000));
          pframeIdx := pframeIdx + 1;
          ptable := ptable + 1;
        }
      }
      cr3 := kpdirPa / PAGE_SIZE * PAGE_SIZE;
      paging := true;
      forall va: u32
        ensures KernelTranslation(va) == KernelMapping(va)
      {
        KernelWalk(layout, kpdir[..], kptable[..], newTable[..], va);
      }
    }

    method InitMm()
      requires Valid() && KernelDirectory(layout, kpdir[..], 32)
      modifies this, updir
      ensures forall va: u32 :: UserTranslation(va) == if va >= KOFFSET then KernelTranslation(va) else Unmapped
      ensures forall j :: 0 <= j < NR_PDE ==> updir[j] == if 768 <= j < 800 then kpdir[j] else 0
      ensures forall va: u32 :: Walk(layout, updir[..], kptable[..], newTable[..], va)
                                == if va < 0xC000_0000 then Unmapped else KernelTranslation(va)
      ensures paging == old(paging) && cr3 == old(cr3)
      ensures ucr3 == updirPa / 0x400 * 0x400 && ucr3 / PAGE_SIZE == updirPa / PAGE_SIZE
    {
      forall j | 0 <= j < NR_PDE {
        updir[j] := 0;
      }
      forall j | KOFFSET / PT_SIZE <= j < KOFFSET / PT_SIZE + PHY_MEM / PT_SIZE {
        updir[j] := kpdir[j];
      }
      ucr3 := updirPa / 0x400 * 0x400;
      assert forall j :: 768 <= j < NR_PDE ==> updir[j] == kpdir[..][j];
    }

    /** The directory entry for the first 4 MiB is free or already leads to the video table,
        which no other entry uses. */
    ghost predicate VideoTableIsOurs()
      requires Valid()
      reads updir
    {
      && (Present(updir[0]) ==> FrameOf(updir[0]) == layout.videoTable)
      && forall j :: 0 < j < NR_PDE && Present(updir[j]) ==> FrameOf(updir[j]) != layout.videoTable
    }

    method CreateVideoMapping()
      requires Valid() && VideoTableIsOurs()
      modifies updir, newTable
      ensures VideoTableIsOurs()
      ensures updir[0] % 2 == 1 && updir[0] / 0x1000 == layout.videoTable
      ensures forall j :: 0 < j < NR_PDE ==> updir[j] == old(updir[j])
      ensures forall k :: 0xa0 <= k <= 0xaf ==> newTable[k] % 2 == 1 && newTable[k] / 0x1000 == k
      ensures forall va: u32 :: UserTranslation(va) == if InVideo(va) then Mapped(va) else old(UserTranslation(va))
    {
      var start, end := VMEM_ADDR, VMEM_ADDR + SCR_SIZE;
      var pageDirectoryEntry := start / PT_SIZE;
      assert pageDirectoryEntry == end / PT_SIZE == 0;
      ghost var dir, tab := updir[..], newTable[..];
      if !Present(updir[pageDirectoryEntry]) {
        for i := 0 to NR_PTE
          invariant newTable[..] == Cleared(tab, i)
          invariant updir[..] == dir
        {
          newTable[i] := WithPresent(newTable[i], false);
        }
        EntryMade(updir[pageDirectoryEntry], layout.videoTable);
        updir[pageDirectoryEntry] := WithFrame(updir[pageDirectoryEntry], layout.videoTable);
        updir[pageDirectoryEntry] := WithPresent(updir[pageDirectoryEntry], true);
      }
      ghost var before, dir' := newTable[..], updir[..];
      assert updir[..] == dir[0 := updir[0]];
      assert if Present(dir[0]) then before == tab else before == Cleared(tab, NR_PTE);
      var pageTableEntry := start / PAGE_SIZE % NR_PTE;
      while pageTableEntry <= end / PAGE_SIZE % NR_PTE
        invariant 0xa0 <= pageTableEntry <= 0xb0 && updir[..] == dir'
        invariant forall k :: 0 <= k < NR_PTE ==>
                    if 0xa0 <= k < pageTableEntry then Present(newTable[k]) && FrameOf(newTable[k]) == k
                    else newTable[k] == before[k]
        decreases 0xb0 - pageTableEntry
      {
        EntryMade(newTable[pageTableEntry], pageDirectoryEntry * 1024 + pageTableEntry);
        newTable[pageTableEntry] := WithFrame(newTable[pageTableEntry], pageDirectoryEntry * 1024 + pageTableEntry);
        newTable[pageTableEntry] := WithPresent(newTable[pageTableEntry], true);
        pageTableEntry := pageTableEntry + 1;
      }
      forall va: u32
        ensures UserTranslation(va) == if InVideo(va) then Mapped(va) else old(UserTranslation(va))
      {
        VideoWalk(layout, dir, updir[..], kptable[..], tab, newTable[..], va);
      }
    }

    /** The order in which the kernel sets up its tables and then a process's. */
    method SetUp()
      requires Valid()
      modifies this, kpdir, kptable, updir, newTable
      ensures forall va: u32 :: KernelTranslation(va) == KernelMapping(va)
      ensures forall va: u32 :: UserTranslation(va) == if InVideo(va) then Mapped(va) else UserMapping(va)
      ensures forall va: u32 :: Walk(layout, kpdir[..], kptable[..], newTable[..], va)
                                == if va < 0x800_0000 then Mapped(va)
                                   else if 0xC000_0000 <= va < 0xC800_0000 then Mapped(va - 0xC000_0000)
                                   else Unmapped
      ensures forall va: u32 :: Walk(layout, updir[..], kptable[..], newTable[..], va)
                                == if 0xa_0000 <= va < 0xb_0000 then Mapped(va)
                                   else if 0xC000_0000 <= va < 0xC800_0000 then Mapped(va - 0xC000_0000)
                                   else Unmapped
      ensures paging && cr3 == kpdirPa / PAGE_SIZE * PAGE_SIZE && ucr3 / PAGE_SIZE == updirPa / PAGE_SIZE
    {
      InitPage();
      InitMm();
      assert VideoTableIsOurs() by {
        forall j | 0 < j < NR_PDE && Present(updir[j])
          ensures FrameOf(updir[j]) != layout.videoTable
        {
          assert updir[j] == kpdir[..][j];
        }
      }
      CreateVideoMapping();
      forall va: u32
        ensures KernelTranslation(va) == KernelMapping(va)
      {
        KernelWalk(layout, kpdir[..], kptable[..], newTable[..], va);
      }
      forall va: u32
        ensures Walk(layout, kpdir[..], kptable[..], newTable[..], va) == KernelMapping(va)
        ensures Walk(layout, updir[..], kptable[..], newTable[..], va)
                == if InVideo(va) then Mapped(va) else UserMapping(va)
      {
        assert KernelTranslation(va) == KernelMapping(va);
        assert UserTranslation(va) == if InVideo(va) then Mapped(va) else UserMapping(va);
      }
    }
  }

  lemma EntryMade(e: u32, f: nat)
    requires f < 0x10_0000
    ensures var e' := WithPresent(WithFrame(e, f), true);
            Present(e') && FrameOf(e') == f
  {
  }

  /** The screen memory itself is covered. */
  lemma ScreenIsCovered(va: u32)
    requires VMEM_ADDR <= va < VMEM_ADDR + SCR_SIZE
    ensures InVideo(va)
  {
  }

  lemma VideoWalk(l: Layout, dir: seq<u32>, dir': seq<u32>, ktab: seq<u32>, tab: seq<u32>, tab': seq<u32>, va: u32)
    requires l.Valid() && |dir| == NR_PDE && |ktab| == 32 * NR_PTE && |tab| == |tab'| == NR_PTE
    requires |dir'| == NR_PDE && dir' == dir[0 := dir'[0]] && Present(dir'[0]) && FrameOf(dir'[0]) == l.videoTable
    requires Present(dir[0]) ==> FrameOf(dir[0]) == l.videoTable
    requires forall j :: 0 < j < NR_PDE && Present(dir[j]) ==> FrameOf(dir[j]) != l.videoTable
    requires forall k :: 0 <= k < NR_PTE ==>
               if 0xa0 <= k < 0xb0 then Present(tab'[k]) && FrameOf(tab'[k]) == k
               else if Present(dir[0]) then tab'[k] == tab[k] else !Present(tab'[k])
    ensures Walk(l, dir', ktab, tab', va) == if InVideo(va) then Mapped(va) else Walk(l, dir, ktab, tab, va)
  {
    var j, index := va / PT_SIZE, va / PAGE_SIZE % NR_PTE;
    InVideoByIndex(va);
    if j == 0 {
      if 0xa0 <= index < 0xb0 {
        assert FrameOf(tab'[index]) == index;
      }
    } else {
      assert dir'[j] == dir[j];
    }
  }

  lemma InVideoByIndex(va: u32)
    ensures InVideo(va) <==> va / PT_SIZE == 0 && 0xa0 <= va / PAGE_SIZE % NR_PTE < 0xb0
    ensures va / PT_SIZE == 0 ==> va / PAGE_SIZE % NR_PTE * PAGE_SIZE + va % PAGE_SIZE == va
  {
  }

  function Cleared(tab: seq<u32>, n: nat): seq<u32>
  {
    seq(|tab|, k requires 0 <= k < |tab| => if k < n then WithPresent(tab[k], false) else tab[k])
  }
}
