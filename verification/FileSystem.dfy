/** The kernel's file system: a fixed table of extents on the disk and a table of descriptors. */
module FileSystem {
  import opened MachineInts
  import opened ByteSequences

  datatype FileInfo = FileInfo(name: string, size: u32, diskOffset: u32)
  datatype Fstate = Fstate(used: bool, index: nat, offset: u32)
  datatype Whence = SeekSet | SeekCur | SeekEnd
  datatype Outcome = Halted | Returned(value: int)

  const FILE_TABLE: seq<FileInfo> := [
    FileInfo("1.rpg", 188864, 1048576), FileInfo("2.rpg", 188864, 1237440), FileInfo("3.rpg", 188864, 1426304),
    FileInfo("4.rpg", 188864, 1615168), FileInfo("5.rpg", 188864, 1804032), FileInfo("abc.mkf", 1022564, 1992896),
    FileInfo("ball.mkf", 134704, 3015460), FileInfo("data.mkf", 66418, 3150164), FileInfo("desc.dat", 16027, 3216582),
    FileInfo("fbp.mkf", 1128064, 3232609), FileInfo("fire.mkf", 834728, 4360673), FileInfo("f.mkf", 186966, 5195401),
    FileInfo("gop.mkf", 11530322, 5382367), FileInfo("map.mkf", 1496578, 16912689), FileInfo("mgo.mkf", 1577442, 18409267),
    FileInfo("m.msg", 188232, 19986709), FileInfo("mus.mkf", 331284, 20174941), FileInfo("pat.mkf", 8488, 20506225),
    FileInfo("rgm.mkf", 453202, 20514713), FileInfo("rng.mkf", 4546074, 20967915), FileInfo("sss.mkf", 557004, 25513989),
    FileInfo("voc.mkf", 1997044, 26070993), FileInfo("wor16.asc", 5374, 28068037), FileInfo("wor16.fon", 82306, 28073411),
    FileInfo("word.dat", 5650, 28155717), FileInfo("credits_bgm.wav", 6631340, 1048576)]

  const NR_FILES: nat := 26
  const LAST: nat := 25
  /** The last file of the table whose extent shares bytes with that of the file LAST. */
  const GOP: nat := 12
  const DISK_END: nat := 28161367

  // ----- extents -----

  function Start(i: nat): u32
    requires i < NR_FILES
  {
    FILE_TABLE[i].diskOffset
  }

  function End(i: nat): nat
    requires i < NR_FILES
  {
    FILE_TABLE[i].diskOffset as int + FILE_TABLE[i].size as int
  }

  /** All but the last file follow one another on the disk. */
  lemma Contiguous(i: nat)
    requires i < LAST
    ensures Start(i) < End(i) == if i + 1 < LAST then Start(i + 1) else DISK_END
    ensures Start(i) < 0x8000_0000 && End(i) == Start(i) as int + Size(i) as int
    ensures i == 0 ==> Start(i) == 0x10_0000 == Start(LAST)
  {
  }

  lemma {:induction false} Ordered(i: nat, j: nat)
    requires i < j < LAST
    ensures End(i) <= Start(j)
    decreases j - i
  {
    hide Start, End;
    Contiguous(i);
    if i + 1 < j {
      Contiguous(i + 1);
      Ordered(i + 1, j);
    }
  }

  /** Two files whose extents share no byte. */
  predicate Apart(i: nat, j: nat)
    requires i < NR_FILES && j < NR_FILES
  {
    End(i) <= Start(j) || End(j) <= Start(i)
  }

  /** No two extents share a byte, save those of the last file and the first thirteen. */
  lemma ApartIff(i: nat, j: nat)
    requires i < j < NR_FILES
    ensures Apart(i, j) <==> j != LAST || i > GOP
  {
    if j < LAST {
      Ordered(i, j);
    } else {
      if i < GOP {
        Ordered(i, GOP);
        if i > 0 { Ordered(0, i); }
      } else if i > GOP {
        if i > GOP + 1 { Ordered(GOP + 1, i); }
      }
    }
  }

  // ----- transfers -----

  function Size(i: nat): u32
    requires i < NR_FILES
  {
    FILE_TABLE[i].size
  }

  /** The length a read or write goes on with, in 32-bit arithmetic. */
  function Clip(offset: u32, len: u32, size: u32): u32
  {
    if Wrap32(offset as int + len as int) > size then Wrap32(size as int - offset as int) else len
  }

  /** The end of the transfer wraps around 2^32 to a place inside the file. */
  predicate WrapsIntoFile(offset: u32, len: u32, size: u32)
  {
    0x1_0000_0000 <= offset as int + len as int <= 0x1_0000_0000 + size as int
  }

  /** From inside the file, the clipped length is what is left of it unless the end wraps. */
  lemma ClipIff(offset: u32, len: u32, size: u32)
    requires offset <= size
    ensures Clip(offset, len, size) as int == Min(len, size as int - offset as int) <==> !WrapsIntoFile(offset, len, size)
    ensures offset as int + Clip(offset, len, size) as int <= size as int <==> !WrapsIntoFile(offset, len, size)
    ensures WrapsIntoFile(offset, len, size) ==> Clip(offset, len, size) == len
  {
  }

  /** The bytes of file i on a disk. */
  function Content(disk: seq<u8>, i: nat): (c: seq<u8>)
    requires i < NR_FILES && DISK_END <= |disk|
    ensures |c| == Size(i)
  {
    ExtentOnDisk(i);
    disk[Start(i)..End(i)]
  }

  lemma ExtentOnDisk(i: nat)
    requires i < NR_FILES
    ensures End(i) <= DISK_END
  {
    if i < LAST - 1 {
      Contiguous(LAST - 1);
      Ordered(i, LAST - 1);
    }
  }

  /** Writing inside one extent changes that file there, and every file whose extent is apart not at all. */
  lemma WriteChangesOnly(disk: seq<u8>, i: nat, offset: nat, data: seq<u8>, j: nat)
    requires i < NR_FILES && j < NR_FILES && DISK_END <= |disk| && offset + |data| <= Size(i)
    requires Start(i) + offset + |data| <= |disk|
    ensures j == i ==> Content(Spliced(disk, Start(i) + offset, data), j) == Spliced(Content(disk, j), offset, data)
    ensures Apart(j, i) ==>
              Content(Spliced(disk, Start(i) + offset, data), j) == Content(disk, j)
  {
    assert End(i) == Start(i) + Size(i) && End(j) == Start(j) + Size(j);
    ExtentOnDisk(j);
    var at, lo, hi := Start(i) + offset, Start(j), End(j);
    hide Start, End, Size;
    SliceOfSpliced(disk, at, data, lo, hi);
  }

  /** Where the last file lies over an earlier one, writing the one changes the other. */
  lemma LastFileOverwrites(disk: seq<u8>, j: nat, b: u8)
    requires j <= GOP && DISK_END <= |disk|
    ensures var offset := Start(j) as int - Start(LAST) as int;
            && 0 <= offset < Size(LAST) as int
            && Content(Spliced(disk, Start(LAST) as int + offset, [b]), j) == Content(disk, j)[0 := b]
  {
    Reaches(j);
    ExtentOnDisk(j);
    assert End(j) == Start(j) as int + Size(j) as int;
    hide Start, End, Size;
    SliceOfSpliced(disk, Start(j), [b], Start(j), End(j));
  }

  lemma Reaches(j: nat)
    requires j <= GOP
    ensures Start(LAST) <= Start(j) < End(LAST) && Start(j) < End(j) && End(LAST) == Start(LAST) as int + Size(LAST) as int
  {
    if j < GOP { Ordered(j, GOP); }
    if j > 0 { Ordered(0, j); }
    Contiguous(j);
  }

  /** A length whose end wraps around is not clipped at all. */
  lemma UnclippedExample()
    ensures Clip(1, 0xffff_ffff, 188864) == 0xffff_ffff && Min(0xffff_ffff, 188864 - 1) == 188863
  {
  }

  // ----- seeking -----

  /** The value of a 32-bit pattern as a signed off_t. */
  function AsOffset(x: u32): i32
  {
    if x < 0x8000_0000 then x else x as int - 0x1_0000_0000
  }

  /** check_boundary: the comparison with the place on the disk is between unsigned numbers. */
  function CheckBoundary(i: nat, offset: i32): i32
    requires i < NR_FILES
  {
    if Wrap32(offset) > Start(i) then AsOffset(Size(i))
    else if offset < 0 then 0
    else offset
  }

  /** Where the messages of check_boundary say a seek ends up. */
  function Clamped(i: nat, n: int): int
    requires i < NR_FILES
  {
    if n > Size(i) then Size(i) else if n < 0 then 0 else n
  }

  /** A seek to n stays in the file unless n is past its end but not past its place on the disk, and it
      goes where it should for a target inside the file and not past that place, or past both. */
  lemma SeekIff(i: nat, n: int)
    requires i < NR_FILES && -0x8000_0000 <= n < 0x1_0000_0000
    ensures 0 <= CheckBoundary(i, AsOffset(Wrap32(n)))
    ensures CheckBoundary(i, AsOffset(Wrap32(n))) <= Size(i) <==> !(Size(i) < n <= Start(i))
    ensures CheckBoundary(i, AsOffset(Wrap32(n))) == Clamped(i, n) <==>
              (0 <= n < Size(i) && n <= Start(i)) || n == Size(i) || (n > Size(i) && n > Start(i))
  {
    SizesFit(i);
  }

  /** A seek just past the end of the first file stays there, and one to a place inside the thirteenth
      file that is past its place on the disk, like one before the start of any file, ends up at the end. */
  lemma SeekExamples()
    ensures Size(0) == 188864 && CheckBoundary(0, 200000) == 200000 && Clamped(0, 200000) == 188864
    ensures Size(GOP) == 11530322 == CheckBoundary(GOP, 6000000) && Clamped(GOP, 6000000) == 6000000
    ensures CheckBoundary(0, -1) == 188864 && Clamped(0, -1) == 0
  {
  }

  lemma SizesFit(i: nat)
    requires i < NR_FILES
    ensures 0 < Size(i) < 0x8000_0000 && 0 < Start(i) < 0x8000_0000
  {
  }

  // ----- runs of reads -----

  function Sum(lens: seq<u32>): nat
  {
    if lens == [] then 0 else lens[0] as int + Sum(lens[1..])
  }

  /** What successive reads of the given lengths deliver, each starting where the one before ended. */
  function ReadRun(content: seq<u8>, offset: nat, lens: seq<u32>): seq<u8>
    requires offset <= |content|
    decreases |lens|
  {
    if lens == [] then []
    else
      var next := offset + Min(lens[0], |content| - offset);
      content[offset..next] + ReadRun(content, next, lens[1..])
  }

  /** No read of the run wraps around into the file. */
  predicate NeverWraps(size: u32, offset: u32, lens: seq<u32>)
    requires offset <= size
    decreases |lens|
  {
    lens == [] ||
    (!WrapsIntoFile(offset, lens[0], size) && NeverWraps(size, Min(size, offset as int + lens[0] as int), lens[1..]))
  }

  /** Together they are the bytes of the file from the first offset on, however they were cut up. */
  lemma {:induction false} ReadsConcatenate(content: seq<u8>, offset: nat, lens: seq<u32>)
    requires offset <= |content|
    ensures ReadRun(content, offset, lens) == content[offset..Min(|content|, offset + Sum(lens))]
    decreases |lens|
  {
    FirstRead(content, offset, lens);
    hide ReadRun, Sum;
    if lens != [] {
      var next := offset + Min(lens[0], |content| - offset);
      ReadsConcatenate(content, next, lens[1..]);
      JoinSlices(content, offset, next, Min(|content|, offset + Sum(lens)));
    }
  }

  lemma FirstRead(content: seq<u8>, offset: nat, lens: seq<u32>)
    requires offset <= |content|
    ensures lens == [] ==> ReadRun(content, offset, lens) == [] && Sum(lens) == 0
    ensures lens != [] ==>
              var next := offset + Min(lens[0], |content| - offset);
              && ReadRun(content, offset, lens) == content[offset..next] + ReadRun(content, next, lens[1..])
              && Min(|content|, offset + Sum(lens)) == Min(|content|, next + Sum(lens[1..]))
  {
  }

  lemma NoMoreReadsAt(content: seq<u8>, offset: nat)
    requires offset <= |content|
    ensures ReadRun(content, offset, []) == [] && Sum([]) == 0
  {
  }

  lemma NextNeverWraps(size: u32, offset: u32, lens: seq<u32>)
    requires offset <= size && lens != [] && NeverWraps(size, offset, lens)
    ensures !WrapsIntoFile(offset, lens[0], size)
    ensures NeverWraps(size, Min(size, offset as int + lens[0] as int), lens[1..])
  {
  }

  lemma Associate(a: seq<u8>, b: seq<u8>, c: seq<u8>)
    ensures a + (b + c) == a + b + c
  {
  }

  // ----- names -----

  function ToLower(c: char): char
  {
    if 'A' <= c <= 'Z' then c - 'A' + 'a' else c
  }

  function Lower(s: string): string
  {
    seq(|s|, i requires 0 <= i < |s| => ToLower(s[i]))
  }

  /** The first file of that name. */
  predicate IsNamed(name: string, i: nat)
  {
    i < NR_FILES && FILE_TABLE[i].name == name && forall k :: 0 <= k < i ==> FILE_TABLE[k].name != name
  }

  predicate NoneNamed(name: string)
  {
    forall k :: 0 <= k < NR_FILES ==> FILE_TABLE[k].name != name
  }

  lemma NameIsLower(i: nat, k: nat)
    requires i < NR_FILES && k < |FILE_TABLE[i].name|
    ensures !('A' <= FILE_TABLE[i].name[k] <= 'Z')
  {
  }

  lemma NamesDiffer(i: nat, j: nat)
    requires i < j < NR_FILES
    ensures FILE_TABLE[i].name != FILE_TABLE[j].name
  {
  }

  /** A path opens the file i exactly when it is the name of that file, each letter of which may be
      written as its capital. */
  lemma OpensInAnyCase(i: nat, path: string)
    requires i < NR_FILES
    ensures var name := FILE_TABLE[i].name;
            IsNamed(Lower(path), i) <==>
              && |path| == |name|
              && forall k :: 0 <= k < |name| ==>
                   path[k] == name[k] || ('A' <= path[k] <= 'Z' && path[k] as int + 32 == name[k] as int)
  {
    var name := FILE_TABLE[i].name;
    forall k | 0 <= k < |name|
      ensures ToLower(name[k]) == name[k]
    {
      NameIsLower(i, k);
    }
    forall k | 0 <= k < i
      ensures FILE_TABLE[k].name != name
    {
      NamesDiffer(k, i);
    }
    if |path| == |name| && forall k :: 0 <= k < |name| ==>
         path[k] == name[k] || ('A' <= path[k] <= 'Z' && path[k] as int + 32 == name[k] as int) {
      assert Lower(path) == name;
    }
    if Lower(path) == name {
      forall k | 0 <= k < |name|
        ensures path[k] == name[k] || ('A' <= path[k] <= 'Z' && path[k] as int + 32 == name[k] as int)
      {
        assert Lower(path)[k] == name[k];
      }
    }
  }

  // ----- descriptors -----

  /** The first free descriptor past the three of the console. */
  predicate IsFirstFree(files: seq<Fstate>, fd: nat)
  {
    3 <= fd < |files| && !files[fd].used && forall k :: 3 <= k < fd ==> files[k].used
  }

  predicate InFile(f: Fstate)
  {
    f.index < NR_FILES && f.offset as int <= Size(f.index)
  }

  predicate Wraps(f: Fstate, len: u32)
    requires f.index < NR_FILES
  {
    WrapsIntoFile(f.offset, len, Size(f.index))
  }

  /** The offset a seek asks for, before any bounds. */
  function SeekTarget(f: Fstate, offset: i32, whence: Whence): int
    requires f.index < NR_FILES
  {
    match whence
    case SeekSet => offset
    case SeekCur => f.offset as int + offset as int
    case SeekEnd => Size(f.index) + offset as int
  }

  class Kernel {
    const files: array<Fstate>
    const disk: array<u8>
    /** What went out over the serial port. */
    var console: seq<u8>

    /** The kernel as it boots, with every descriptor free. */
    constructor (disk: array<u8>)
      requires DISK_END <= disk.Length
      ensures Valid() && AllInFile() && this.disk == disk && fresh(files) && console == []
    {
      files := new Fstate[NR_FILES + 3](_ => Fstate(false, 0, 0));
      this.disk := disk;
      console := [];
    }

    ghost predicate Valid()
      reads files
    {
      && files.Length == NR_FILES + 3 && DISK_END <= disk.Length
      && forall fd :: 0 <= fd < files.Length && files[fd].used ==> 3 <= fd && files[fd].index < NR_FILES
    }

    /** Every open descriptor stands inside its file. */
    ghost predicate AllInFile()
      reads files
    {
      forall fd :: 0 <= fd < files.Length && files[fd].used ==> InFile(files[fd])
    }

    /** What the disk driver asks for: the bytes are on the disk and fit the caller's buffer. */
    predicate Transferable(fd: nat, len: u32)
      reads files
      requires fd < files.Length && files[fd].index < NR_FILES
    {
      var f := files[fd];
      var n := Clip(f.offset, len, Size(f.index));
      Start(f.index) + f.offset as int + n as int <= disk.Length && n <= len
    }

    method FsOpen(pathname: string) returns (r: Outcome)
      requires Valid() && |pathname| < 100
      modifies files
      ensures Valid() && (old(AllInFile()) ==> AllInFile())
      ensures r == Halted <==> NoneNamed(Lower(pathname))
      ensures r == Returned(-1) ==> forall fd :: 3 <= fd < files.Length ==> old(files[fd].used)
      ensures r == Halted || r == Returned(-1) ==> files[..] == old(files[..])
      ensures r.Returned? && r.value != -1 ==> r.value >= 0 && IsFirstFree(old(files[..]), r.value)
      ensures r.Returned? && r.value != -1 ==> IsNamed(Lower(pathname), files[r.value].index)
      ensures r.Returned? && r.value != -1 ==>
                files[..] == old(files[..])[r.value := Fstate(true, files[r.value].index, 0)]
    {
      var low := "";
      for i := 0 to |pathname|
        invariant |low| == i && forall k :: 0 <= k < i ==> low[k] == ToLower(pathname[k])
      {
        low := low + [ToLower(pathname[i])];
      }
      assert low == Lower(pathname);
      for findex := 0 to NR_FILES
        invariant forall k :: 0 <= k < findex ==> FILE_TABLE[k].name != low
        invariant files[..] == old(files[..])
      {
        if FILE_TABLE[findex].name == low {
          for fd := 3 to NR_FILES + 3
            invariant forall k :: 3 <= k < fd ==> files[k].used
            invariant files[..] == old(files[..])
          {
            if !files[fd].used {
              files[fd] := Fstate(true, findex, 0);
              return Returned(fd);
            }
          }
          return Returned(-1);
        }
      }
      r := Halted;
    }

    method FsRead(fd: nat, len: u32) returns (r: u32, buf: seq<u8>)
      requires Valid() && 2 < fd < files.Length && (files[fd].used ==> Transferable(fd, len))
      modifies files
      ensures Valid() && forall k :: 0 <= k < files.Length && k != fd ==> files[k] == old(files[k])
      ensures !old(files[fd].used) ==> r == 0xffff_ffff && buf == [] && files[..] == old(files[..])
      ensures old(files[fd].used) ==>
                var f := old(files[fd]);
                && r == Clip(f.offset, len, Size(f.index)) <= len
                && r as int == (if (f.offset as int + len as int) % 0x1_0000_0000 > Size(f.index) as int
                                then (Size(f.index) as int - f.offset as int) % 0x1_0000_0000 else len as int)
                && buf == disk[Start(f.index) + f.offset..][..r]
                && files[fd] == f.(offset := Wrap32(f.offset as int + r as int))
      ensures old(files[fd].used && AllInFile() && !Wraps(files[fd], len)) ==>
                var f := old(files[fd]);
                && AllInFile() && r as int == Min(len, Size(f.index) - f.offset as int)
                && files[fd].offset as int == f.offset as int + r as int
                && buf == Content(disk[..], f.index)[f.offset..files[fd].offset]
    {
      hide Start, End, Size, Content, WrapsIntoFile;
      var f := files[fd];
      if !f.used {
        return 0xffff_ffff, [];
      }
      var n := len;
      if Wrap32(f.offset as int + n as int) > Size(f.index) {
        n := Wrap32(Size(f.index) as int - f.offset as int);
      }
      r, buf := n, [];
      if n > 0 {
        buf := IdeRead(Start(f.index) + f.offset as int, n);
        files[fd] := f.(offset := Wrap32(f.offset as int + n as int));
      }
      if InFile(f) && !Wraps(f, len) {
        TransferFits(f, len);
        ReadIsContent(disk[..], f.index, f.offset, n);
      }
    }

    /** A program that reads a file piece by piece: the pieces are what a run of reads delivers, and
        together the bytes of the file from the first offset on. */
    method ReadInPieces(fd: nat, lens: seq<u32>) returns (all: seq<u8>)
      requires Valid() && AllInFile() && 2 < fd < files.Length && files[fd].used
      requires NeverWraps(Size(files[fd].index), files[fd].offset, lens)
      modifies files
      ensures Valid() && AllInFile() && forall k :: 0 <= k < files.Length && k != fd ==> files[k] == old(files[k])
      ensures var f := old(files[fd]);
              var content := Content(disk[..], f.index);
              var end := Min(|content|, f.offset as int + Sum(lens));
              && all == ReadRun(content, f.offset, lens) == content[f.offset..end]
              && files[fd] == f.(offset := end)
    {
      hide Content, Size, Start, End, ReadRun, Sum, NeverWraps, WrapsIntoFile, Clip;
      all := [];
      ghost var f := files[fd];
      ghost var content := Content(disk[..], f.index);
      assert lens[0..] == lens && all + ReadRun(content, f.offset, lens) == ReadRun(content, f.offset, lens);
      for i := 0 to |lens|
        invariant Valid() && AllInFile() && forall k :: 0 <= k < files.Length && k != fd ==> files[k] == old(files[k])
        invariant files[fd] == f.(offset := files[fd].offset)
        invariant NeverWraps(Size(f.index), files[fd].offset, lens[i..])
        invariant ReadRun(content, f.offset, lens) == all + ReadRun(content, files[fd].offset, lens[i..])
        invariant Min(|content|, f.offset as int + Sum(lens)) == Min(|content|, files[fd].offset as int + Sum(lens[i..]))
      {
        ghost var rest, start := lens[i..], files[fd].offset;
        assert rest[0] == lens[i] && rest[1..] == lens[i + 1..];
        NextNeverWraps(Size(f.index), start, rest);
        FirstRead(content, start, rest);
        TransferFits(files[fd], lens[i]);
        var n, piece := FsRead(fd, lens[i]);
        Associate(all, piece, ReadRun(content, files[fd].offset, rest[1..]));
        all := all + piece;
      }
      ReadsConcatenate(content, f.offset, lens);
      assert lens[|lens|..] == [];
      NoMoreReadsAt(content, files[fd].offset);
    }

    method IdeRead(offset: nat, len: u32) returns (buf: seq<u8>)
      requires offset + len as int <= disk.Length
      ensures buf == disk[offset..][..len]
    {
      buf := disk[offset..][..len];
    }

    method FsWrite(fd: int, buf: seq<u8>) returns (r: u32)
      requires Valid() && fd < files.Length && |buf| < 0x1_0000_0000
      requires fd > 2 && files[fd].used ==> Transferable(fd, |buf|)
      modifies files, disk, this
      ensures Valid() && forall k :: 0 <= k < files.Length && k != fd ==> files[k] == old(files[k])
      ensures fd <= 2 ==>
                r == |buf| && console == old(console) + buf && files[..] == old(files[..]) && disk[..] == old(disk[..])
      ensures fd > 2 ==> console == old(console)
      ensures fd > 2 && !old(files[fd].used) ==>
                r == 0xffff_ffff && files[..] == old(files[..]) && disk[..] == old(disk[..])
      ensures fd > 2 && old(files[fd].used) ==>
                var f := old(files[fd]);
                && r == Clip(f.offset, |buf|, Size(f.index)) <= |buf|
                && r as int == (if (f.offset as int + |buf| as int) % 0x1_0000_0000 > Size(f.index) as int
                                then (Size(f.index) as int - f.offset as int) % 0x1_0000_0000 else |buf| as int)
                && disk[..] == Spliced(old(disk[..]), Start(f.index) + f.offset as int, buf[..r])
                && files[fd] == f.(offset := Wrap32(f.offset as int + r as int))
      ensures fd > 2 && old(files[fd].used && AllInFile() && !Wraps(files[fd], |buf|)) ==>
                var f := old(files[fd]);
                && AllInFile() && r as int == Min(|buf|, Size(f.index) - f.offset as int)
                && Content(disk[..], f.index) == Spliced(old(Content(disk[..], f.index)), f.offset, buf[..r])
                && forall j :: 0 <= j < NR_FILES && Apart(j, f.index) ==> Content(disk[..], j) == old(Content(disk[..], j))
    {
      hide Start, End, Size, Content, Apart, WrapsIntoFile, Spliced;
      if fd <= 2 {
        console := console + buf;
        return |buf|;
      }
      var f := files[fd];
      if !f.used {
        return 0xffff_ffff;
      }
      var n: u32 := |buf|;
      if Wrap32(f.offset as int + n as int) > Size(f.index) {
        n := Wrap32(Size(f.index) as int - f.offset as int);
      }
      assert n == Clip(f.offset, |buf|, Size(f.index));
      hide Clip;
      IdeWrite(buf[..n], Start(f.index) + f.offset as int);
      files[fd] := f.(offset := Wrap32(f.offset as int + n as int));
      r := n;
      if InFile(f) && !Wraps(f, |buf|) {
        TransferFits(f, |buf|);
        WriteIsContent(old(disk[..]), f.index, f.offset, buf[..n]);
      }
    }

    method IdeWrite(buf: seq<u8>, offset: nat)
      requires offset + |buf| <= disk.Length
      modifies disk
      ensures disk[..] == Spliced(old(disk[..]), offset, buf)
    {
      forall k | 0 <= k < |buf| {
        disk[offset + k] := buf[k];
      }
    }

    method FsLseek(fd: int, offset: i32, whence: Whence) returns (r: i32)
      requires Valid() && fd < files.Length
      modifies files
      ensures Valid() && forall k :: 0 <= k < files.Length && k != fd ==> files[k] == old(files[k])
      ensures fd <= 2 ==> r == offset && files[..] == old(files[..])
      ensures fd > 2 && !old(files[fd].used) ==> r == -1 && files[..] == old(files[..])
      ensures fd > 2 && old(files[fd].used) ==> 0 <= r && files[fd] == old(files[fd]).(offset := r)
      ensures fd > 2 && old(files[fd].used) ==>
                var f := old(files[fd]);
                var from := if whence == SeekSet then 0
                            else if whence == SeekCur then f.offset
                            else FILE_TABLE[f.index].size;
                var n := (from as int + offset as int) % 0x1_0000_0000;
                r == if n <= FILE_TABLE[f.index].diskOffset as int then n else FILE_TABLE[f.index].size as int
      ensures fd > 2 && old(files[fd].used && InFile(files[fd])) ==>
                var f := old(files[fd]);
                var n, size, place := SeekTarget(f, offset, whence), Size(f.index), Start(f.index);
                && (InFile(files[fd]) <==> !(size < n <= place))
                && (r == Clamped(f.index, n) <==> (0 <= n < size && n <= place) || n == size || (n > size && n > place))
    {
      if fd <= 2 {
        return offset;
      }
      var f := files[fd];
      if !f.used {
        return -1;
      }
      var newOff: i32;
      match whence {
        case SeekCur => newOff := AsOffset(Wrap32(f.offset as int + offset as int));
        case SeekEnd => newOff := AsOffset(Wrap32(Size(f.index) as int + offset as int));
        case SeekSet => newOff := offset;
      }
      newOff := CheckBoundary(f.index, newOff);
      files[fd] := f.(offset := Wrap32(newOff));
      r := newOff;
      if InFile(f) {
        SizesFit(f.index);
        SeekIff(f.index, SeekTarget(f, offset, whence));
      }
    }

    method FsClose(fd: int) returns (r: int)
      requires Valid() && fd < files.Length
      modifies files
      ensures Valid() && (old(AllInFile()) ==> AllInFile())
      ensures r == if fd <= 2 || old(files[fd].used) then 0 else -1
      ensures files[..] == if fd <= 2 then old(files[..]) else old(files[..])[fd := old(files[fd]).(used := false)]
    {
      if fd <= 2 {
        return 0;
      }
      if !files[fd].used {
        assert files[..] == files[..][fd := files[fd].(used := false)];
        return -1;
      }
      files[fd] := files[fd].(used := false);
      r := 0;
    }
  }

  // ----- steps of the proofs -----

  /** A transfer from inside the file stays inside it. */
  lemma TransferFits(f: Fstate, len: u32)
    requires InFile(f) && !Wraps(f, len)
    ensures var n := Clip(f.offset, len, Size(f.index));
            && n as int == Min(len, Size(f.index) as int - f.offset as int) && f.offset as int + n as int <= Size(f.index) as int
            && Start(f.index) as int + f.offset as int + n as int <= DISK_END
  {
    ClipIff(f.offset, len, Size(f.index));
    ExtentOnDisk(f.index);
  }

  lemma ReadIsContent(disk: seq<u8>, i: nat, offset: nat, n: nat)
    requires i < NR_FILES && DISK_END <= |disk| && offset + n <= Size(i) as int
    requires Start(i) as int + offset + n <= |disk|
    ensures disk[Start(i) as int + offset..][..n] == Content(disk, i)[offset..offset + n]
  {
    ExtentOnDisk(i);
    assert End(i) == Start(i) as int + Size(i) as int && Content(disk, i) == disk[Start(i)..End(i)];
    hide Start, End, Size, Content;
    SliceOfSlice(disk, Start(i), End(i), offset, n);
  }

  lemma WriteIsContent(disk: seq<u8>, i: nat, offset: nat, data: seq<u8>)
    requires i < NR_FILES && DISK_END <= |disk| && offset + |data| <= Size(i) as int
    requires Start(i) as int + offset + |data| <= |disk|
    ensures var disk' := Spliced(disk, Start(i) as int + offset, data);
            && Content(disk', i) == Spliced(Content(disk, i), offset, data)
            && forall j :: 0 <= j < NR_FILES && Apart(j, i) ==> Content(disk', j) == Content(disk, j)
  {
    hide Start, Size, Content, Spliced, Apart;
    WriteChangesOnly(disk, i, offset, data, i);
    forall j | 0 <= j < NR_FILES && Apart(j, i)
      ensures Content(Spliced(disk, Start(i) as int + offset, data), j) == Content(disk, j)
    {
      WriteChangesOnly(disk, i, offset, data, j);
    }
  }

  /** An open descriptor inside its file can always transfer, unless the end of the transfer wraps. */
  lemma TransferableIff(k: Kernel, fd: nat, len: u32)
    requires k.Valid() && fd < k.files.Length && InFile(k.files[fd])
    requires k.disk.Length <= 0x1_0000_0000
    ensures k.Transferable(fd, len) <==> !Wraps(k.files[fd], len)
  {
    var f := k.files[fd];
    ClipIff(f.offset, len, Size(f.index));
    ExtentOnDisk(f.index);
    SizesFit(f.index);
  }
}
