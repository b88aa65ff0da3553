/** Copying a file to the serial flash and reading it back: the loops of 5.4-Storage_Flash/main.c,
    with the page splitting and verification of the flash driver.  Programming a cell can only
    clear bits; erasing sets a whole sector to 0xFF. */
module Flash {
  import opened CInts

  type Cell = bv8

  const PAGE: nat := 256
  const CHUNK: nat := 4096
  const SECTOR: nat := 65536

  type Memory = seq<Cell>

  // ---------- what the chip does ----------

  /** Bits are cleared where the data has zeros. */
  function Programmed(mem: Memory, addr: nat, d: seq<Cell>): (r: Memory)
    ensures |r| == |mem|
  {
    seq(|mem|, a requires 0 <= a < |mem| => if addr <= a < addr + |d| then mem[a] & d[a - addr] else mem[a])
  }

  function SectorBase(a: nat): nat {
    a - a % SECTOR
  }

  function Erased(mem: Memory, addr: nat): (r: Memory)
    ensures |r| == |mem|
  {
    seq(|mem|, a requires 0 <= a < |mem| => if SectorBase(a) == SectorBase(addr) then 0xFF else mem[a])
  }

  lemma NothingProgrammed(mem: Memory, addr: nat)
    ensures Programmed(mem, addr, []) == mem
  {
  }

  lemma ProgramNext(mem: Memory, addr: nat, d: seq<Cell>, b: Cell)
    requires addr + |d| < |mem|
    ensures Programmed(mem, addr, d)[addr + |d|] == mem[addr + |d|]
    ensures Programmed(mem, addr, d + [b]) == Programmed(mem, addr, d)[addr + |d| := mem[addr + |d|] & b]
  {
  }

  // ---------- what the driver does ----------

  function PageCount(addr: nat, n: nat): (c: nat)
    ensures n > 0 ==> 0 < c <= n
    ensures addr % PAGE + c <= PAGE
  {
    Min(PAGE - addr % PAGE, n)
  }

  /** Page by page, giving up after the first page that does not read back as sent. */
  function Written(mem: Memory, addr: nat, d: seq<Cell>): (r: Memory)
    requires addr + |d| <= |mem|
    ensures |r| == |mem|
    decreases |d|
  {
    if d == [] then mem
    else
      var n := PageCount(addr, |d|);
      var m := Programmed(mem, addr, d[..n]);
      if m[addr..addr + n] == d[..n] then Written(m, addr + n, d[n..]) else m
  }

  lemma PageCountIs(addr: nat, n: nat)
    ensures PageCount(addr, n) == if n < 256 - addr % 256 then n else 256 - addr % 256
  {
  }

  lemma NothingWritten(mem: Memory, addr: nat)
    requires addr <= |mem|
    ensures Written(mem, addr, []) == mem
  {
  }

  lemma WrittenPage(mem: Memory, addr: nat, d: seq<Cell>)
    requires addr + |d| <= |mem| && d != []
    ensures var n := PageCount(addr, |d|);
            var m := Programmed(mem, addr, d[..n]);
            Written(mem, addr, d) == if m[addr..addr + n] == d[..n] then Written(m, addr + n, d[n..]) else m
  {
  }

  // ---------- what the copy loop does ----------

  /** The sector counter is cleared only when it has gone past the sector size. */
  function Rolled(scount: nat): nat {
    if scount > SECTOR then 0 else scount
  }

  function Copied(mem: Memory, file: seq<Cell>, address: nat, scount: nat): (r: Memory)
    requires address <= |file| <= |mem|
    ensures |r| == |mem|
    decreases |file| - address
  {
    if address == |file| then mem
    else
      var m := if scount == 0 then Erased(mem, address) else mem;
      var n := Min(CHUNK, |file| - address);
      Copied(Written(m, address, file[address..address + n]), file, address + n, Rolled(scount + n))
  }

  class Storage {
    const cells: array<Cell>
    const data: array<Cell>

    ghost predicate Valid()
      reads this
    {
      cells != data && data.Length == CHUNK && cells.Length % SECTOR == 0
    }

    constructor (sectors: nat)
      ensures Valid() && cells.Length == sectors * SECTOR && fresh(cells) && fresh(data)
    {
      cells := new Cell[sectors * SECTOR];
      data := new Cell[CHUNK];
    }

    /** The chip's page program.  Bytes beyond the end of the page would wrap to its start, so the
        caller must not send any. */
    method PageProgram(addr: nat, from: nat, n: nat)
      requires Valid() && from + n <= data.Length && addr + n <= cells.Length
      requires addr % PAGE + n <= PAGE
      modifies cells
      ensures cells[..] == Programmed(old(cells[..]), addr, data[from..from + n])
    {
      hide Programmed;
      ghost var was := cells[..];
      NothingProgrammed(was, addr);
      assert data[from..from] == [];
      for k := 0 to n
        invariant cells[..] == Programmed(was, addr, data[from..from + k])
      {
        ProgramNext(was, addr, data[from..from + k], data[from + k]);
        assert data[from..from + k + 1] == data[from..from + k] + [data[from + k]];
        cells[addr + k] := cells[addr + k] & data[from + k];
      }
    }

    method SectorErase(addr: nat)
      requires Valid() && addr < cells.Length
      modifies cells
      ensures cells[..] == Erased(old(cells[..]), addr)
    {
      forall a | 0 <= a < cells.Length && SectorBase(a) == SectorBase(addr) {
        cells[a] := 0xFF;
      }
    }

    /** Programs one page and reads it back. */
    method WriteSector(addr: nat, from: nat, n: nat) returns (good: bool)
      requires Valid() && from + n <= data.Length && addr + n <= cells.Length
      requires addr % PAGE + n <= PAGE
      modifies cells
      ensures cells[..] == Programmed(old(cells[..]), addr, data[from..from + n])
      ensures good <==> cells[addr..addr + n] == data[from..from + n]
    {
      PageProgram(addr, from, n);
      good := true;
      for k := 0 to n
        invariant good && cells[addr..addr + k] == data[from..from + k]
      {
        if data[from + k] != cells[addr + k] {
          assert cells[addr..addr + n][k] != data[from..from + n][k];
          return false;
        }
      }
    }

    /** The driver's write: split at the page boundaries, so no page program wraps. */
    method Write(address: nat, nCount: nat)
      requires Valid() && nCount <= data.Length && address + nCount <= cells.Length
      modifies cells
      ensures cells[..] == Written(old(cells[..]), address, data[..nCount])
    {
      hide Written, Programmed, PageCount;
      ghost var goal := Written(cells[..], address, data[..nCount]);
      var counter := 0;
      while counter < nCount
        invariant counter <= nCount
        invariant goal == Written(cells[..], address + counter, data[counter..nCount])
        decreases nCount - counter
      {
        var sendCount := PAGE - (address + counter) % PAGE;
        if sendCount > nCount - counter {
          sendCount := nCount - counter;
        }
        ghost var now, rest, at := cells[..], data[counter..nCount], address + counter;
        assert rest[..sendCount] == data[counter..counter + sendCount];
        PageCountIs(at, |rest|);
        WrittenPage(now, at, rest);
        var good := WriteSector(address + counter, counter, sendCount);
        ghost var m := cells[..];
        assert m[at..at + sendCount] == cells[at..at + sendCount];
        if !good {
          assert goal == m;
          return;
        }
        assert goal == Written(m, at + sendCount, rest[sendCount..]);
        counter := counter + sendCount;
        assert data[counter..nCount] == rest[sendCount..];
      }
      assert data[counter..nCount] == [];
      NothingWritten(cells[..], address + counter);
    }

    /** The card read: up to one chunk, short only at the end of the file. */
    method Read(file: seq<Cell>, pos: nat) returns (length: nat)
      requires Valid() && pos <= |file|
      modifies data
      ensures length == Min(CHUNK, |file| - pos)
      ensures data[..length] == file[pos..pos + length]
    {
      length := Min(CHUNK, |file| - pos);
      for i := 0 to length
        invariant data[..i] == file[pos..pos + i]
      {
        data[i] := file[pos + i];
      }
    }

    /** Reads back one byte at a time. */
    method ReadBack(address: nat) returns (output: seq<Cell>)
      requires Valid() && address <= cells.Length
      ensures output == cells[..address]
    {
      output := [];
      for i := 0 to address
        invariant output == cells[..i]
      {
        output := output + [cells[i]];
      }
    }

    /** Copies a file to the start of the flash and reads back as many bytes. */
    method CopyAndReadBack(file: seq<Cell>) returns (output: seq<Cell>)
      requires Valid() && |file| <= cells.Length
      modifies cells, data
      ensures cells[..] == Copied(old(cells[..]), file, 0, 0)
      ensures output == cells[..|file|]
    {
      hide Written, Erased, Copied;
      ghost var was := cells[..];
      var address: nat, scount: nat := 0, 0;
      ghost var passes: nat := 0;
      while address < |file|
        invariant address <= |file|
        invariant Copied(was, file, 0, 0) == Copied(cells[..], file, address, scount)
        invariant address == |file| || (address == CHUNK * passes && scount == Counter(passes) == address % STRIDE)
      {
        CopyStep(cells[..], file, address, scount);
        passes := passes + 1;
        EraseEverySeventeenthPass(passes);
        if scount == 0 {
          SectorErase(address);
        }
        var length := Read(file, address);
        Write(address, length);
        address := address + length;
        scount := scount + length;
        if scount > SECTOR {
          scount := 0;
        }
      }
      CopyEnds(cells[..], file, scount);
      output := ReadBack(address);
    }
  }

  lemma CopyStep(mem: Memory, file: seq<Cell>, address: nat, scount: nat)
    requires address < |file| <= |mem|
    ensures var m := if scount == 0 then Erased(mem, address) else mem;
            var n := Min(CHUNK, |file| - address);
            var w := Written(m, address, file[address..address + n]);
            Copied(mem, file, address, scount) == Copied(w, file, address + n, Rolled(scount + n))
  {
  }

  lemma CopyEnds(mem: Memory, file: seq<Cell>, scount: nat)
    requires |file| <= |mem|
    ensures Copied(mem, file, |file|, scount) == mem
  {
  }

  // ---------- what a write leaves behind ----------

  lemma AndOnes(b: Cell)
    ensures 0xFF & b == b
  {
  }

  /** Clearing bits can give this stretch of data. */
  ghost predicate Fits(mem: Memory, addr: nat, d: seq<Cell>)
    requires addr + |d| <= |mem|
  {
    forall k :: 0 <= k < |d| ==> mem[addr + k] & d[k] == d[k]
  }

  lemma ProgrammedAt(mem: Memory, addr: nat, d: seq<Cell>, a: nat)
    requires a < |mem|
    ensures addr <= a < addr + |d| ==> Programmed(mem, addr, d)[a] == mem[a] & d[a - addr]
    ensures !(addr <= a < addr + |d|) ==> Programmed(mem, addr, d)[a] == mem[a]
  {
  }

  /** A write changes nothing outside its range. */
  lemma {:induction false} WriteKeepsOutside(mem: Memory, addr: nat, d: seq<Cell>, a: nat)
    requires addr + |d| <= |mem| && a < |mem| && !(addr <= a < addr + |d|)
    ensures Written(mem, addr, d)[a] == mem[a]
    decreases |d|
  {
    hide Programmed, Written;
    if d == [] {
      NothingWritten(mem, addr);
    } else {
      var n := PageCount(addr, |d|);
      WrittenPage(mem, addr, d);
      ProgrammedAt(mem, addr, d[..n], a);
      WriteKeepsOutside(Programmed(mem, addr, d[..n]), addr + n, d[n..], a);
    }
  }

  lemma FittingPage(mem: Memory, addr: nat, d: seq<Cell>, n: nat)
    requires addr + |d| <= |mem| && n <= |d| && Fits(mem, addr, d)
    ensures var m := Programmed(mem, addr, d[..n]);
            m[addr..addr + n] == d[..n] && Fits(m, addr + n, d[n..])
  {
    hide Programmed;
    var m := Programmed(mem, addr, d[..n]);
    forall k | 0 <= k < n ensures m[addr + k] == d[k] {
      ProgrammedAt(mem, addr, d[..n], addr + k);
    }
    forall k | 0 <= k < |d| - n ensures m[addr + n + k] & d[n..][k] == d[n..][k] {
      ProgrammedAt(mem, addr, d[..n], addr + n + k);
      assert mem[addr + (n + k)] & d[n + k] == d[n + k];
    }
  }

  /** Where the data fits, every page verifies and the data is stored. */
  lemma {:induction false} FittingWriteStores(mem: Memory, addr: nat, d: seq<Cell>, k: nat)
    requires addr + |d| <= |mem| && Fits(mem, addr, d) && k < |d|
    ensures Written(mem, addr, d)[addr + k] == d[k]
    decreases |d|
  {
    hide Programmed, Written, Fits;
    var n := PageCount(addr, |d|);
    var m := Programmed(mem, addr, d[..n]);
    WrittenPage(mem, addr, d);
    FittingPage(mem, addr, d, n);
    if k < n {
      WriteKeepsOutside(m, addr + n, d[n..], addr + k);
      assert m[addr + k] == m[addr..addr + n][k] == d[..n][k];
    } else {
      FittingWriteStores(m, addr + n, d[n..], k - n);
    }
  }

  // ---------- where a write gives up ----------

  /** Pages are 256 bytes long. */
  predicate EarlierPage(j: nat, a: nat) {
    j / 256 < a / 256
  }

  /** Clearing bits of the old contents can give the data. */
  predicate Takes(was: Cell, d: Cell) {
    was & d == d
  }

  /** Some cell of an earlier page than a's does not take its data. */
  ghost predicate GivenUp(mem: Memory, addr: nat, d: seq<Cell>, a: nat)
    requires addr + |d| <= |mem| && a < addr + |d|
  {
    exists j: nat :: addr <= j < a && EarlierPage(j, a) && !Takes(mem[j], d[j - addr])
  }

  lemma PageOf(addr: nat, n: nat, a: nat)
    requires addr % 256 + n <= 256 && addr <= a
    ensures a < addr + n ==> a / 256 == addr / 256
    ensures addr % 256 + n == 256 && a >= addr + n ==> a / 256 > addr / 256
  {
    Divided(addr, 256);
    if a < addr + n {
      ModUnique(a, 256, addr / 256, addr % 256 + (a - addr));
    }
  }

  lemma PageTakes(mem: Memory, addr: nat, d: seq<Cell>, n: nat)
    requires addr + |d| <= |mem| && n <= |d|
    ensures var m := Programmed(mem, addr, d[..n]);
            m[addr..addr + n] == d[..n] <==> forall j: nat :: addr <= j < addr + n ==> Takes(mem[j], d[j - addr])
  {
    hide Programmed;
    var m := Programmed(mem, addr, d[..n]);
    forall j: nat | addr <= j < addr + n ensures m[j] == mem[j] & d[j - addr] {
      ProgrammedAt(mem, addr, d[..n], j);
    }
    if m[addr..addr + n] == d[..n] {
      forall j: nat | addr <= j < addr + n ensures Takes(mem[j], d[j - addr]) {
        assert m[addr..addr + n][j - addr] == m[j] && d[..n][j - addr] == d[j - addr];
      }
    } else {
      var i :| 0 <= i < n && m[addr..addr + n][i] != d[..n][i];
      var j: nat := addr + i;
      assert !Takes(mem[j], d[j - addr]);
    }
  }

  lemma PageCountFills(addr: nat, n: nat)
    requires n > 0
    ensures var c := PageCount(addr, n); 0 < c <= n && addr % 256 + c <= 256 && (c == n || addr % 256 + c == 256)
  {
  }

  /** What the page program makes of a cell. */
  lemma ProgrammedPage(mem: Memory, addr: nat, d: seq<Cell>, n: nat, a: nat)
    requires addr + |d| <= |mem| && n <= |d| && addr <= a < addr + |d|
    ensures Programmed(mem, addr, d[..n])[a] == if a < addr + n then mem[a] & d[a - addr] else mem[a]
  {
    hide Programmed;
    ProgrammedAt(mem, addr, d[..n], a);
  }

  /** The first page is never given up; the later ones are if the first does not take its data. */
  lemma GivenUpNow(mem: Memory, addr: nat, d: seq<Cell>, n: nat, a: nat)
    requires addr + |d| <= |mem| && 0 < n <= |d| && addr <= a < addr + |d|
    requires addr % 256 + n <= 256 && (n == |d| || addr % 256 + n == 256)
    ensures a < addr + n ==> !GivenUp(mem, addr, d, a)
    ensures forall j: nat :: addr <= j < addr + n <= a && !Takes(mem[j], d[j - addr]) ==> GivenUp(mem, addr, d, a)
  {
    hide Takes;
    PageOf(addr, n, a);
    forall j: nat | addr <= j < addr + n ensures EarlierPage(j, a) <==> addr / 256 < a / 256 {
      PageOf(addr, n, j);
    }
  }

  /** If it does, the later ones are given up exactly as if the write had begun with them. */
  lemma GivenUpLater(mem: Memory, addr: nat, d: seq<Cell>, n: nat, a: nat)
    requires addr + |d| <= |mem| && n <= |d| && addr + n <= a < addr + |d|
    requires forall j: nat :: addr <= j < addr + n ==> Takes(mem[j], d[j - addr])
    ensures GivenUp(mem, addr, d, a) <==> GivenUp(Programmed(mem, addr, d[..n]), addr + n, d[n..], a)
  {
    hide Programmed, Takes, EarlierPage;
    var m := Programmed(mem, addr, d[..n]);
    forall j: nat | addr + n <= j < addr + |d| ensures m[j] == mem[j] && d[n..][j - (addr + n)] == d[j - addr] {
      ProgrammedAt(mem, addr, d[..n], j);
    }
  }

  /** Main theorem: what a write makes of every cell of its range.  A cell is programmed, whether or not
      it can take its data, unless some cell of an earlier 256-byte page could not: the driver gives up
      at the end of the first such page. */
  lemma {:induction false} WrittenExactly(mem: Memory, addr: nat, d: seq<Cell>, a: nat)
    requires addr + |d| <= |mem| && addr <= a < addr + |d|
    ensures Written(mem, addr, d)[a] == if GivenUp(mem, addr, d, a) then mem[a] else mem[a] & d[a - addr]
    decreases |d|
  {
    hide Programmed, Written, GivenUp, Takes, PageCount;
    var n := PageCount(addr, |d|);
    PageCountFills(addr, |d|);
    WrittenPage(mem, addr, d);
    PageTakes(mem, addr, d, n);
    GivenUpNow(mem, addr, d, n, a);
    ProgrammedPage(mem, addr, d, n, a);
    var m := Programmed(mem, addr, d[..n]);
    if a < addr + n {
      WriteKeepsOutside(m, addr + n, d[n..], a);
    } else if m[addr..addr + n] == d[..n] {
      GivenUpLater(mem, addr, d, n, a);
      WrittenExactly(m, addr + n, d[n..], a);
    }
  }

  // ---------- when a sector is erased ----------

  /** The counter takes one chunk more than a sector to roll over, so this is how far apart the
      erase commands are. */
  const STRIDE: nat := SECTOR + CHUNK

  /** The first address at or after the start of a's sector at which an erase is issued. */
  function EraseAddress(a: nat): nat {
    (SectorBase(a) + STRIDE - 1) / STRIDE * STRIDE
  }

  /** Some erase hits the sector of a, if the file is long enough. */
  predicate SectorIsErased(a: nat) {
    EraseAddress(a) < SectorBase(a) + SECTOR
  }

  /** The sector is erased before a is written. */
  predicate Clean(a: nat) {
    SectorIsErased(a) && EraseAddress(a) <= a
  }

  /** The sector is erased after a has been written. */
  predicate Lost(a: nat, length: nat) {
    SectorIsErased(a) && a < EraseAddress(a) < length
  }

  /** The sector is not erased at all. */
  predicate Stale(a: nat, length: nat) {
    !SectorIsErased(a) || EraseAddress(a) >= length
  }

  lemma EraseFacts(a: nat)
    ensures EraseAddress(a) % STRIDE == 0 && EraseAddress(a) % CHUNK == 0
    ensures SectorBase(a) <= EraseAddress(a) < SectorBase(a) + STRIDE
    ensures SectorBase(a) <= a < SectorBase(a) + SECTOR
  {
  }

  lemma EraseIsUnique(a: nat, e: nat)
    requires e % STRIDE == 0 && SectorBase(a) <= e < SectorBase(a) + SECTOR
    ensures EraseAddress(a) == e && SectorIsErased(a)
  {
    hide SectorBase;
    Divided(e, STRIDE);
    ModUnique(SectorBase(a) + STRIDE - 1, STRIDE, e / STRIDE, SectorBase(a) + STRIDE - 1 - e);
  }

  lemma ChunkInSector(c: nat, a: nat)
    requires c % CHUNK == 0 && c <= a < c + CHUNK
    ensures SectorBase(a) == SectorBase(c)
  {
    Divided(c, SECTOR);
    Divided(c, CHUNK);
    var m := c / CHUNK - 16 * (c / SECTOR);
    assert c % SECTOR == CHUNK * m && m <= 15;
    ModUnique(a, SECTOR, c / SECTOR, c % SECTOR + (a - c));
  }

  lemma SectorOf(a: nat, x: nat)
    requires SectorBase(a) <= x < SectorBase(a) + SECTOR
    ensures SectorBase(x) == SectorBase(a)
  {
    Divided(a, SECTOR);
    ModUnique(x, SECTOR, a / SECTOR, x - SectorBase(a));
  }

  lemma SameSectorSameErase(a: nat, b: nat)
    requires SectorBase(a) == SectorBase(b)
    ensures EraseAddress(a) == EraseAddress(b) && SectorIsErased(a) == SectorIsErased(b)
  {
  }

  /** What is left of a whole number of chunks is a whole number of chunks. */
  lemma ChunksLeft(address: nat)
    requires address % CHUNK == 0
    ensures address % STRIDE % CHUNK == 0 && address % STRIDE <= SECTOR
  {
    Divided(address, STRIDE);
    Divided(address, CHUNK);
    ModUnique(address % STRIDE, CHUNK, address / CHUNK - 17 * (address / STRIDE), 0);
  }

  /** One pass of the copy loop keeps the counter at the address modulo the stride. */
  lemma CounterFollows(address: nat)
    requires address % CHUNK == 0
    ensures Rolled(address % STRIDE + CHUNK) == (address + CHUNK) % STRIDE
    ensures (address + CHUNK) % CHUNK == 0
  {
    var q, r := address / STRIDE, address % STRIDE;
    Divided(address, STRIDE);
    Divided(address, CHUNK);
    ChunksLeft(address);
    ModUnique(address + CHUNK, CHUNK, address / CHUNK + 1, 0);
    if r == SECTOR {
      ModUnique(address + CHUNK, STRIDE, q + 1, 0);
    } else {
      Divided(r, CHUNK);
      ModUnique(address + CHUNK, STRIDE, q, r + CHUNK);
    }
  }

  /** The sector counter at the top of the j-th pass of the copy loop, as long as full chunks are
      read. */
  function Counter(j: nat): nat {
    if j == 0 then 0 else Rolled(Counter(j - 1) + CHUNK)
  }

  /** Main theorem: in every pass of the copy loop the counter is the address modulo 69632, so an
      erase is issued in every seventeenth pass where sixteen were meant. */
  lemma {:induction false} EraseEverySeventeenthPass(j: nat)
    ensures CHUNK * j % CHUNK == 0 && Counter(j) == CHUNK * j % STRIDE && STRIDE == 69632
    ensures Counter(j) == 0 <==> j % 17 == 0
  {
    if j > 0 {
      EraseEverySeventeenthPass(j - 1);
      CounterFollows(CHUNK * (j - 1));
      assert CHUNK * (j - 1) + CHUNK == CHUNK * j;
    }
    Divided(j, 17);
    ModUnique(CHUNK * j, STRIDE, j / 17, CHUNK * (j % 17));
  }

  // ---------- the copy, cell by cell ----------

  /** The old contents of every sector that is never erased leave room for the file. */
  ghost predicate OldFits(before: Memory, file: seq<Cell>)
    requires |file| <= |before|
  {
    forall a: nat :: a < |file| && Stale(a, |file|) ==> before[a] & file[a] == file[a]
  }

  /** Some cell of an earlier page of the same chunk does not take its data over the old contents. */
  ghost predicate Abandoned(before: Memory, file: seq<Cell>, a: nat)
    requires a < |file| <= |before|
  {
    exists j: nat :: a - a % 4096 <= j < a && EarlierPage(j, a) && !Takes(before[j], file[j])
  }

  /** What cell a holds when the copy has reached an address: not yet written, it is erased or as it
      was; written, it depends on when its sector is erased. */
  ghost predicate CellAt(before: Memory, file: seq<Cell>, address: nat, a: nat, now: Cell)
    requires |file| <= |before| && a < |before| && address <= |file|
  {
    if a >= address then now == if SectorIsErased(a) && EraseAddress(a) < address then 0xFF else before[a]
    else
      && (Clean(a) ==> now == file[a])
      && (Lost(a, address) ==> now == 0xFF)
      && (Stale(a, |file|) ==>
            && now == (if Abandoned(before, file, a) then before[a] else before[a] & file[a])
            && (OldFits(before, file) ==> now == file[a]))
  }

  ghost predicate CellsAt(before: Memory, file: seq<Cell>, address: nat, mem: Memory)
    requires |file| <= |before| == |mem| && address <= |file|
  {
    forall a: nat :: a < |mem| ==> CellAt(before, file, address, a, mem[a])
  }

  /** The contents while the erase of this pass, if any, has been done. */
  function Prepared(mem: Memory, address: nat): (r: Memory)
    ensures |r| == |mem|
  {
    if address % STRIDE == 0 then Erased(mem, address) else mem
  }

  lemma ErasedAt(mem: Memory, address: nat, a: nat)
    requires a < |mem|
    ensures Erased(mem, address)[a] == if SectorBase(a) == SectorBase(address) then 0xFF else mem[a]
  {
  }

  lemma PreparedCell(before: Memory, file: seq<Cell>, address: nat, a: nat, mem: Memory)
    requires |file| <= |before| == |mem| && a < |mem| && address < |file|
    requires CellAt(before, file, address, a, mem[a])
    ensures var now := Prepared(mem, address)[a];
            if a >= address then now == (if SectorIsErased(a) && EraseAddress(a) <= address then 0xFF else before[a])
            else CellAt(before, file, address, a, now) && (Lost(a, address + 1) ==> now == 0xFF)
  {
    hide EraseAddress, SectorBase, OldFits, Abandoned;
    EraseFacts(a);
    EraseFacts(address);
    if SectorIsErased(a) && EraseAddress(a) == address {
      SectorOf(a, address);
    }
    if address % STRIDE == 0 {
      ErasedAt(mem, address, a);
      if SectorBase(a) == SectorBase(address) {
        EraseIsUnique(a, address);
      }
    }
  }

  /** The chunk about to be written is either all erased or all as it was. */
  lemma ChunkCell(before: Memory, file: seq<Cell>, address: nat, a: nat, mem: Memory)
    requires |file| <= |before| == |mem| && address < |file| && address % CHUNK == 0
    requires address <= a < address + CHUNK && a < |mem|
    requires CellAt(before, file, address, a, mem[a])
    ensures SectorIsErased(a) == SectorIsErased(address) && EraseAddress(a) == EraseAddress(address)
    ensures Prepared(mem, address)[a] == if Clean(address) then 0xFF else before[a]
  {
    hide EraseAddress, SectorBase, OldFits, Prepared, Abandoned;
    ChunkInSector(address, a);
    SameSectorSameErase(address, a);
    PreparedCell(before, file, address, a, mem);
  }

  lemma ChunkFits(before: Memory, file: seq<Cell>, address: nat, n: nat, mem: Memory)
    requires |file| <= |before| == |mem| && address % CHUNK == 0
    requires 0 < n <= CHUNK && address + n <= |file|
    requires CellsAt(before, file, address, mem)
    requires Clean(address) || (Stale(address, |file|) && OldFits(before, file))
    ensures Fits(Prepared(mem, address), address, file[address..address + n])
  {
    hide EraseAddress, SectorBase, Prepared, CellAt;
    var m, d := Prepared(mem, address), file[address..address + n];
    forall k | 0 <= k < n ensures m[address + k] & d[k] == d[k] {
      ChunkCell(before, file, address, address + k, mem);
      AndOnes(file[address + k]);
    }
  }

  /** A chunk whose sector is not erased is written over the old contents, up to the page that does not
      take its data. */
  lemma StaleCell(before: Memory, file: seq<Cell>, address: nat, n: nat, mem: Memory, a: nat)
    requires |file| <= |before| == |mem| && address < |file| && address % CHUNK == 0
    requires n == Min(CHUNK, |file| - address) && address <= a < address + n
    requires CellsAt(before, file, address, mem) && Stale(address, |file|)
    ensures Written(Prepared(mem, address), address, file[address..address + n])[a]
         == if Abandoned(before, file, a) then before[a] else before[a] & file[a]
  {
    hide EraseAddress, SectorBase, SectorIsErased, Prepared, Written, CellAt, GivenUp, Abandoned;
    var m, d := Prepared(mem, address), file[address..address + n];
    assert !Clean(address);
    forall j: nat | address <= j < address + n ensures m[j] == before[j] && d[j - address] == file[j] {
      assert CellAt(before, file, address, j, mem[j]);
      ChunkCell(before, file, address, j, mem);
    }
    ModUnique(a, 4096, address / 4096, a - address);
    SameChunk(before, file, address, n, m, a);
    WrittenExactly(m, address, d, a);
  }

  lemma SameChunk(before: Memory, file: seq<Cell>, address: nat, n: nat, m: Memory, a: nat)
    requires |file| <= |before| == |m| && address <= a < address + n <= |file| && a - a % 4096 == address
    requires forall j: nat :: address <= j < address + n ==> m[j] == before[j]
    ensures GivenUp(m, address, file[address..address + n], a) <==> Abandoned(before, file, a)
  {
    hide Takes, EarlierPage;
    var d := file[address..address + n];
    assert forall j: nat :: address <= j < address + n ==> d[j - address] == file[j];
  }

  /** The cells of a chunk fare alike, and none is lost while it is written. */
  lemma ChunkAlike(address: nat, n: nat, a: nat, length: nat)
    requires address % CHUNK == 0 && n <= CHUNK && address <= a < address + n
    ensures Clean(a) == Clean(address) && Stale(a, length) == Stale(address, length) && !Lost(a, address + n)
  {
    hide EraseAddress, SectorBase, SectorIsErased;
    ChunkInSector(address, a);
    SameSectorSameErase(address, a);
    EraseFacts(a);
    var e := EraseAddress(a);
    Divided(e, CHUNK);
    Divided(address, CHUNK);
    assert e > address ==> e / CHUNK >= address / CHUNK + 1;
  }

  /** One pass of the copy loop keeps every cell as described: those of its chunk ... */
  lemma CopyCellInside(before: Memory, file: seq<Cell>, address: nat, n: nat, mem: Memory, a: nat)
    requires |file| <= |before| == |mem| && address < |file| && address % CHUNK == 0
    requires n == Min(CHUNK, |file| - address) && address <= a < address + n
    requires CellsAt(before, file, address, mem)
    ensures CellAt(before, file, address + n, a, Written(Prepared(mem, address), address, file[address..address + n])[a])
  {
    hide EraseAddress, SectorBase, SectorIsErased, Prepared, Written, OldFits, Fits, Abandoned, CellsAt, Clean, Stale, Lost;
    var m, d := Prepared(mem, address), file[address..address + n];
    ChunkAlike(address, n, a, |file|);
    OneOfThree(address, |file|);
    CellOf(before, file, address, a, mem);
    ChunkCell(before, file, address, a, mem);
    if Stale(address, |file|) {
      StaleCell(before, file, address, n, mem, a);
    }
    if Clean(address) || (Stale(address, |file|) && OldFits(before, file)) {
      ChunkFits(before, file, address, n, mem);
      FittingWriteStores(m, address, d, a - address);
    }
  }

  /** ... and all others. */
  lemma CopyCellOutside(before: Memory, file: seq<Cell>, address: nat, n: nat, mem: Memory, a: nat)
    requires |file| <= |before| == |mem| && address < |file| && address % CHUNK == 0
    requires n == Min(CHUNK, |file| - address) && a < |mem| && !(address <= a < address + n)
    requires CellsAt(before, file, address, mem)
    ensures CellAt(before, file, address + n, a, Written(Prepared(mem, address), address, file[address..address + n])[a])
  {
    hide EraseAddress, SectorBase, Prepared, Written, OldFits, Fits, Abandoned, CellsAt;
    CellOf(before, file, address, a, mem);
    PreparedCell(before, file, address, a, mem);
    WriteKeepsOutside(Prepared(mem, address), address, file[address..address + n], a);
    EraseFacts(a);
  }

  lemma CellOf(before: Memory, file: seq<Cell>, address: nat, a: nat, mem: Memory)
    requires |file| <= |before| == |mem| && address <= |file| && a < |mem| && CellsAt(before, file, address, mem)
    ensures CellAt(before, file, address, a, mem[a])
  {
  }

  lemma {:induction false} CopyCells(before: Memory, file: seq<Cell>, address: nat, mem: Memory)
    requires |file| <= |before| == |mem| && address <= |file|
    requires address == |file| || address % CHUNK == 0
    requires CellsAt(before, file, address, mem)
    ensures address % CHUNK == 0 ==> CellsAt(before, file, |file|, Copied(mem, file, address, address % STRIDE))
    ensures address == |file| ==> forall scount :: CellsAt(before, file, |file|, Copied(mem, file, address, scount))
    decreases |file| - address
  {
    hide EraseAddress, SectorBase, CellAt, Written, Copied;
    if address == |file| {
      forall scount: nat ensures Copied(mem, file, address, scount) == mem {
        CopyEnds(mem, file, scount);
      }
    } else {
      var n := Min(CHUNK, |file| - address);
      var w := Written(Prepared(mem, address), address, file[address..address + n]);
      forall a: nat | a < |mem| ensures CellAt(before, file, address + n, a, w[a]) {
        if address <= a < address + n {
          CopyCellInside(before, file, address, n, mem, a);
        } else {
          CopyCellOutside(before, file, address, n, mem, a);
        }
      }
      CopyStep(mem, file, address, address % STRIDE);
      CounterFollows(address);
      CopyCells(before, file, address + n, w);
    }
  }

  lemma CopyStarts(before: Memory, file: seq<Cell>)
    requires |file| <= |before|
    ensures CellsAt(before, file, 0, before)
  {
    hide EraseAddress, SectorBase;
  }

  /** Main theorem: what every cell of the chip holds after the copy, for any file that fits on it and
      any previous contents. */
  lemma AfterCopy(before: Memory, file: seq<Cell>, a: nat)
    requires a < |before| && |file| <= |before|
    ensures var now := Copied(before, file, 0, 0)[a];
            if a >= |file| then now == if Stale(a, |file|) then before[a] else 0xFF
            else
              && (Clean(a) ==> now == file[a])
              && (Lost(a, |file|) ==> now == 0xFF)
              && (Stale(a, |file|) ==>
                    && now == (if Abandoned(before, file, a) then before[a] else before[a] & file[a])
                    && (OldFits(before, file) ==> now == file[a]))
  {
    hide EraseAddress, SectorBase, SectorIsErased, OldFits, Copied, Abandoned;
    CopyStarts(before, file);
    CopyCells(before, file, 0, before);
    assert CellAt(before, file, |file|, a, Copied(before, file, 0, 0)[a]);
  }

  lemma OneOfThree(a: nat, length: nat)
    requires a < length
    ensures Clean(a) || Lost(a, length) || Stale(a, length)
    ensures !(Clean(a) && Lost(a, length)) && !(Stale(a, length) && (Clean(a) || Lost(a, length)))
  {
    hide EraseAddress, SectorBase;
  }

  /** What has to hold at one address for the file to come back. */
  ghost predicate Survives(before: Memory, file: seq<Cell>, a: nat)
    requires a < |file| <= |before|
  {
    && (Lost(a, |file|) ==> file[a] == 0xFF)
    && (Stale(a, |file|) ==> before[a] & file[a] == file[a])
  }

  /** Main theorem: the file comes back if and only if it is blank wherever its sector is erased
      after being written, and the old contents leave room for it wherever its sector is not erased
      at all. */
  lemma RoundTripIff(before: Memory, file: seq<Cell>)
    requires |file| <= |before|
    ensures Copied(before, file, 0, 0)[..|file|] == file
        <==> forall a: nat :: a < |file| ==> Survives(before, file, a)
  {
    hide Survives, Copied;
    if forall a: nat :: a < |file| ==> Survives(before, file, a) {
      SurvivorsComeBack(before, file);
    }
    if Copied(before, file, 0, 0)[..|file|] == file {
      forall a: nat | a < |file| ensures Survives(before, file, a) {
        CameBack(before, file, a);
      }
    }
  }

  lemma SurvivorsComeBack(before: Memory, file: seq<Cell>)
    requires |file| <= |before|
    requires forall a: nat :: a < |file| ==> Survives(before, file, a)
    ensures Copied(before, file, 0, 0)[..|file|] == file
  {
    hide EraseAddress, SectorBase, Lost, Stale, Clean, Copied;
    var r := Copied(before, file, 0, 0);
    assert OldFits(before, file) by {
      assert forall a: nat :: a < |file| && Stale(a, |file|) ==> Survives(before, file, a);
    }
    forall a | 0 <= a < |file| ensures r[a] == file[a] {
      assert Survives(before, file, a);
      AfterCopy(before, file, a);
      OneOfThree(a, |file|);
    }
  }

  lemma CameBack(before: Memory, file: seq<Cell>, a: nat)
    requires a < |file| <= |before| && Copied(before, file, 0, 0)[..|file|] == file
    ensures Survives(before, file, a)
  {
    hide EraseAddress, SectorBase, Lost, Stale, Clean, Copied, Abandoned;
    var r := Copied(before, file, 0, 0);
    assert r[..|file|][a] == r[a];
    AfterCopy(before, file, a);
    if Stale(a, |file|) {
      StaleSurvivor(r[a], before[a], file[a]);
    }
  }

  lemma StaleSurvivor(now: Cell, was: Cell, d: Cell)
    requires now == was || now == was & d
    ensures now == d ==> was & d == d
  {
  }

  lemma FirstSector(a: nat)
    requires a < SECTOR
    ensures Clean(a)
  {
    EraseIsUnique(a, 0);
  }

  lemma SecondSector(a: nat)
    requires SECTOR <= a < STRIDE
    ensures SectorIsErased(a) && EraseAddress(a) == STRIDE
  {
    EraseIsUnique(a, STRIDE);
  }

  /** Up to one sector the file always comes back, whatever the flash held before. */
  lemma OneSectorRoundTrips(before: Memory, file: seq<Cell>)
    requires |file| <= 65536 && |file| <= |before|
    ensures Copied(before, file, 0, 0)[..|file|] == file
  {
    hide EraseAddress, SectorBase, Lost, Stale, Clean, Copied;
    forall a: nat | a < |file| ensures Survives(before, file, a) {
      FirstSector(a);
      OneOfThree(a, |file|);
    }
    RoundTripIff(before, file);
  }

  /** Beyond one sector and one chunk the chunk after the first sector is always lost: it is erased
      after having been written. */
  lemma ChunkAfterSectorIsLost(before: Memory, file: seq<Cell>, a: nat)
    requires 69632 < |file| <= |before|
    requires 65536 <= a < 69632
    ensures Copied(before, file, 0, 0)[a] == 0xFF
  {
    hide SectorBase, Clean, Stale, Copied;
    SecondSector(a);
    AfterCopy(before, file, a);
  }

  /** In between, the tail is written over whatever the second sector held. */
  lemma TailComesBackIffOldFits(before: Memory, file: seq<Cell>)
    requires 65536 < |file| <= 69632 && |file| <= |before|
    ensures Copied(before, file, 0, 0)[..|file|] == file
        <==> forall a: nat :: 65536 <= a < |file| ==> before[a] & file[a] == file[a]
  {
    hide SectorBase, Clean, Copied;
    RoundTripIff(before, file);
    forall a: nat | a < |file|
      ensures Survives(before, file, a) <==> (a < SECTOR || before[a] & file[a] == file[a])
    {
      TailCell(before, file, a);
    }
  }

  lemma TailCell(before: Memory, file: seq<Cell>, a: nat)
    requires SECTOR < |file| <= SECTOR + CHUNK && a < |file| <= |before|
    ensures Survives(before, file, a) <==> (a < SECTOR || before[a] & file[a] == file[a])
  {
    hide SectorBase;
    if a < SECTOR {
      FirstSector(a);
      OneOfThree(a, |file|);
    } else {
      SecondSector(a);
    }
  }
}
