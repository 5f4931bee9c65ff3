/** Two-level page tables in physical memory, the hardware walk over them
    (section 4.3, "32-Bit Paging", of the Intel SDM volume 3A), and what the
    paging functions do to them. */
module PageTables {

  datatype Option<+T> = None | Some(value: T)

  const FRAMES: nat := 0x10_0000
  const DIR: FrameNo := 0x90            // the page directory, in CR3
  const FIRST_TABLE: FrameNo := 0x91
  const WINDOW: nat := 0xFFC00          // first page of the recursive window
  const U32: nat := 0x1_0000_0000

  /** A physical frame number, or a virtual page number. */
  type FrameNo = n: nat | n < FRAMES

  type Bits9 = n: nat | n < 512

  /** A page directory or page table entry; `rest` is bits 3 to 11. */
  datatype Word = Word(present: bool, rw: bool, user: bool, rest: Bits9, frame: FrameNo)

  const ZERO := Word(false, false, false, 0, 0)

  type Page = p: seq<Word> | |p| == 1024 witness seq(1024, _ => ZERO)

  function ZeroPage(): Page { seq(1024, _ => ZERO) }

  /** Physical memory as frames of 1024 words. */
  type Memory = m: seq<Page> | |m| == FRAMES witness seq(FRAMES, _ => ZeroPage())

  function Flag(b: bool): nat { if b then 1 else 0 }

  /** The 32 bits of an entry, from `frame` at the top to `present` at the bottom. */
  function Pack(w: Word): nat {
    2 * (2 * (2 * (512 * w.frame + w.rest) + Flag(w.user)) + Flag(w.rw)) + Flag(w.present)
  }

  function Unpack(n: nat): Word
    requires n < U32
  {
    var high := n / 2 / 2 / 2;
    Word(n % 2 == 1, n / 2 % 2 == 1, n / 2 / 2 % 2 == 1, high % 512, high / 512)
  }

  lemma Halve(q: nat, r: nat)
    requires r < 2
    ensures (2 * q + r) / 2 == q && (2 * q + r) % 2 == r
  {
  }

  /** Entries are exactly the 32-bit words. */
  lemma UnpackPack(w: Word)
    ensures Pack(w) < U32 && Unpack(Pack(w)) == w
  {
    var c := 512 * w.frame + w.rest;
    var b := 2 * c + Flag(w.user);
    var a := 2 * b + Flag(w.rw);
    assert c / 512 == w.frame && c % 512 == w.rest;
    Halve(c, Flag(w.user));
    Halve(b, Flag(w.rw));
    Halve(a, Flag(w.present));
  }

  lemma PackUnpack(n: nat)
    requires n < U32
    ensures Pack(Unpack(n)) == n
  {
    var w := Unpack(n);
    var a, b, c := n / 2, n / 2 / 2, n / 2 / 2 / 2;
    assert c == 512 * w.frame + w.rest;
    assert b == 2 * c + Flag(w.user);
    assert a == 2 * b + Flag(w.rw);
  }

  /** Where the fields lie: present, rw and user in bits 0 to 2, the frame from bit
      12 on. */
  lemma PackBits(w: Word)
    ensures Pack(w) % 2 == Flag(w.present) && Pack(w) / 2 % 2 == Flag(w.rw) && Pack(w) / 4 % 2 == Flag(w.user)
    ensures Pack(w) / 8 % 512 == w.rest && Pack(w) / 4096 == w.frame
  {
    var c := 512 * w.frame + w.rest;
    var b := 2 * c + Flag(w.user);
    var a := 2 * b + Flag(w.rw);
    assert c / 512 == w.frame && c % 512 == w.rest;
    Halve(c, Flag(w.user));
    Halve(b, Flag(w.rw));
    Halve(a, Flag(w.present));
    assert Pack(w) / 2 == a && Pack(w) / 4 == b && Pack(w) / 8 == c;
    assert Pack(w) / 4096 == c / 512;
  }

  // ----- Hardware -----

  function PutFrame(mem: Memory, f: FrameNo, p: Page): Memory { mem[f := p] }

  function Put(mem: Memory, f: FrameNo, i: nat, w: Word): Memory
    requires i < 1024
  {
    mem[f := mem[f][i := w]]
  }

  function Pte(mem: Memory, v: FrameNo): Word {
    mem[mem[DIR][v / 1024].frame][v % 1024]
  }

  /** The frame that page `v` translates to. */
  function Walk(mem: Memory, v: FrameNo): Option<FrameNo> {
    if mem[DIR][v / 1024].present && Pte(mem, v).present then Some(Pte(mem, v).frame) else None
  }

  /** The physical address that a linear address translates to. */
  function HwWalk(mem: Memory, addr: nat): Option<nat>
    requires addr < U32
  {
    match Walk(mem, addr / 4096)
    case None => None
    case Some(f) => Some(4096 * f + addr % 4096)
  }

  /** A linear address is ten bits of directory index, ten of table index and
      twelve of offset. */
  lemma WalkReads(mem: Memory, d: nat, t: nat, offset: nat)
    requires d < 1024 && t < 1024 && offset < 4096
    ensures var pde := mem[DIR][d];
            var pte := mem[pde.frame][t];
            HwWalk(mem, 0x40_0000 * d + 0x1000 * t + offset)
            == if pde.present && pte.present then Some(0x1000 * pte.frame + offset) else None
  {
    var addr := 0x40_0000 * d + 0x1000 * t + offset;
    assert addr / 4096 == 1024 * d + t && addr % 4096 == offset;
    assert addr / 4096 / 1024 == d && addr / 4096 % 1024 == t;
  }

  /** A word access through a virtual page; it must be mapped. */
  function Load(mem: Memory, v: FrameNo, i: nat): Word
    requires Walk(mem, v).Some? && i < 1024
  {
    mem[Walk(mem, v).value][i]
  }

  function Store(mem: Memory, v: FrameNo, i: nat, w: Word): Memory
    requires Walk(mem, v).Some? && i < 1024
  {
    Put(mem, Walk(mem, v).value, i, w)
  }

  // ----- The recursive window -----

  predicate IsTable(mem: Memory, i: int) { 0 <= i < 1023 && mem[DIR][i].present }

  /** The directory maps itself, each page table has a frame of its own, and
      the page of the directory is identity-mapped. */
  ghost predicate Recursive(mem: Memory) {
    && mem[DIR][1023].present && mem[DIR][1023].frame == DIR
    && mem[DIR][0].present && mem[DIR][0].frame == FIRST_TABLE
    && (forall i :: IsTable(mem, i) ==> mem[DIR][i].frame != DIR)
    && (forall i, j :: IsTable(mem, i) && IsTable(mem, j) && i != j ==> mem[DIR][i].frame != mem[DIR][j].frame)
    && Walk(mem, DIR) == Some(DIR)
  }

  /** Page i of the window is the frame of table i. */
  lemma WindowWalk(mem: Memory, i: nat)
    requires Recursive(mem) && i < 1024
    ensures Walk(mem, WINDOW + i) == if mem[DIR][i].present then Some(mem[DIR][i].frame) else None
  {
    assert (WINDOW + i) / 1024 == 1023 && (WINDOW + i) % 1024 == i;
  }

  /** get_phys_addr, with every access through its virtual address. */
  function GetPhysAddr(mem: Memory, addr: nat): nat
    requires addr < U32 && Recursive(mem)
  {
    var pd, pt := addr / 4096 / 1024, addr / 4096 % 1024;
    WindowWalk(mem, pd);
    if !Load(mem, DIR, pd).present then 0
    else
      var pte := Load(mem, WINDOW + pd, pt);
      if !pte.present then 0 else 4096 * pte.frame + addr % 4096
  }

  /** It agrees with the hardware everywhere, the window included, and returns
      0 exactly for unmapped addresses and physical address 0. */
  lemma GetPhysAddrIsWalk(mem: Memory, addr: nat)
    requires addr < U32 && Recursive(mem)
    ensures GetPhysAddr(mem, addr) == (if HwWalk(mem, addr).Some? then HwWalk(mem, addr).value else 0)
    ensures GetPhysAddr(mem, addr) == 0 <==> HwWalk(mem, addr) == None || HwWalk(mem, addr) == Some(0)
  {
    WindowWalk(mem, addr / 4096 / 1024);
  }

  // ----- The abstract map -----

  /** What a page is mapped to. */
  datatype Leaf = Leaf(frame: FrameNo, rw: bool, user: bool)

  function LeafOf(w: Word): Option<Leaf> {
    if w.present then Some(Leaf(w.frame, w.rw, w.user)) else None
  }

  function Mapping(mem: Memory, v: FrameNo): Option<Leaf> {
    if mem[DIR][v / 1024].present then LeafOf(Pte(mem, v)) else None
  }

  /** The page's PTE becomes `w`. */
  function SetPte(mem: Memory, v: FrameNo, w: Word): Memory {
    Put(mem, mem[DIR][v / 1024].frame, v % 1024, w)
  }

  lemma SetPteMaps(mem: Memory, v: FrameNo, w: Word)
    requires Recursive(mem) && v < WINDOW && v != DIR && mem[DIR][v / 1024].present
    ensures var after := SetPte(mem, v, w);
            && after[DIR] == mem[DIR] && Recursive(after)
            && forall u: FrameNo :: Mapping(after, u) == if u == v then LeafOf(w) else Mapping(mem, u)
  {
    var after := SetPte(mem, v, w);
    assert IsTable(mem, v / 1024) && after[DIR] == mem[DIR];
    forall u: FrameNo ensures u == v || !mem[DIR][u / 1024].present || Pte(after, u) == Pte(mem, u) {
      if u / 1024 == v / 1024 {
        assert u == v <==> u % 1024 == v % 1024;
      } else if u / 1024 < 1023 && mem[DIR][u / 1024].present {
        assert IsTable(mem, u / 1024);
      }
    }
    assert forall i :: IsTable(after, i) == IsTable(mem, i);
    assert Pte(after, DIR) == Pte(mem, DIR);
  }

  /** An unused frame: neither the directory nor any table. */
  ghost predicate Unused(mem: Memory, f: FrameNo) {
    f != DIR && forall i :: IsTable(mem, i) ==> mem[DIR][i].frame != f
  }

  /** A zeroed table in frame `f` becomes table `slot`. */
  function AddTable(mem: Memory, slot: nat, f: FrameNo): Memory
    requires slot < 1024
  {
    PutFrame(Put(mem, DIR, slot, Word(true, true, true, mem[DIR][slot].rest, f)), f, ZeroPage())
  }

  /** Adding a table maps nothing but its own window page. */
  lemma AddTableMaps(mem: Memory, slot: nat, f: FrameNo)
    requires Recursive(mem) && slot < 1023 && !mem[DIR][slot].present && Unused(mem, f)
    ensures var after := AddTable(mem, slot, f);
            && Recursive(after) && after[DIR][slot].present && after[DIR][slot].frame == f
            && forall u: FrameNo ::
                 Mapping(after, u) == if u == WINDOW + slot then Some(Leaf(f, true, true)) else Mapping(mem, u)
  {
    var after := AddTable(mem, slot, f);
    assert forall i :: 0 <= i < 1024 && i != slot ==> after[DIR][i] == mem[DIR][i];
    assert forall i :: IsTable(after, i) <==> IsTable(mem, i) || i == slot;
    forall u: FrameNo
      ensures Mapping(after, u) == if u == WINDOW + slot then Some(Leaf(f, true, true)) else Mapping(mem, u)
    {
      if u / 1024 == 1023 {
        assert u == WINDOW + u % 1024;
      } else if u / 1024 != slot && mem[DIR][u / 1024].present {
        assert IsTable(mem, u / 1024);
        assert Pte(after, u) == Pte(mem, u);
      }
    }
    assert IsTable(mem, 0) && Pte(after, DIR) == Pte(mem, DIR);
  }
}
