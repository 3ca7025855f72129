/** `MMU.c`: a virtual-memory manager translating 16-bit logical addresses through a
    16-entry FIFO TLB and a 256-entry page table, loading pages from a backing store on
    a fault and evicting the least recently used page when physical memory is full. */
module Mmu {
  import opened Wrappers

  const PageTableSize: nat := 256
  const PageSize: nat := 256
  const TlbSize: nat := 16
  const FrameSize: nat := 256
  /** The backing store holds one 256-byte page per page-table entry. */
  const DiskSize: nat := PageTableSize * PageSize

  datatype PageEntry = PageEntry(frame: int, valid: bool, updateTime: int)
  datatype TlbEntry = TlbEntry(page: int, frame: int)

  /** How one address was translated. */
  datatype Outcome = TlbHit | PageHit | PageFault

  /** One line of the output file: logical address, physical address, signed byte. */
  datatype Line = Line(logical: int, physical: int, value: int)

  /** Every integer up to 2^24 is a `float` (24-bit significand); one more rounds, to
      nearest with ties to even, back down to 2^24. */
  const FloatCountLimit: nat := 0x100_0000

  /** `x++` on a `float` counter that counts up from 0 and so holds an integer: exact
      below 2^24, stuck at 2^24 from there on. */
  function FloatIncrement(x: nat): nat {
    if x < FloatCountLimit then x + 1 else x
  }

  function Min(x: nat, y: nat): nat {
    if x <= y then x else y
  }

  /** The program's global and `main`-local state between two input lines. `memory` is
      `physical_memory`: one 256-byte frame per frame number. `total`, `hits` and
      `faults` are the code's `float` counters, which count by `FloatIncrement`. */
  datatype State = State(
    pageTable: seq<PageEntry>,
    tlb: seq<TlbEntry>,
    tlbCount: nat,
    memoryCount: nat,
    memory: seq<seq<int>>,
    clock: nat,
    total: nat,
    hits: nat,
    faults: nat)

  // ---------------------------------------------------------------------------
  // Address split.

  /** `(logical_address >> 8) & 0xFF`; Dafny's `/` and `%` by a positive constant are
      the arithmetic shift and the two's-complement mask. */
  function PageNumber(a: int): nat {
    (a / PageSize) % PageTableSize
  }

  /** `logical_address & 0xFF`. */
  function Offset(a: int): nat {
    a % PageSize
  }

  /** Page number and offset are the two bytes of the address's low 16 bits: they are in
      range, and together they rebuild the address whenever it fits in 16 bits. */
  lemma AddressSplit(a: int)
    ensures PageNumber(a) < PageTableSize && Offset(a) < PageSize
    ensures PageNumber(a) * PageSize + Offset(a) == a % DiskSize
    ensures 0 <= a < DiskSize ==> a == PageNumber(a) * PageSize + Offset(a)
  {
    var q := a / PageSize;
    assert a == q * PageSize + Offset(a);
    assert q == (q / PageTableSize) * PageTableSize + PageNumber(a);
    assert a == (q / PageTableSize) * DiskSize + (PageNumber(a) * PageSize + Offset(a));
  }

  /** The bytes of page `p` in the backing store (`fseek` to `256 * p`, `fread` 256).
      The code reads them into `signed char`s, so each is a value -128..127; nothing
      here depends on that range. */
  function DiskPage(disk: seq<int>, p: nat): (bytes: seq<int>)
    requires |disk| == DiskSize && p < PageTableSize
    ensures |bytes| == FrameSize
    ensures forall j :: 0 <= j < FrameSize ==> bytes[j] == disk[p * PageSize + j]
  {
    disk[p * PageSize .. p * PageSize + PageSize]
  }

  // ---------------------------------------------------------------------------
  // TLB.

  ghost predicate InTlb(tlb: seq<TlbEntry>, page: int) {
    exists i :: 0 <= i < |tlb| && tlb[i].page == page
  }

  /** `i` is the first TLB slot holding `page`. */
  ghost predicate IsFirstMatch(tlb: seq<TlbEntry>, page: int, i: int) {
    0 <= i < |tlb| && tlb[i].page == page && forall j :: 0 <= j < i ==> tlb[j].page != page
  }

  /** `search_TLB`: the frame of the first slot holding `page`, or -1. */
  method SearchTlb(tlb: seq<TlbEntry>, page: int) returns (frame: int)
    ensures InTlb(tlb, page) ==> exists i :: IsFirstMatch(tlb, page, i) && frame == tlb[i].frame
    ensures !InTlb(tlb, page) ==> frame == -1
  {
    var i := 0;
    while i < |tlb|
      invariant 0 <= i <= |tlb|
      invariant forall j :: 0 <= j < i ==> tlb[j].page != page
    {
      if tlb[i].page == page {
        assert IsFirstMatch(tlb, page, i);
        return tlb[i].frame;
      }
      i := i + 1;
    }
    return -1;
  }

  /** `update_TLB` as a value: while there is room, fill the next free slot; once full,
      drop the oldest entry and append the new one (first in, first out). */
  function TlbInsert(tlb: seq<TlbEntry>, count: nat, e: TlbEntry): (seq<TlbEntry>, nat)
    requires |tlb| == TlbSize && count <= TlbSize
  {
    if count < TlbSize then (tlb[count := e], count + 1)
    else (tlb[1..] + [e], TlbSize)
  }

  /** `update_TLB`, with its shifting loop. */
  method UpdateTlb(tlb: seq<TlbEntry>, count: nat, page: int, frame: int) returns (tlb': seq<TlbEntry>, count': nat)
    requires |tlb| == TlbSize && count <= TlbSize
    ensures (tlb', count') == TlbInsert(tlb, count, TlbEntry(page, frame))
  {
    if count < TlbSize {
      tlb' := tlb[count := TlbEntry(page, frame)];
      count' := count + 1;
    } else {
      tlb' := tlb;
      var t := 0;
      while t < TlbSize - 1
        invariant 0 <= t <= TlbSize - 1
        invariant |tlb'| == TlbSize
        invariant forall j :: 0 <= j < t ==> tlb'[j] == tlb[j + 1]
        invariant forall j :: t <= j < TlbSize ==> tlb'[j] == tlb[j]
      {
        tlb' := tlb'[t := tlb'[t + 1]];
        t := t + 1;
      }
      tlb' := tlb'[TlbSize - 1 := TlbEntry(page, frame)];
      assert tlb' == tlb[1..] + [TlbEntry(page, frame)];
      count' := TlbSize;
    }
  }

  /** An unused TLB slot, as `main` initialises it. */
  const BlankEntry := TlbEntry(-1, -1)

  function Blanks(n: nat): (s: seq<TlbEntry>)
    ensures |s| == n && forall i :: 0 <= i < n ==> s[i] == BlankEntry
  {
    seq(n, _ => BlankEntry)
  }

  /** The TLB after inserting the entries of `history` in order into the initial TLB. */
  function Replay(history: seq<TlbEntry>): (r: (seq<TlbEntry>, nat))
    ensures |r.0| == TlbSize && r.1 <= TlbSize
  {
    if history == [] then (Blanks(TlbSize), 0)
    else
      var prev := Replay(history[..|history| - 1]);
      TlbInsert(prev.0, prev.1, history[|history| - 1])
  }

  /** The last (at most 16) entries of `history`, oldest first, padded with unused slots. */
  function Recent(history: seq<TlbEntry>): (r: seq<TlbEntry>)
    ensures |r| == TlbSize
  {
    if |history| <= TlbSize then history + Blanks(TlbSize - |history|)
    else history[|history| - TlbSize..]
  }

  /** The TLB is first-in first-out: it always holds exactly the last 16 insertions, in
      insertion order, and counts them until it is full. */
  lemma {:induction false} TlbHoldsLastInsertions(history: seq<TlbEntry>)
    ensures Replay(history) == (Recent(history), if |history| < TlbSize then |history| else TlbSize)
  {
    if history != [] {
      var h := history[..|history| - 1];
      var e := history[|history| - 1];
      TlbHoldsLastInsertions(h);
      assert history == h + [e];
      if |h| < TlbSize {
        RecentFills(h, e);
      } else {
        RecentShifts(h, e);
      }
    } else {
      assert Recent(history) == Blanks(TlbSize);
    }
  }

  lemma RecentFills(h: seq<TlbEntry>, e: TlbEntry)
    requires |h| < TlbSize
    ensures Recent(h)[|h| := e] == Recent(h + [e])
  {
    assert Recent(h)[|h| := e] == (h + [e]) + Blanks(TlbSize - |h| - 1);
  }

  lemma RecentShifts(h: seq<TlbEntry>, e: TlbEntry)
    requires |h| >= TlbSize
    ensures Recent(h)[1..] + [e] == Recent(h + [e])
  {
    assert (h + [e])[|h| + 1 - TlbSize..] == h[|h| - TlbSize + 1..] + [e];
  }

  // ---------------------------------------------------------------------------
  // Page table.

  /** `search_page_table`: the frame of a valid entry, -1 for an invalid one. */
  function SearchPageTable(pt: seq<PageEntry>, page: nat): int
    requires page < |pt|
  {
    if pt[page].valid then pt[page].frame else -1
  }

  /** `update_page_table`: entry `page` becomes a valid mapping to `frame` stamped with
      `time`; no other entry changes. */
  function UpdatePageTable(pt: seq<PageEntry>, page: nat, frame: int, time: int): (pt': seq<PageEntry>)
    requires page < |pt|
    ensures |pt'| == |pt|
    ensures pt'[page].valid && pt'[page].frame == frame && pt'[page].updateTime == time
    ensures forall q :: 0 <= q < |pt| && q != page ==> pt'[q] == pt[q]
  {
    pt[page := PageEntry(frame, true, time)]
  }

  /** The number of valid page-table entries. */
  function ValidCount(pt: seq<PageEntry>): nat {
    if pt == [] then 0 else (if pt[0].valid then 1 else 0) + ValidCount(pt[1..])
  }

  /** Replacing one entry changes the count of valid entries by the change in validity. */
  lemma {:induction false} ValidCountUpdate(pt: seq<PageEntry>, i: nat, e: PageEntry)
    requires i < |pt|
    ensures ValidCount(pt[i := e]) + (if pt[i].valid then 1 else 0)
         == ValidCount(pt) + (if e.valid then 1 else 0)
  {
    if i > 0 {
      ValidCountUpdate(pt[1..], i - 1, e);
      assert pt[i := e][1..] == pt[1..][i - 1 := e];
    }
  }

  /** A positive count of valid entries means some entry is valid. */
  lemma {:induction false} ValidCountPositive(pt: seq<PageEntry>)
    requires ValidCount(pt) > 0
    ensures exists q :: 0 <= q < |pt| && pt[q].valid
  {
    if !pt[0].valid {
      ValidCountPositive(pt[1..]);
      var q :| 0 <= q < |pt[1..]| && pt[1..][q].valid;
      assert pt[q + 1].valid;
    }
  }

  /** `v` is what the LRU scan pages out: a valid entry with the least `update_time`,
      the lowest index among equals. */
  ghost predicate IsLruVictim(pt: seq<PageEntry>, v: int) {
    && 0 <= v < |pt| && pt[v].valid
    && (forall q :: 0 <= q < |pt| && pt[q].valid ==> pt[v].updateTime <= pt[q].updateTime)
    && (forall q :: 0 <= q < v && pt[q].valid ==> pt[v].updateTime < pt[q].updateTime)
  }

  /** The two loops of the page-out branch: find the first valid entry, then scan for a
      strictly smaller `update_time`. */
  method LruVictim(pt: seq<PageEntry>) returns (victim: nat)
    requires exists q :: 0 <= q < |pt| && pt[q].valid
    ensures IsLruVictim(pt, victim)
  {
    var b := 0;
    while !pt[b].valid
      invariant 0 <= b < |pt|
      invariant exists q :: b <= q < |pt| && pt[q].valid
      invariant forall q :: 0 <= q < b ==> !pt[q].valid
      decreases |pt| - b
    {
      b := b + 1;
    }
    var min := pt[b].updateTime;
    victim := b;
    b := 0;
    while b < |pt|
      invariant 0 <= b <= |pt|
      invariant 0 <= victim < |pt| && pt[victim].valid && min == pt[victim].updateTime
      invariant forall q :: 0 <= q < b && pt[q].valid ==> min <= pt[q].updateTime
      invariant forall q :: 0 <= q < victim && pt[q].valid ==> min < pt[q].updateTime
      invariant victim < b || forall q :: 0 <= q < |pt| && q != victim && pt[q].valid ==> victim < q
    {
      if pt[b].valid && pt[b].updateTime < min {
        min := pt[b].updateTime;
        victim := b;
      }
      b := b + 1;
    }
  }

  // ---------------------------------------------------------------------------
  // Translation.

  /** TLB slots past `TLB_count` are unused; the used ones map a page to a frame of a
      memory of `memorySize` frames. */
  ghost predicate TlbShape(tlb: seq<TlbEntry>, count: nat, memorySize: nat) {
    && |tlb| == TlbSize && count <= TlbSize
    && (forall i :: count <= i < TlbSize ==> tlb[i] == BlankEntry)
    && (forall i :: 0 <= i < count ==> 0 <= tlb[i].page < PageTableSize && 0 <= tlb[i].frame < memorySize)
  }

  /** Every valid page sits in a frame below `n`. */
  ghost predicate FramesBelow(pt: seq<PageEntry>, n: int) {
    forall p :: 0 <= p < |pt| && pt[p].valid ==> 0 <= pt[p].frame < n
  }

  /** No two valid pages share a frame. */
  ghost predicate DistinctFrames(pt: seq<PageEntry>) {
    forall p, q :: 0 <= p < |pt| && 0 <= q < |pt| && p != q && pt[p].valid && pt[q].valid ==>
      pt[p].frame != pt[q].frame
  }

  /** Physical memory has `memorySize` frames of 256 bytes. */
  ghost predicate MemoryShape(memory: seq<seq<int>>, memorySize: nat) {
    |memory| == memorySize && forall f :: 0 <= f < memorySize ==> |memory[f]| == FrameSize
  }

  /** Every valid page's frame holds that page's bytes from the backing store. */
  ghost predicate Loaded(pt: seq<PageEntry>, memory: seq<seq<int>>, disk: seq<int>) {
    |disk| == DiskSize && |pt| == PageTableSize &&
    forall p :: 0 <= p < PageTableSize && pt[p].valid ==>
      0 <= pt[p].frame < |memory| && memory[pt[p].frame] == DiskPage(disk, p)
  }

  /** What holds between any two input lines for a memory of `memorySize` frames:
      `memory_count` is the number of valid pages and never exceeds the memory size, and
      valid pages sit in distinct frames below `memory_count`, holding their bytes. */
  ghost predicate Inv(s: State, memorySize: nat, disk: seq<int>) {
    && TlbShape(s.tlb, s.tlbCount, memorySize)
    && |s.pageTable| == PageTableSize
    && ValidCount(s.pageTable) == s.memoryCount <= memorySize
    && FramesBelow(s.pageTable, s.memoryCount)
    && DistinctFrames(s.pageTable)
    && MemoryShape(s.memory, memorySize)
    && Loaded(s.pageTable, s.memory, disk)
  }

  /** The state `main` sets up: empty TLB, all pages invalid, no frame used. The content
      of `physical_memory` before a page is loaded is never read; it is modelled as 0. */
  function Initial(memorySize: nat): State {
    State(seq(PageTableSize, _ => PageEntry(-1, false, -1)), Blanks(TlbSize), 0, 0,
          seq(memorySize, _ => seq(FrameSize, _ => 0)), 0, 0, 0, 0)
  }

  lemma {:induction false} NoneValid(pt: seq<PageEntry>)
    requires forall q :: 0 <= q < |pt| ==> !pt[q].valid
    ensures ValidCount(pt) == 0
  {
    if pt != [] {
      NoneValid(pt[1..]);
    }
  }

  /** The initial state satisfies the invariant. */
  lemma InitialInv(memorySize: nat, disk: seq<int>)
    requires |disk| == DiskSize
    ensures Inv(Initial(memorySize), memorySize, disk)
  {
    NoneValid(Initial(memorySize).pageTable);
  }

  /** Stamp a page's entry with the clock, whether or not the entry is still valid. */
  function TouchPage(pt: seq<PageEntry>, page: nat, clock: int): (pt': seq<PageEntry>)
    requires page < |pt|
    ensures |pt'| == |pt| && ValidCount(pt') == ValidCount(pt)
    ensures forall q :: 0 <= q < |pt| ==> pt'[q].valid == pt[q].valid && pt'[q].frame == pt[q].frame
    ensures pt'[page].updateTime == clock
    ensures forall q :: 0 <= q < |pt| && q != page ==> pt'[q] == pt[q]
  {
    ValidCountUpdate(pt, page, pt[page].(updateTime := clock));
    pt[page := pt[page].(updateTime := clock)]
  }

  /** Inserting a mapping into the TLB keeps its shape. */
  lemma TlbInsertKeepsShape(tlb: seq<TlbEntry>, count: nat, page: int, frame: int, memorySize: nat)
    requires TlbShape(tlb, count, memorySize)
    requires 0 <= page < PageTableSize && 0 <= frame < memorySize
    ensures TlbShape(TlbInsert(tlb, count, TlbEntry(page, frame)).0, TlbInsert(tlb, count, TlbEntry(page, frame)).1, memorySize)
  {
  }

  /** Under the invariant a lookup finds a frame exactly when the page is in the TLB,
      and that frame is a frame of physical memory. */
  lemma TlbLookupInRange(s: State, memorySize: nat, disk: seq<int>, page: nat, frame: int)
    requires Inv(s, memorySize, disk) && page < PageTableSize
    requires InTlb(s.tlb, page) ==> exists i :: IsFirstMatch(s.tlb, page, i) && frame == s.tlb[i].frame
    requires !InTlb(s.tlb, page) ==> frame == -1
    ensures frame >= 0 <==> InTlb(s.tlb, page)
    ensures frame >= 0 ==> frame < memorySize
  {
    if InTlb(s.tlb, page) {
      var i :| IsFirstMatch(s.tlb, page, i) && frame == s.tlb[i].frame;
      assert i < s.tlbCount;
    }
  }

  /** Paging out `victim` frees its frame: one valid page fewer, and no remaining valid
      page uses that frame. */
  lemma EvictKeepsInv(pt: seq<PageEntry>, memory: seq<seq<int>>, disk: seq<int>, victim: nat, mc: nat)
    requires victim < |pt| && pt[victim].valid && ValidCount(pt) == mc
    requires FramesBelow(pt, mc) && DistinctFrames(pt) && Loaded(pt, memory, disk)
    ensures var pt' := pt[victim := PageEntry(-1, false, -1)];
      && ValidCount(pt') == mc - 1
      && FramesBelow(pt', mc) && DistinctFrames(pt') && Loaded(pt', memory, disk)
      && (forall p :: 0 <= p < |pt| && pt'[p].valid ==> pt'[p].frame != pt[victim].frame)
  {
    ValidCountUpdate(pt, victim, PageEntry(-1, false, -1));
  }

  /** Loading an invalid page into a frame that no valid page uses adds one valid page
      and keeps frames distinct and loaded. */
  lemma LoadKeepsInv(pt: seq<PageEntry>, memory: seq<seq<int>>, disk: seq<int>, memorySize: nat,
                     mc: nat, page: nat, frame: nat, clock: int)
    requires page < |pt| && !pt[page].valid && ValidCount(pt) == mc && frame <= mc < memorySize
    requires FramesBelow(pt, mc + 1) && DistinctFrames(pt) && MemoryShape(memory, memorySize)
    requires Loaded(pt, memory, disk)
    requires forall p :: 0 <= p < |pt| && pt[p].valid ==> pt[p].frame != frame
    ensures var pt' := UpdatePageTable(pt, page, frame, clock);
            var memory' := memory[frame := DiskPage(disk, page)];
      && ValidCount(pt') == mc + 1
      && FramesBelow(pt', mc + 1) && DistinctFrames(pt')
      && MemoryShape(memory', memorySize) && Loaded(pt', memory', disk)
  {
    ValidCountUpdate(pt, page, PageEntry(frame, true, clock));
  }

  /** A TLB hit: the frame comes from the TLB, the page's entry is stamped. */
  method TlbHitStep(s: State, memorySize: nat, disk: seq<int>, page: nat, frame: nat) returns (s': State)
    requires Inv(s, memorySize, disk) && page < PageTableSize && frame < memorySize
    ensures Inv(s', memorySize, disk)
    ensures s'.pageTable == s.pageTable[page := s.pageTable[page].(updateTime := s'.clock)]
    ensures s'.clock == s.clock + 1
    ensures s'.tlb == s.tlb && s'.tlbCount == s.tlbCount
    ensures s'.memory == s.memory && s'.memoryCount == s.memoryCount
    ensures s'.total == FloatIncrement(s.total) && s'.hits == FloatIncrement(s.hits) && s'.faults == s.faults
  {
    var clock := s.clock + 1;
    s' := s.(pageTable := TouchPage(s.pageTable, page, clock), clock := clock,
             total := FloatIncrement(s.total), hits := FloatIncrement(s.hits));
  }

  /** A TLB miss with the page valid: the frame comes from the page table, the entry is
      stamped and the mapping enters the TLB. */
  method PageHitStep(s: State, memorySize: nat, disk: seq<int>, page: nat) returns (s': State)
    requires Inv(s, memorySize, disk) && page < PageTableSize && s.pageTable[page].valid
    ensures Inv(s', memorySize, disk)
    ensures s'.pageTable == s.pageTable[page := s.pageTable[page].(updateTime := s'.clock)]
    ensures s'.clock == s.clock + 1
    ensures (s'.tlb, s'.tlbCount) == TlbInsert(s.tlb, s.tlbCount, TlbEntry(page, s.pageTable[page].frame))
    ensures s'.memory == s.memory && s'.memoryCount == s.memoryCount
    ensures s'.total == FloatIncrement(s.total) && s'.hits == s.hits && s'.faults == s.faults
  {
    var clock := s.clock + 1;
    var frame := SearchPageTable(s.pageTable, page);
    var tlb', count' := UpdateTlb(s.tlb, s.tlbCount, page, frame);
    TlbInsertKeepsShape(s.tlb, s.tlbCount, page, frame, memorySize);
    s' := s.(pageTable := TouchPage(s.pageTable, page, clock), tlb := tlb', tlbCount := count',
             clock := clock, total := FloatIncrement(s.total));
  }

  /** A page fault: take the next unused frame, or, with memory full, page out the LRU
      page and reuse its frame; load the page, map it, and enter it into the TLB. The
      TLB is not searched for the paged-out page. */
  method FaultStep(s: State, memorySize: nat, disk: seq<int>, page: nat) returns (s': State, frame: nat)
    requires Inv(s, memorySize, disk) && memorySize > 0 && page < PageTableSize && !s.pageTable[page].valid
    ensures Inv(s', memorySize, disk)
    ensures frame < memorySize && s'.memory == s.memory[frame := DiskPage(disk, page)]
    ensures s'.clock == s.clock + 1
    ensures (s'.tlb, s'.tlbCount) == TlbInsert(s.tlb, s.tlbCount, TlbEntry(page, frame))
    ensures s.memoryCount < memorySize ==>
      && frame == s.memoryCount && s'.memoryCount == s.memoryCount + 1
      && s'.pageTable == s.pageTable[page := PageEntry(frame, true, s'.clock)]
    ensures s.memoryCount == memorySize ==>
      exists v :: && IsLruVictim(s.pageTable, v) && frame == s.pageTable[v].frame
                  && s'.memoryCount == s.memoryCount
                  && s'.pageTable == s.pageTable[v := PageEntry(-1, false, -1)][page := PageEntry(frame, true, s'.clock)]
    ensures s'.total == FloatIncrement(s.total) && s'.hits == s.hits && s'.faults == FloatIncrement(s.faults)
  {
    var clock := s.clock + 1;
    var pt := s.pageTable;
    var mc := s.memoryCount;
    if mc == memorySize {
      ValidCountPositive(pt);
      var victim := LruVictim(pt);
      frame := pt[victim].frame;
      EvictKeepsInv(pt, s.memory, disk, victim, mc);
      pt := pt[victim := PageEntry(-1, false, -1)];
      mc := mc - 1;
      assert IsLruVictim(s.pageTable, victim) && frame == s.pageTable[victim].frame;
    } else {
      frame := mc;
    }
    LoadKeepsInv(pt, s.memory, disk, memorySize, mc, page, frame, clock);
    var memory := s.memory[frame := DiskPage(disk, page)];
    pt := UpdatePageTable(pt, page, frame, clock);
    var tlb', count' := UpdateTlb(s.tlb, s.tlbCount, page, frame);
    TlbInsertKeepsShape(s.tlb, s.tlbCount, page, frame, memorySize);
    s' := State(pt, tlb', count', mc + 1, memory, clock, FloatIncrement(s.total), s.hits, FloatIncrement(s.faults));
  }

  /** What one input line does, as a relation between the state before, the outcome,
      the state after and the printed line. The frame is the TLB's first match on a TLB
      hit, the page table's frame on a page-table hit, and on a fault the next unused
      frame or, with memory full, the frame of the least recently used page, which is
      paged out. The printed byte is read from that frame after the step. Every field of
      the state is accounted for. */
  ghost predicate Translated(s: State, memorySize: nat, disk: seq<int>, a: int, kind: Outcome, s': State, out: Line)
    requires Inv(s, memorySize, disk)
  {
    var page := PageNumber(a);
    var clock := s.clock + 1;
    var f := out.physical / FrameSize;
    && out.logical == a && 0 <= out.physical && out.physical % FrameSize == Offset(a)
    && (kind == TlbHit <==> InTlb(s.tlb, page))
    && (kind == PageFault <==> !InTlb(s.tlb, page) && !s.pageTable[page].valid)
    && s'.clock == clock && s'.total == FloatIncrement(s.total)
    && s'.hits == (if kind == TlbHit then FloatIncrement(s.hits) else s.hits)
    && s'.faults == (if kind == PageFault then FloatIncrement(s.faults) else s.faults)
    && (kind == TlbHit ==>
          && (exists i :: IsFirstMatch(s.tlb, page, i) && f == s.tlb[i].frame)
          && s'.pageTable == s.pageTable[page := s.pageTable[page].(updateTime := clock)]
          && s'.tlb == s.tlb && s'.tlbCount == s.tlbCount
          && s'.memory == s.memory && s'.memoryCount == s.memoryCount)
    && (kind == PageHit ==>
          && f == s.pageTable[page].frame
          && s'.pageTable == s.pageTable[page := s.pageTable[page].(updateTime := clock)]
          && (s'.tlb, s'.tlbCount) == TlbInsert(s.tlb, s.tlbCount, TlbEntry(page, f))
          && s'.memory == s.memory && s'.memoryCount == s.memoryCount)
    && (kind == PageFault ==>
          && f < |s.memory| && s'.memory == s.memory[f := DiskPage(disk, page)]
          && (s'.tlb, s'.tlbCount) == TlbInsert(s.tlb, s.tlbCount, TlbEntry(page, f))
          && (s.memoryCount < memorySize ==>
                && f == s.memoryCount && s'.memoryCount == s.memoryCount + 1
                && s'.pageTable == s.pageTable[page := PageEntry(f, true, clock)])
          && (s.memoryCount == memorySize ==>
                exists v :: && IsLruVictim(s.pageTable, v) && f == s.pageTable[v].frame
                            && s'.memoryCount == s.memoryCount
                            && s'.pageTable == s.pageTable[v := PageEntry(-1, false, -1)][page := PageEntry(f, true, clock)]))
    && f < |s'.memory| && Offset(a) < |s'.memory[f]| && out.value == s'.memory[f][Offset(a)]
  }

  lemma FirstMatchUnique(tlb: seq<TlbEntry>, page: int, i: int, j: int)
    requires IsFirstMatch(tlb, page, i) && IsFirstMatch(tlb, page, j)
    ensures i == j
  {
  }

  lemma LruVictimUnique(pt: seq<PageEntry>, v: int, w: int)
    requires IsLruVictim(pt, v) && IsLruVictim(pt, w)
    ensures v == w
  {
  }

  /** `Translated` leaves nothing open: from a given state an address has exactly one
      outcome, one next state and one printed line. */
  lemma TranslationIsDetermined(s: State, memorySize: nat, disk: seq<int>, a: int,
                                k1: Outcome, s1: State, o1: Line, k2: Outcome, s2: State, o2: Line)
    requires Inv(s, memorySize, disk)
    requires Translated(s, memorySize, disk, a, k1, s1, o1) && Translated(s, memorySize, disk, a, k2, s2, o2)
    ensures k1 == k2 && s1 == s2 && o1 == o2
  {
    var page := PageNumber(a);
    var f1, f2 := o1.physical / FrameSize, o2.physical / FrameSize;
    if k1 == TlbHit {
      var i1 :| IsFirstMatch(s.tlb, page, i1) && f1 == s.tlb[i1].frame;
      var i2 :| IsFirstMatch(s.tlb, page, i2) && f2 == s.tlb[i2].frame;
      FirstMatchUnique(s.tlb, page, i1, i2);
    } else if k1 == PageFault && s.memoryCount == memorySize {
      var v1 :| IsLruVictim(s.pageTable, v1) && f1 == s.pageTable[v1].frame
                && s1.pageTable == s.pageTable[v1 := PageEntry(-1, false, -1)][page := PageEntry(f1, true, s.clock + 1)];
      var v2 :| IsLruVictim(s.pageTable, v2) && f2 == s.pageTable[v2].frame
                && s2.pageTable == s.pageTable[v2 := PageEntry(-1, false, -1)][page := PageEntry(f2, true, s.clock + 1)];
      LruVictimUnique(s.pageTable, v1, v2);
    }
    assert f1 == f2;
    assert o1.physical == f1 * FrameSize + Offset(a);
    assert o2.physical == f2 * FrameSize + Offset(a);
  }

  /** One iteration of `main`'s loop: translate logical address `a`. */
  method Translate(s: State, memorySize: nat, disk: seq<int>, a: int) returns (s': State, out: Line, kind: Outcome)
    requires Inv(s, memorySize, disk) && memorySize > 0
    ensures Inv(s', memorySize, disk)
    ensures Translated(s, memorySize, disk, a, kind, s', out)
    ensures out.physical < memorySize * FrameSize
    ensures kind != TlbHit ==> out.value == disk[PageNumber(a) * PageSize + Offset(a)]
  {
    var page := PageNumber(a);
    var offset := Offset(a);
    var frame: nat;
    var tlbFrame := SearchTlb(s.tlb, page);
    TlbLookupInRange(s, memorySize, disk, page, tlbFrame);
    if tlbFrame >= 0 {
      frame := tlbFrame;
      s' := TlbHitStep(s, memorySize, disk, page, frame);
      kind := TlbHit;
    } else if SearchPageTable(s.pageTable, page) >= 0 {
      frame := SearchPageTable(s.pageTable, page);
      s' := PageHitStep(s, memorySize, disk, page);
      kind := PageHit;
    } else {
      s', frame := FaultStep(s, memorySize, disk, page);
      kind := PageFault;
    }
    out := Line(a, frame * FrameSize + offset, s'.memory[frame][offset]);
    assert out.physical / FrameSize == frame;
  }

  /** The program's result: one line per input address and the three counters behind the
      two rates printed at the end. */
  datatype Report = Report(lines: seq<Line>, total: nat, hits: nat, faults: nat)

  /** `trace` and `kinds` record a run of `main` over `addresses`: it starts from the
      initial tables, and line `i` with outcome `kinds[i]` is the translation of
      `addresses[i]` from state `trace[i]` to state `trace[i + 1]`. */
  ghost predicate IsRun(memorySize: nat, disk: seq<int>, addresses: seq<int>, lines: seq<Line>,
                        trace: seq<State>, kinds: seq<Outcome>) {
    && |trace| == |addresses| + 1 && |kinds| == |lines| == |addresses|
    && trace[0] == Initial(memorySize)
    && forall i :: 0 <= i < |addresses| ==>
         Inv(trace[i], memorySize, disk) && Translated(trace[i], memorySize, disk, addresses[i], kinds[i], trace[i + 1], lines[i])
  }

  /** A run extends by one translation from its last state. */
  lemma IsRunExtend(memorySize: nat, disk: seq<int>, addresses: seq<int>, a: int, lines: seq<Line>,
                    trace: seq<State>, kinds: seq<Outcome>, kind: Outcome, s': State, out: Line)
    requires IsRun(memorySize, disk, addresses, lines, trace, kinds)
    requires Inv(trace[|addresses|], memorySize, disk)
    requires Translated(trace[|addresses|], memorySize, disk, a, kind, s', out)
    ensures IsRun(memorySize, disk, addresses + [a], lines + [out], trace + [s'], kinds + [kind])
  {
    var n := |addresses|;
    forall i | 0 <= i < n + 1
      ensures Inv((trace + [s'])[i], memorySize, disk)
      ensures Translated((trace + [s'])[i], memorySize, disk, (addresses + [a])[i], (kinds + [kind])[i],
                         (trace + [s'])[i + 1], (lines + [out])[i])
    {
      if i < n {
        assert (trace + [s'])[i] == trace[i] && (trace + [s'])[i + 1] == trace[i + 1];
      }
    }
  }

  /** `main`: only memory sizes 128 and 256 are accepted; the lines are then the
      translations of the addresses in order, each from the state the previous ones
      left, and the counters are those of the final state: the number of lines, up to
      the 2^24 at which a `float` stops counting. Every line lies inside that
      memory and keeps the logical offset. */
  method Run(memorySize: int, disk: seq<int>, addresses: seq<int>) returns (r: Option<Report>)
    requires |disk| == DiskSize
    ensures r.None? <==> memorySize != 128 && memorySize != 256
    ensures r.Some? ==>
      exists trace: seq<State>, kinds: seq<Outcome> ::
        (&& IsRun(memorySize, disk, addresses, r.value.lines, trace, kinds)
         && r.value.total == trace[|addresses|].total && r.value.hits == trace[|addresses|].hits
         && r.value.faults == trace[|addresses|].faults)
    ensures r.Some? ==> |r.value.lines| == |addresses| && r.value.total == Min(|addresses|, FloatCountLimit)
    ensures r.Some? ==> r.value.hits <= r.value.total && r.value.faults <= r.value.total
    ensures r.Some? && |addresses| <= FloatCountLimit ==> r.value.hits + r.value.faults <= r.value.total
    ensures r.Some? ==> forall i :: 0 <= i < |addresses| ==>
      r.value.lines[i].logical == addresses[i]
      && 0 <= r.value.lines[i].physical < memorySize * FrameSize
      && r.value.lines[i].physical % FrameSize == Offset(addresses[i])
  {
    if memorySize != 128 && memorySize != 256 {
      return None;
    }
    var s := Initial(memorySize);
    InitialInv(memorySize, disk);
    var lines: seq<Line> := [];
    ghost var trace := [s];
    ghost var kinds: seq<Outcome> := [];
    var k := 0;
    while k < |addresses|
      invariant 0 <= k <= |addresses|
      invariant Inv(s, memorySize, disk)
      invariant |lines| == k && s.total == Min(k, FloatCountLimit)
      invariant s.hits <= s.total && s.faults <= s.total
      invariant k <= FloatCountLimit ==> s.hits + s.faults <= s.total
      invariant IsRun(memorySize, disk, addresses[..k], lines, trace, kinds) && trace[k] == s
      invariant forall i :: 0 <= i < k ==>
        lines[i].logical == addresses[i]
        && 0 <= lines[i].physical < memorySize * FrameSize
        && lines[i].physical % FrameSize == Offset(addresses[i])
    {
      var out, kind;
      var s0 := s;
      s, out, kind := Translate(s, memorySize, disk, addresses[k]);
      IsRunExtend(memorySize, disk, addresses[..k], addresses[k], lines, trace, kinds, kind, s, out);
      assert addresses[..k] + [addresses[k]] == addresses[..k + 1];
      lines := lines + [out];
      trace := trace + [s];
      kinds := kinds + [kind];
      k := k + 1;
    }
    assert addresses[..k] == addresses;
    return Some(Report(lines, s.total, s.hits, s.faults));
  }
}
