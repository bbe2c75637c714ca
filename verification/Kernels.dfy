/** Demand paging in a3/kernel.c, a3/pcb.c and a3/shellmemory.c: pages of three lines in first-fit frames, the least
    recently used page given up when no frame is free. */
module Kernels {
  import opened Frames
  import opened Recency
  import opened Sequences
  import opened Scripts

  function Digits(n: nat): (s: string)
    ensures s != [] && '0' <= s[0] <= '9'
  {
    if n < 10 then [('0' as int + n) as char] else Digits(n / 10) + [('0' as int + n % 10) as char]
  }

  /** sprintf "%d". A process number never reads as the mark of a free cell. */
  function PidString(pid: int): (s: string)
    ensures s != FREE
  {
    var s := if pid < 0 then ['-'] + Digits(-pid) else Digits(pid);
    assert s[0] != FREE[0];
    s
  }

  /** Reading a decimal numeral. */
  function Value(s: string): int {
    if s == [] then 0 else 10 * Value(s[..|s| - 1]) + (s[|s| - 1] as int - '0' as int)
  }

  lemma {:induction false} DigitsRead(n: nat)
    ensures Value(Digits(n)) == n
    ensures forall c :: c in Digits(n) ==> '0' <= c <= '9'
    ensures n > 0 ==> Digits(n)[0] != '0'
    ensures n == 0 ==> Digits(n) == "0"
  {
    if n >= 10 {
      DigitsRead(n / 10);
      assert Digits(n)[..|Digits(n)| - 1] == Digits(n / 10);
    } else {
      assert Digits(n)[..0] == [];
    }
  }

  /** What "%d" means: a sign if there is one, then the number in decimal without a leading zero. */
  lemma PidIsDecimal(pid: int)
    ensures pid >= 0 ==> Value(PidString(pid)) == pid && forall c :: c in PidString(pid) ==> '0' <= c <= '9'
    ensures pid < 0 ==> PidString(pid)[0] == '-' && Value(PidString(pid)[1..]) == -pid
    ensures pid > 0 ==> PidString(pid)[0] != '0'
  {
    DigitsRead(if pid < 0 then -pid else pid);
    if pid < 0 {
      assert PidString(pid)[1..] == Digits(-pid);
    }
  }

  /** struct PAGE */
  class Page {
    var index: seq<int>
    var validBit: seq<bool>
    const pageIndex: nat
    const pid: int

    /** PAGE_init */
    constructor (pagePid: int, pageTableIndex: nat)
      ensures index == [1000, 1000, 1000] && validBit == [false, false, false]
      ensures pid == pagePid && pageIndex == pageTableIndex
    {
      pid, pageIndex := pagePid, pageTableIndex;
      index := [1000, 1000, 1000];
      validBit := [false, false, false];
    }

    ghost predicate Sized()
      reads this
    {
      |index| == 3 && |validBit| == 3
    }
  }

  /** struct PCB. What is left to read of the script is a sequence of lines. */
  class Pcb {
    const pid: int
    const pageTable: seq<Page>
    var size: int
    var programCounter: seq<int>
    var source: seq<string>

    constructor (p: int, pages: seq<Page>, lines: int, script: seq<string>)
      ensures pid == p && pageTable == pages && size == lines && source == script
      ensures programCounter == seq(|pages|, i => 0)
    {
      pid, pageTable, size, source := p, pages, lines, script;
      programCounter := seq(|pages|, i => 0);
    }
  }

  /** PAGE_table_size */
  function PageTableSize(lines: int): nat
    requires lines >= -1
  {
    if lines % 3 == 0 then lines / 3 else (if lines < 0 then 0 else lines / 3) + 1
  }

  /** The pages are just enough for the lines. */
  lemma EveryLineHasPlace(lines: int)
    requires lines >= -1
    ensures lines >= 0 ==> 3 * (PageTableSize(lines) - 1) < lines <= 3 * PageTableSize(lines)
  {
  }

  /** The size that PCB_init gives a process, and the lines it has to read. */
  function SizeOf(file: File): (size: int)
    ensures size >= -1 && (file.File? ==> size >= 0)
  {
    if file.Missing? then -1 else LineCount(file.text)
  }

  function LinesOf(file: File): seq<string> {
    if file.Missing? then [] else ReadAll(file.text)
  }

  /** There are frames for the pages that a new process loads at once. */
  predicate Loadable(file: File, used: nat, frames: nat) {
    file.File? && used + PageLimit(PageTableSize(SizeOf(file))) <= frames
  }

  lemma NeedsFrame(file: File, used: nat, frames: nat)
    requires Loadable(file, used, frames)
    ensures frames > 0
  {
  }

  /** The number of pages that PCB_init loads. */
  function PageLimit(pages: nat): nat {
    if 2 > pages then pages else 2
  }

  /** The first i pages of a table, the last of them first. */
  function Latest(table: seq<Page>, i: nat): (s: seq<Page>)
    requires i <= |table|
    ensures |s| == i && forall k :: 0 <= k < i ==> s[k] == table[i - 1 - k]
  {
    if i == 0 then [] else [table[i - 1]] + Latest(table, i - 1)
  }

  /** The pages of a new process. */
  ghost predicate NewTable(table: seq<Page>, pid: int)
    reads table
  {
    forall k :: 0 <= k < |table| ==> table[k].pid == pid && table[k].pageIndex == k && table[k].Sized()
  }

  lemma LatestNext(table: seq<Page>, pid: int, i: nat, rest: seq<Page>)
    requires NewTable(table, pid) && i < |table|
    ensures [table[i]] + (Latest(table, i) + rest) == Latest(table, i + 1) + rest
    ensures table[i] !in rest ==> table[i] !in Latest(table, i) + rest
  {
  }

  lemma LatestNone(table: seq<Page>, rest: seq<Page>)
    ensures Latest(table, 0) + rest == rest
  {
  }

  predicate Owns(pcb: Pcb, p: Page) {
    p.pid == pcb.pid && p.pageIndex < |pcb.pageTable| && pcb.pageTable[p.pageIndex] == p
  }

  /** The page is in the table of the process whose number it bears. */
  ghost predicate OwnedIn(ps: seq<Pcb>, p: Page) {
    exists i :: 0 <= i < |ps| && Owns(ps[i], p)
  }

  ghost predicate TableNumbered(pcb: Pcb) {
    forall k :: 0 <= k < |pcb.pageTable| ==> pcb.pageTable[k].pid == pcb.pid && pcb.pageTable[k].pageIndex == k
  }

  /** Every process has its own number, on each of its pages. */
  ghost predicate AllNumbered(ps: seq<Pcb>, counter: int) {
    && (forall i, j :: 0 <= i < j < |ps| ==> ps[i].pid != ps[j].pid)
    && (forall i :: 0 <= i < |ps| ==> ps[i].pid < counter && TableNumbered(ps[i]))
  }

  /** Listing a new process keeps every other one numbered and its pages owned. */
  lemma ListOne(ps: seq<Pcb>, pcb: Pcb)
    requires AllNumbered(ps, pcb.pid) && TableNumbered(pcb)
    ensures AllNumbered(ps + [pcb], pcb.pid + 1)
  {
    var qs := ps + [pcb];
    forall i | 0 <= i < |qs|
      ensures qs[i].pid < pcb.pid + 1 && TableNumbered(qs[i]) && (i < |ps| ==> qs[i] == ps[i])
    {
    }
  }

  lemma OwnOne(ps: seq<Pcb>, pcb: Pcb, p: Page)
    requires OwnedIn(ps, p) || (TableNumbered(pcb) && p in pcb.pageTable)
    ensures OwnedIn(ps + [pcb], p)
  {
    var qs := ps + [pcb];
    if OwnedIn(ps, p) {
      var i :| 0 <= i < |ps| && Owns(ps[i], p);
      assert Owns(qs[i], p);
    } else {
      assert Owns(qs[|ps|], p);
    }
  }

  ghost function PagesOf(ps: seq<Pcb>): set<Page> {
    set i, k | 0 <= i < |ps| && 0 <= k < |ps[i].pageTable| :: ps[i].pageTable[k]
  }

  /** A page without a frame has no valid line. */
  ghost predicate ClearIn(ps: seq<Pcb>, held: seq<Page>)
    reads PagesOf(ps)
  {
    forall p: Page :: p in PagesOf(ps) ==> p.Sized() && (p !in held ==> p.validBit == [false, false, false])
  }

  lemma ClearOne(ps: seq<Pcb>, pcb: Pcb, held: seq<Page>)
    requires ClearIn(ps, held) && NewTable(pcb.pageTable, pcb.pid)
    requires forall k :: PageLimit(|pcb.pageTable|) <= k < |pcb.pageTable| ==>
               pcb.pageTable[k].validBit == [false, false, false]
    ensures ClearIn(ps + [pcb], Latest(pcb.pageTable, PageLimit(|pcb.pageTable|)) + held)
  {
    var qs, n := ps + [pcb], PageLimit(|pcb.pageTable|);
    var all := Latest(pcb.pageTable, n) + held;
    hide Latest;
    forall p: Page | p in PagesOf(qs)
      ensures p.Sized() && (p !in all ==> p.validBit == [false, false, false])
    {
      var i, k :| 0 <= i < |qs| && 0 <= k < |qs[i].pageTable| && qs[i].pageTable[k] == p;
      if i < |ps| {
        assert p == ps[i].pageTable[k];
      } else if k < n {
        assert p == all[n - 1 - k];
      }
    }
  }

  ghost function Bases(ps: seq<Page>): (b: seq<int>)
    reads ps
    ensures |b| == |ps|
  {
    seq(|ps|, i requires 0 <= i < |ps| reads ps => if ps[i].index == [] then 0 else ps[i].index[0])
  }

  /** These pages hold the used frames of c. */
  ghost predicate Holding(c: seq<Cell>, ps: seq<Page>)
    reads ps
  {
    && Framed(c, Bases(ps))
    && forall i :: 0 <= i < |ps| ==> HoldsAt(c, ps[i], Bases(ps)[i])
  }

  /** The page is in the frame at b, under the number of its process. */
  ghost predicate HoldsAt(c: seq<Cell>, p: Page, b: int)
    reads p
  {
    && p.Sized() && 0 <= b && b + 3 <= |c| && p.index == [b, b + 1, b + 2]
    && c[b].name == c[b + 1].name == c[b + 2].name == PidString(p.pid)
  }

  lemma HoldingDistinct(c: seq<Cell>, ps: seq<Page>)
    requires Holding(c, ps)
    ensures Distinct(ps)
  {
    hide Framed;
    assert Distinct(Bases(ps)) by {
      FramedDistinct(c, Bases(ps));
    }
    forall i, j | 0 <= i < j < |ps|
      ensures ps[i] != ps[j]
    {
      assert HoldsAt(c, ps[i], Bases(ps)[i]) && HoldsAt(c, ps[j], Bases(ps)[j]);
    }
  }

  lemma RenamedPrefix(c: seq<Cell>, d: seq<Cell>, n: nat, b: nat, name: string)
    requires Renamed(c, d, b, name) && b + 3 <= n <= |c|
    ensures Renamed(c[..n], d[..n], b, name)
  {
  }

  lemma HoldsStill(c: seq<Cell>, d: seq<Cell>, p: Page, x: int, b: nat, name: string)
    requires HoldsAt(c, p, x) && Renamed(c, d, b, name)
    requires x % 3 == 0 && b % 3 == 0 && x != b
    ensures HoldsAt(d, p, x)
  {
  }

  lemma TakesAt(c: seq<Cell>, d: seq<Cell>, p: Page, b: nat)
    requires Renamed(c, d, b, PidString(p.pid)) && p.Sized() && p.index == [b, b + 1, b + 2]
    ensures HoldsAt(d, p, b)
  {
  }

  lemma BasesAre(ps: seq<Page>, bs: seq<int>, c: seq<Cell>)
    requires |bs| == |ps| && forall i :: 0 <= i < |ps| ==> HoldsAt(c, ps[i], bs[i])
    ensures Bases(ps) == bs
  {
  }

  /** A page that is not held yet takes the first free frame. */
  lemma HoldingTake(c: seq<Cell>, d: seq<Cell>, ps: seq<Page>, p: Page, b: nat)
    requires Holding(c, ps) && FirstFit(c, b) && Renamed(c, d, b, PidString(p.pid))
    requires p.Sized() && p.index == [b, b + 1, b + 2]
    ensures Holding(d, [p] + ps)
  {
    hide Framed, HoldsAt, Renamed, FirstFit, Bases, PidString;
    FirstFitAligned(c, Bases(ps), b);
    TakeFrame(c, Bases(ps), b, d, PidString(p.pid));
    TakesAt(c, d, p, b);
    var t, bs := [p] + ps, [b] + Bases(ps);
    forall i | 0 <= i < |t|
      ensures HoldsAt(d, t[i], bs[i])
    {
      if i > 0 {
        FramedAt(d, bs, 0, i);
        HoldsStill(c, d, ps[i - 1], bs[i], b, PidString(p.pid));
      }
    }
    BasesAre(t, bs, d);
  }

  /** The last page gives its frame back. bs are the places of the pages before that. */
  lemma HoldingGive(c: seq<Cell>, d: seq<Cell>, ps: seq<Page>, bs: seq<int>)
    requires Framed(c, bs) && |bs| == |ps| > 0
    requires forall i :: 0 <= i < |ps| - 1 ==> HoldsAt(c, ps[i], bs[i])
    requires bs[|ps| - 1] >= 0 && Renamed(c, d, bs[|ps| - 1], FREE)
    ensures Holding(d, ps[..|ps| - 1])
  {
    hide Framed, HoldsAt, Renamed, Bases;
    var n := |ps| - 1;
    var t := ps[..n];
    FramedAt(c, bs, n, n);
    GiveFrame(c, bs, n, d);
    assert bs[..n] + bs[n + 1..] == bs[..n];
    forall i | 0 <= i < n
      ensures HoldsAt(d, t[i], bs[i])
    {
      FramedAt(c, bs, i, n);
      HoldsStill(c, d, ps[i], bs[i], bs[n], FREE);
    }
    BasesAre(t, bs[..n], d);
  }

  ghost function PlaceIn(ps: seq<Page>, p: Page): (i: nat)
    requires p in ps
    ensures i < |ps| && ps[i] == p
  {
    var i :| 0 <= i < |ps| && ps[i] == p;
    i
  }

  /** Any order of the pages will do. */
  lemma HoldingOrder(c: seq<Cell>, ps: seq<Page>, qs: seq<Page>)
    requires Holding(c, ps) && Distinct(qs) && forall p: Page :: p in qs <==> p in ps
    ensures Holding(c, qs)
  {
    hide Framed, HoldsAt, Bases, PlaceIn;
    var bs := Bases(ps);
    FramedDistinct(c, bs);
    var ds := seq(|qs|, j requires 0 <= j < |qs| => assert qs[j] in ps; bs[PlaceIn(ps, qs[j])]);
    forall j | 0 <= j < |qs|
      ensures qs[j] in ps && ds[j] == bs[PlaceIn(ps, qs[j])]
    {
      assert qs[j] in qs;
    }
    forall j | 0 <= j < |qs|
      ensures HoldsAt(c, qs[j], ds[j])
    {
    }
    BasesAre(qs, ds, c);
    forall i, j | 0 <= i < j < |ds|
      ensures ds[i] != ds[j]
    {
      var k, l := PlaceIn(ps, qs[i]), PlaceIn(ps, qs[j]);
      assert k < l || l < k;
    }
    forall b
      ensures b in bs <==> b in ds
    {
      if b in bs {
        var i :| 0 <= i < |bs| && bs[i] == b;
        assert ps[i] in qs;
        var j := PlaceIn(qs, ps[i]);
        BasesAre(ps, bs, c);
        SamePlace(c, ps[i], bs[i], ds[j]);
      }
    }
    FramedOrder(c, bs, ds);
  }

  lemma SamePlace(c: seq<Cell>, p: Page, a: int, b: int)
    requires HoldsAt(c, p, a) && HoldsAt(c, p, b)
    ensures a == b
  {
    assert p.index[0] == a;
  }

  /** The cells at b of d hold the first j lines of a script; their names, and every other cell, are as in c. */
  ghost predicate Filled(c: seq<Cell>, d: seq<Cell>, b: nat, script: seq<string>, j: nat) {
    && |d| == |c| && b + 3 <= |c| && j <= |script|
    && forall x :: 0 <= x < |c| ==> d[x] == if b <= x < b + j then c[x].(value := script[x - b]) else c[x]
  }

  /** From cells c to cells d the frame at b was emptied. */
  ghost predicate Emptied(c: seq<Cell>, d: seq<Cell>, b: int) {
    && |d| == |c| && 0 <= b && b + 3 <= |c|
    && forall x :: 0 <= x < |c| ==> d[x] == if b <= x < b + 3 then Cell(FREE, FREE) else c[x]
  }

  /** From cells c to cells d the frame at b got this name and these lines, as many as it holds; a cell for which there
      was no line kept its value, unless the frame was emptied first. */
  ghost predicate Refilled(c: seq<Cell>, d: seq<Cell>, b: int, name: string, lines: seq<string>, emptied: bool) {
    && |d| == |c| && 0 <= b && b + 3 <= |c|
    && (forall x :: b <= x < b + 3 ==>
          d[x] == Cell(name, if x - b < |lines| then lines[x - b] else if emptied then FREE else c[x].value))
    && forall x :: 0 <= x < |c| && !(b <= x < b + 3) ==> d[x] == c[x]
  }

  lemma FetchedCells(c: seq<Cell>, d: seq<Cell>, border: nat, b: nat, name: string, lines: seq<string>)
    requires border <= |c| && FirstFit(c[..border], b) && Renamed(c, d, b, name) && Loaded(c, d, b, lines)
    ensures Refilled(c, d, b, name, lines, false)
  {
  }

  lemma OutsideFrame(c: seq<Cell>, d: seq<Cell>, b: nat, name: string, lines: seq<string>)
    requires Refilled(c, d, b, name, lines, false)
    ensures |d| == |c| && forall x :: 0 <= x < |c| && x !in [b, b + 1, b + 2] ==> d[x] == c[x]
  {
  }

  lemma EmptiedFirst(c: seq<Cell>, c1: seq<Cell>, d: seq<Cell>, b: int, name: string, lines: seq<string>)
    requires Emptied(c, c1, b) && Refilled(c1, d, b, name, lines, false)
    ensures Refilled(c, d, b, name, lines, true)
  {
  }

  lemma EmptiedRenamed(c: seq<Cell>, d: seq<Cell>, b: nat)
    requires Emptied(c, d, b)
    ensures Renamed(c, d, b, FREE)
  {
  }

  /** How many lines load_PAGE reads. */
  function Lines(script: seq<string>): nat {
    if |script| < 3 then |script| else 3
  }

  /** What loading does to the values: the lines read replace the values of the first cells at b, and no other. */
  ghost predicate Loaded(c: seq<Cell>, d: seq<Cell>, b: nat, script: seq<string>) {
    && |d| == |c| && b + 3 <= |c|
    && forall x :: 0 <= x < |c| ==> d[x].value == if b <= x < b + Lines(script) then script[x - b] else c[x].value
  }

  lemma FilledLoaded(c0: seq<Cell>, c: seq<Cell>, d: seq<Cell>, b: nat, name: string, script: seq<string>)
    requires Renamed(c0, c, b, name) && Filled(c, d, b, script, Lines(script))
    requires forall x :: 0 <= x < |c0| ==> c[x].value == c0[x].value
    ensures Renamed(c0, d, b, name) && Loaded(c0, d, b, script)
  {
  }

  lemma FullWhenHeld(c: seq<Cell>, held: seq<Page>)
    requires Holding(c, held)
    ensures |held| <= |c| / 3
    ensures NoneFree(c) <==> |held| == |c| / 3
  {
    FullExactly(c, Bases(held));
  }

  /** What is left of a script after i full pages. */
  function RestOf(lines: seq<string>, i: nat): seq<string> {
    if 3 * i < |lines| then lines[3 * i..] else []
  }

  lemma NextLines(lines: seq<string>, i: nat)
    ensures var rest := RestOf(lines, i);
            && RestOf(lines, i + 1) == rest[Lines(rest)..]
            && Lines(rest) == (if 3 * i + 3 <= |lines| then 3 else if 3 * i <= |lines| then |lines| - 3 * i else 0)
            && (forall j :: 0 <= j < Lines(rest) ==> rest[j] == lines[3 * i + j])
  {
  }

  /** Entry j of the page names a cell of the process, and line j, if the script has it, is in it. */
  ghost predicate LineAt(c: seq<Cell>, p: Page, j: nat, lines: seq<string>)
    reads p
  {
    && j < |p.index| && 0 <= p.index[j] < |c| && c[p.index[j]].name == PidString(p.pid)
    && (3 * p.pageIndex + j < |lines| ==> c[p.index[j]].value == lines[3 * p.pageIndex + j])
  }

  /** Loading a page changes no cell that is in use, and fills cells of its frame with the lines it reads. */
  lemma CellsAfter(c: seq<Cell>, d: seq<Cell>, border: nat, base: nat, name: string, script: seq<string>)
    requires border <= |c| && FirstFit(c[..border], base) && Renamed(c, d, base, name) && Loaded(c, d, base, script)
    ensures |d| == |c| && base + 3 <= |c| && forall x :: 0 <= x < |c| && c[x].name != FREE ==> d[x] == c[x]
    ensures forall j :: base <= j < base + Lines(script) ==> d[j] == Cell(name, script[j - base])
    ensures forall j :: base <= j < base + 3 ==> d[j].name == name
  {
    assert FreeAt(c[..border], base);
  }

  lemma LineKept(c: seq<Cell>, d: seq<Cell>, p: Page, j: nat, lines: seq<string>)
    requires LineAt(c, p, j, lines)
    requires |d| == |c| && forall x :: 0 <= x < |c| && c[x].name != FREE ==> d[x] == c[x]
    ensures LineAt(d, p, j, lines)
  {
    hide PidString;
  }

  lemma LineTaken(d: seq<Cell>, p: Page, j: nat, lines: seq<string>, base: nat, script: seq<string>)
    requires j < 3 && p.index == [base, base + 1, base + 2] && base + 3 <= |d|
    requires script == RestOf(lines, p.pageIndex)
    requires forall x :: base <= x < base + Lines(script) ==> d[x] == Cell(PidString(p.pid), script[x - base])
    requires forall x :: base <= x < base + 3 ==> d[x].name == PidString(p.pid)
    ensures LineAt(d, p, j, lines)
  {
    hide PidString;
    NextLines(lines, p.pageIndex);
    assert j < Lines(script) ==> d[base + j] == Cell(PidString(p.pid), script[j]);
  }

  lemma HoldingSized(c: seq<Cell>, ps: seq<Page>)
    requires Holding(c, ps)
    ensures forall i :: 0 <= i < |ps| ==> ps[i].Sized()
  {
    hide Framed;
    forall i | 0 <= i < |ps|
      ensures ps[i].Sized()
    {
      assert HoldsAt(c, ps[i], Bases(ps)[i]);
    }
  }

  lemma FitInside(c: seq<Cell>, b: nat)
    requires FirstFit(c, b)
    ensures b + 3 <= |c|
  {
  }

  /** The globals of a3/kernel.c and a3/shellmemory.c. Their lists are sequences here. */
  class Kernel {
    const cells: array<Cell>
    const border: nat
    var queue: seq<Pcb>
    var lru: seq<Page>
    var processes: seq<Pcb>
    var pidCounter: int
    /** The pages used so far, in order. */
    ghost var history: seq<Page>

    ghost function Pages(): set<Page>
      reads `processes
    {
      PagesOf(processes)
    }

    ghost predicate Numbered()
      reads `processes, `pidCounter
    {
      AllNumbered(processes, pidCounter)
    }

    ghost predicate Owned(p: Page)
      reads `processes
    {
      OwnedIn(processes, p)
    }

    ghost predicate Clear(held: seq<Page>)
      reads `processes, Pages()
    {
      ClearIn(processes, held)
    }

    /** These pages of the listed processes are the ones that have frames, and the frames are whole. */
    ghost predicate Stored(held: seq<Page>)
      reads `processes, `pidCounter, cells, Pages(), held
    {
      && border <= cells.Length && Numbered() && Clear(held) && (processes != [] ==> border >= 3)
      && (forall p: Page :: p in held ==> Owned(p))
      && Holding(cells[..border], held)
    }

    /** The list of pages is in order of most recent use and holds exactly the pages that have frames. */
    ghost predicate Valid()
      reads this, cells, Pages(), lru
    {
      Stored(lru) && lru == Take(Recent(history), border / 3) && forall pcb: Pcb :: pcb in queue ==> pcb in processes
    }

    /** mem_init and kernel_setup */
    constructor (frameStore: nat, varStore: nat)
      ensures Valid() && border == frameStore && cells.Length == frameStore + varStore
      ensures queue == [] && processes == [] && lru == [] && history == [] && pidCounter == 1
      ensures fresh(cells) && forall x :: 0 <= x < cells.Length ==> cells[x] == Cell("none", "none")
    {
      cells := new Cell[frameStore + varStore](i => Cell(FREE, FREE));
      border := frameStore;
      queue, processes, lru, history, pidCounter := [], [], [], [], 1;
    }

    /** frame_alloc: 1 exactly when no three cells in a row are free, otherwise the first three become the page's. */
    method FrameAlloc(pid: string, page: Page) returns (r: int, ghost base: nat)
      requires border <= cells.Length && page.Sized()
      modifies cells, page
      ensures r == 0 || r == 1
      ensures r == 1 <==> NoneFree(old(cells[..border]))
      ensures forall x :: 0 <= x < cells.Length ==> cells[x].value == old(cells[x].value)
      ensures r == 1 ==>
        cells[..] == old(cells[..]) && page.index == old(page.index) && page.validBit == old(page.validBit)
      ensures r == 0 ==>
        && FirstFit(old(cells[..border]), base) && Renamed(old(cells[..]), cells[..], base, pid)
        && page.index == [base, base + 1, base + 2] && page.validBit == [false, false, false]
    {
      var i := 0;
      while i < border
        invariant 0 <= i <= border
        invariant forall k :: 0 <= k < i ==> !FreeAt(cells[..border], k)
        invariant cells[..] == old(cells[..]) && page.index == old(page.index) && page.validBit == old(page.validBit)
      {
        var j := i;
        while j < i + 3 && j < border && cells[j].name == FREE
          modifies {}
          invariant i <= j <= i + 3 && j <= border
          invariant forall x :: i <= x < j ==> cells[x].name == FREE
        {
          j := j + 1;
        }
        if j == i + 3 {
          base := i;
          assert FreeAt(cells[..border], i);
          assert !NoneFree(cells[..border]);
          var k := i;
          while k < i + 3
            invariant i <= k <= i + 3 && page.Sized()
            invariant |cells[..]| == |old(cells[..])|
            invariant forall x :: 0 <= x < cells.Length ==>
              if i <= x < k then cells[x] == Cell(pid, old(cells[x].value)) else cells[x] == old(cells[x])
            invariant forall x :: 0 <= x < k - i ==> page.index[x] == i + x && !page.validBit[x]
          {
            cells[k] := cells[k].(name := pid);
            page.index := page.index[k - i := k];
            page.validBit := page.validBit[k - i := false];
            k := k + 1;
          }
          return 0, base;
        }
        i := i + 1;
      }
      return 1, 0;
    }

    /** load_PAGE: take a frame and read up to three lines of the script into it. */
    method LoadPage(pcb: Pcb, pageIndex: nat) returns (r: int, ghost base: nat)
      requires border <= cells.Length && pageIndex < |pcb.pageTable| && pcb.pageTable[pageIndex].Sized()
      modifies cells, pcb`source, pcb.pageTable[pageIndex]
      ensures var page := pcb.pageTable[pageIndex];
        && page.Sized() && (r == 0 || r == 1)
        && (r == 1 <==> NoneFree(old(cells[..border])))
        && (r == 1 ==> cells[..] == old(cells[..]) && pcb.source == old(pcb.source)
                       && page.index == old(page.index) && page.validBit == old(page.validBit))
        && (r == 0 ==>
              && FirstFit(old(cells[..border]), base)
              && Renamed(old(cells[..]), cells[..], base, PidString(pcb.pid))
              && page.index == [base, base + 1, base + 2]
              && pcb.source == old(pcb.source)[Lines(old(pcb.source))..]
              && page.validBit == seq(3, k => k < Lines(old(pcb.source)))
              && Loaded(old(cells[..]), cells[..], base, old(pcb.source)))
    {
      var page := pcb.pageTable[pageIndex];
      var pidStr := PidString(pcb.pid);
      r, base := FrameAlloc(pidStr, page);
      if r == 1 {
        return;
      }
      ghost var c := cells[..];
      ReadLines(pcb, page, pidStr, base);
      FilledLoaded(old(cells[..]), c, cells[..], base, pidStr, old(pcb.source));
    }

    /** The loop of load_PAGE over the lines of the script. */
    method ReadLines(pcb: Pcb, page: Page, pidStr: string, ghost base: nat)
      requires base + 3 <= cells.Length && page.index == [base, base + 1, base + 2]
      requires page.validBit == [false, false, false]
      requires forall x :: base <= x < base + 3 ==> cells[x].name == pidStr
      modifies cells, pcb`source, page
      ensures page.index == old(page.index) && page.validBit == seq(3, k => k < Lines(old(pcb.source)))
      ensures pcb.source == old(pcb.source)[Lines(old(pcb.source))..]
      ensures Filled(old(cells[..]), cells[..], base, old(pcb.source), Lines(old(pcb.source)))
    {
      ghost var s := pcb.source;
      ghost var c := cells[..];
      var j := 0;
      while j < 3 && pcb.source != []
        invariant 0 <= j <= 3 && j <= |s| && pcb.source == s[j..]
        invariant page.index == [base, base + 1, base + 2] && page.validBit == seq(3, k => k < j)
        invariant Filled(c, cells[..], base, s, j)
      {
        cells[page.index[j]] := Cell(pidStr, pcb.source[0]);
        page.validBit := page.validBit[j := true];
        pcb.source := pcb.source[1..];
        j := j + 1;
      }
    }

    /** PAGE_evict: free the three cells of the page's frame. */
    method PageEvict(pcb: Pcb, pageIndex: nat, ghost base: nat)
      requires pageIndex < |pcb.pageTable| && pcb.pageTable[pageIndex].Sized()
      requires base + 3 <= cells.Length && pcb.pageTable[pageIndex].index == [base, base + 1, base + 2]
      modifies cells, pcb.pageTable[pageIndex]
      ensures Renamed(old(cells[..]), cells[..], base, FREE)
      ensures forall x :: base <= x < base + 3 ==> cells[x].value == FREE
      ensures pcb.pageTable[pageIndex].index == [0, 0, 0]
      ensures pcb.pageTable[pageIndex].validBit == [false, false, false]
    {
      var page := pcb.pageTable[pageIndex];
      ghost var c := cells[..];
      var i := 0;
      while i < 3
        invariant 0 <= i <= 3 && page.Sized()
        invariant forall k :: 0 <= k < 3 ==> page.index[k] == if k < i then 0 else base + k
        invariant forall k :: 0 <= k < i ==> !page.validBit[k]
        invariant |cells[..]| == |c|
        invariant forall x :: 0 <= x < |c| ==> cells[x] == if base <= x < base + i then Cell(FREE, FREE) else c[x]
      {
        cells[page.index[i]] := Cell(FREE, FREE);
        page.index := page.index[i := 0];
        page.validBit := page.validBit[i := false];
        i := i + 1;
      }
    }

    /** cpu_run, where parsed is what parseInput returns for the line. */
    method CpuRun(pcb: Pcb, pageIndex: nat, line: nat, parsed: int) returns (r: int)
      requires pageIndex < |pcb.pageTable| && pageIndex < |pcb.programCounter|
      requires line < 3 && pcb.pageTable[pageIndex].Sized()
      modifies pcb`programCounter, pcb`size
      ensures |pcb.programCounter| == old(|pcb.programCounter|)
      ensures if pcb.pageTable[pageIndex].validBit[line]
              then r == parsed && pcb.size == old(pcb.size) - 1
                   && pcb.programCounter == old(pcb.programCounter[pageIndex := pcb.programCounter[pageIndex] + 1])
              else r == 1 && pcb.size == old(pcb.size) && pcb.programCounter == old(pcb.programCounter)
    {
      if !pcb.pageTable[pageIndex].validBit[line] {
        return 1;
      }
      pcb.programCounter := pcb.programCounter[pageIndex := pcb.programCounter[pageIndex] + 1];
      pcb.size := pcb.size - 1;
      return parsed;
    }

    /** Nothing about a page, its process's script or the cells has changed. */
    twostate predicate AsBefore(pcb: Pcb, page: Page)
      reads cells, pcb, page
    {
      && cells[..] == old(cells[..]) && pcb.source == old(pcb.source)
      && page.index == old(page.index) && page.validBit == old(page.validBit)
    }

    /** The page has the frame at base, which was the first free one, and in it the next lines of the script. */
    twostate predicate Fetched(pcb: Pcb, page: Page, base: nat)
      reads cells, pcb, page
      requires border <= cells.Length
    {
      && FirstFit(old(cells[..border]), base)
      && page.index == [base, base + 1, base + 2]
      && page.validBit == seq(3, k => k < Lines(old(pcb.source)))
      && pcb.source == old(pcb.source)[Lines(old(pcb.source))..]
      && Renamed(old(cells[..]), cells[..], base, PidString(pcb.pid))
      && Loaded(old(cells[..]), cells[..], base, old(pcb.source))
    }

    twostate lemma HoldingKept(held: seq<Page>)
      requires border <= cells.Length && old(Holding(cells[..border], held)) && cells[..border] == old(cells[..border])
      requires forall i :: 0 <= i < |held| ==> held[i].index == old(held[i].index) && held[i].Sized()
      ensures Holding(cells[..border], held)
    {
      hide Framed;
      var c, bs := cells[..border], old(Bases(held));
      forall i | 0 <= i < |held|
        ensures HoldsAt(c, held[i], bs[i])
      {
        assert old(HoldsAt(c, held[i], bs[i]));
      }
      BasesAre(held, bs, c);
    }

    /** load_PAGE, as the pages that have frames see it: it fails exactly when every frame is taken. */
    method Load(pcb: Pcb, pageIndex: nat, ghost held: seq<Page>) returns (r: int, ghost base: nat)
      requires border <= cells.Length && Holding(cells[..border], held) && pageIndex < |pcb.pageTable|
      requires pcb.pageTable[pageIndex].Sized() && pcb.pageTable[pageIndex].pid == pcb.pid
      modifies cells, pcb`source, pcb.pageTable[pageIndex]
      ensures r == (if |held| == border / 3 then 1 else 0) && pcb.pageTable[pageIndex].Sized()
      ensures r == 1 ==> AsBefore(pcb, pcb.pageTable[pageIndex]) && Holding(cells[..border], held)
      ensures r == 0 ==> Fetched(pcb, pcb.pageTable[pageIndex], base)
      ensures r == 0 && pcb.pageTable[pageIndex] !in held ==>
        Holding(cells[..border], [pcb.pageTable[pageIndex]] + held)
    {
      hide Framed, HoldsAt, Renamed, FirstFit, NoneFree, Bases, PidString, Loaded, Holding;
      ghost var c := cells[..];
      FullWhenHeld(c[..border], held);
      HoldingSized(c[..border], held);
      r, base := LoadPage(pcb, pageIndex);
      if r == 0 {
        if pcb.pageTable[pageIndex] !in held {
          FitInside(c[..border], base);
          RenamedPrefix(c, cells[..], border, base, PidString(pcb.pid));
          HoldingTake(c[..border], cells[..border], held, pcb.pageTable[pageIndex], base);
        }
      } else {
        assert cells[..border] == c[..border];
        HoldingKept(held);
      }
    }

    /** The search of run_proc for the process that a page belongs to. */
    method FindOwner(page: Page) returns (pcb: Pcb)
      requires Numbered() && Owned(page)
      ensures pcb in processes && Owns(pcb, page)
    {
      ghost var k :| 0 <= k < |processes| && Owns(processes[k], page);
      var i := 0;
      while processes[i].pid != page.pid
        invariant 0 <= i <= k
        decreases k - i
      {
        i := i + 1;
      }
      assert i == k;
      return processes[i];
    }

    lemma HeldAt(held: seq<Page>, i: nat)
      requires Stored(held) && i < |held|
      ensures border <= cells.Length && HoldsAt(cells[..border], held[i], Bases(held)[i]) && Owned(held[i])
        && held[i] in Pages()
      ensures Distinct(held) && held[i].Sized()
      ensures var b := Bases(held)[i]; 0 <= b && b + 3 <= border && held[i].index == [b, b + 1, b + 2]
    {
      HoldingDistinct(cells[..border], held);
      assert held[i] in held;
      hide Holding, Framed;
      var k :| 0 <= k < |processes| && Owns(processes[k], held[i]);
    }

    lemma StillClear(held: seq<Page>)
      requires Clear(held) && held != []
      ensures forall p: Page :: p in Pages() && p != held[|held| - 1] ==>
        p.Sized() && (p !in held[..|held| - 1] ==> p.validBit == [false, false, false])
    {
      var n := |held| - 1;
      assert held == held[..n] + [held[n]];
    }

    /** The victim's part of run_proc: take the last page off the list, find its process, and free its frame. */
    method EvictLast()
      requires Stored(lru) && lru != []
      modifies `lru, cells, Pages()
      ensures lru == old(lru[..|lru| - 1]) && Stored(lru)
      ensures old(lru[|lru| - 1].index) != [] && Emptied(old(cells[..]), cells[..], old(lru[|lru| - 1].index[0]))
      ensures old(lru[|lru| - 1]).index == [0, 0, 0] && old(lru[|lru| - 1]).validBit == [false, false, false]
      ensures forall p: Page :: p in old(Pages()) && p != old(lru[|lru| - 1]) ==>
        p.index == old(p.index) && p.validBit == old(p.validBit)
    {
      hide Framed, HoldsAt, Renamed, Kernel.Numbered, Bases, Kernel.Owned;
      ghost var n, held, bs, c := |lru| - 1, lru, Bases(lru), cells[..];
      HeldAt(lru, n);
      StillClear(lru);
      var victim := lru[|lru| - 1];
      lru := lru[..|lru| - 1];
      var pcb := FindOwner(victim);
      PageEvict(pcb, victim.pageIndex, bs[n]);
      RenamedPrefix(c, cells[..], border, bs[n], FREE);
      HoldingGive(c[..border], cells[..border], held, bs);
    }

    lemma SamePage(held: seq<Page>, i: nat, j: nat)
      requires Stored(held) && i < |held| && j < |held|
      ensures held[i].index != [] && held[j].index != []
      ensures held[i].index[0] == held[j].index[0] <==> i == j
    {
      HeldAt(held, i);
      HeldAt(held, j);
      FramedDistinct(cells[..border], Bases(held));
      hide Framed;
    }

    lemma StoredDistinct(held: seq<Page>)
      requires Stored(held)
      ensures Distinct(held)
      ensures held != [] ==> held[|held| - 1] !in held[..|held| - 1]
    {
      HoldingDistinct(cells[..border], held);
    }

    lemma StoredOrder(held: seq<Page>, page: Page)
      requires Stored(held) && page in held
      ensures Stored([page] + Without(held, page))
    {
      hide Holding, Distinct, Without, Kernel.Numbered, Kernel.Owned;
      var qs := [page] + Without(held, page);
      StoredDistinct(held);
      WithoutElements(held, page);
      PutFirst(Without(held, page), page);
      assert forall p: Page :: p in qs <==> p in held;
      HoldingOrder(cells[..border], held, qs);
      forall p: Page | p in qs
        ensures Owned(p)
      {
        assert p in held;
      }
    }

    /** The last statement of run_proc: find a page that has a frame by its place, and move it to the front. */
    method MoveToFront(page: Page)
      requires Stored(lru) && page in lru
      modifies `lru
      ensures Stored(lru) && lru == old([page] + Without(lru, page))
    {
      hide Holding, Kernel.Numbered, Without;
      ghost var k :| 0 <= k < |lru| && lru[k] == page;
      var i := 0;
      SamePage(lru, i, k);
      while lru[i].index[0] != page.index[0]
        invariant Stored(lru) && lru == old(lru) && 0 <= i <= k
        invariant lru[i].index != [] && page.index != [] && (lru[i].index[0] == page.index[0] <==> i == k)
        decreases k - i
      {
        i := i + 1;
        SamePage(lru, i, k);
      }
      StoredOrder(lru, page);
      StoredDistinct(lru);
      WithoutAt(lru, page, i);
      var next := [lru[i]] + (lru[..i] + lru[i + 1..]);
      assert Stored(next);
      lru := next;
    }

    /** load_PAGE for a listed process. */
    method LoadListed(pcb: Pcb, pageIndex: nat, ghost held: seq<Page>) returns (r: int, ghost base: nat)
      requires Stored(held) && pcb in processes && pageIndex < |pcb.pageTable|
      modifies cells, pcb`source, pcb.pageTable[pageIndex]
      ensures r == (if |held| == border / 3 then 1 else 0) && pcb.pageTable[pageIndex].Sized()
      ensures r == 1 ==> AsBefore(pcb, pcb.pageTable[pageIndex]) && Stored(held)
      ensures r == 0 ==> Fetched(pcb, pcb.pageTable[pageIndex], base)
      ensures r == 0 && pcb.pageTable[pageIndex] !in held ==> Stored([pcb.pageTable[pageIndex]] + held)
    {
      hide Holding, Kernel.Numbered, Kernel.Owned, Kernel.Fetched, Loaded, Renamed, FirstFit, PidString;
      PageOf(pcb, pageIndex);
      r, base := Load(pcb, pageIndex, held);
    }

    /** What run_proc does after a page fault: load the page, in place of the least recently used one if no frame is
        free, put it first on the list, and the process last on the queue. A page that is still on the list after that
        has another frame and is listed twice. */
    method Fault(pcb: Pcb, pageIndex: nat)
      requires Stored(lru)
      requires pcb in processes && pageIndex < |pcb.pageTable|
      modifies `lru, `queue, cells, Pages(), pcb`source
      ensures |old(lru)| <= border / 3
      ensures lru == [pcb.pageTable[pageIndex]] + old(Remaining())
      ensures pcb.pageTable[pageIndex] !in old(Remaining()) ==> Stored(lru)
      ensures queue == old(queue) + [pcb]
      ensures pcb.pageTable[pageIndex].validBit == seq(3, k => k < |old(pcb.source)|)
      ensures pcb.source == if |old(pcb.source)| < 3 then [] else old(pcb.source[3..])
      ensures Replaced(pcb.pageTable[pageIndex], old(cells[..]), PidString(pcb.pid), old(pcb.source), old(Crowded()),
                       old(LastPlace()))
      ensures old(Crowded()) && old(lru[|lru| - 1]) != pcb.pageTable[pageIndex] ==>
        old(lru[|lru| - 1]).index == [0, 0, 0] && old(lru[|lru| - 1]).validBit == [false, false, false]
      ensures forall p: Page :: p in old(Pages()) && p != pcb.pageTable[pageIndex] && (p in old(lru) ==> p in lru) ==>
        p.index == old(p.index) && p.validBit == old(p.validBit)
    {
      hide Holding, Kernel.Numbered, Kernel.Owned, Kernel.Clear, Kernel.Remaining, Kernel.Replaced;
      LoadAnyway(pcb, pageIndex);
      lru := [pcb.pageTable[pageIndex]] + lru;
      queue := queue + [pcb];
    }

    /** load_PAGE, and if it fails once more after the least recently used page has given up its frame. */
    method LoadAnyway(pcb: Pcb, pageIndex: nat)
      requires Stored(lru)
      requires pcb in processes && pageIndex < |pcb.pageTable|
      modifies `lru, cells, Pages(), pcb`source
      ensures |old(lru)| <= border / 3
      ensures lru == old(Remaining())
      ensures pcb.pageTable[pageIndex] !in lru ==> Stored([pcb.pageTable[pageIndex]] + lru)
      ensures pcb.pageTable[pageIndex].validBit == seq(3, k => k < |old(pcb.source)|)
      ensures pcb.source == if |old(pcb.source)| < 3 then [] else old(pcb.source[3..])
      ensures Replaced(pcb.pageTable[pageIndex], old(cells[..]), PidString(pcb.pid), old(pcb.source), old(Crowded()),
                       old(LastPlace()))
      ensures old(Crowded()) && old(lru[|lru| - 1]) != pcb.pageTable[pageIndex] ==>
        old(lru[|lru| - 1]).index == [0, 0, 0] && old(lru[|lru| - 1]).validBit == [false, false, false]
      ensures forall p: Page :: p in old(Pages()) && p != pcb.pageTable[pageIndex] && (p in old(lru) ==> p in lru) ==>
        p.index == old(p.index) && p.validBit == old(p.validBit)
    {
      hide Holding, Kernel.Numbered, Kernel.Owned, Kernel.Clear, Loaded, Renamed, FirstFit, PidString, NoneFree, Framed,
        Refilled, Emptied, HoldsAt;
      PageOf(pcb, pageIndex);
      FullWhenHeld(cells[..border], lru);
      StoredDistinct(lru);
      ghost var c, bs, script := cells[..], Bases(lru), pcb.source;
      if lru != [] {
        LastFrame(lru);
      }
      var r;
      ghost var base;
      r, base := LoadListed(pcb, pageIndex, lru);
      if r == 1 {
        EvictLast();
        ghost var c1 := cells[..];
        r, base := LoadListed(pcb, pageIndex, lru);
        PlaceReused(c, bs, c1, base);
        FetchedCells(c1, cells[..], border, base, PidString(pcb.pid), script);
        EmptiedFirst(c, c1, cells[..], base, PidString(pcb.pid), script);
      } else {
        FetchedCells(c, cells[..], border, base, PidString(pcb.pid), script);
      }
    }

    lemma LastFrame(held: seq<Page>)
      requires Stored(held) && held != []
      ensures LastHeld(held)
    {
      hide NoneFree, Framed;
      FullWhenHeld(cells[..border], held);
      HeldAt(held, |held| - 1);
    }

    /** The last of these pages has a frame, and there is no frame left exactly if they are as many as fit. */
    ghost predicate LastHeld(held: seq<Page>)
      reads cells, held
    {
      && held != [] && held[|held| - 1].index != []
      && Bases(held)[|held| - 1] == held[|held| - 1].index[0] && 0 <= held[|held| - 1].index[0] <= border - 3
      && border <= cells.Length && Framed(cells[..border], Bases(held))
      && (NoneFree(cells[..border]) <==> |held| == border / 3)
    }

    /** The frame of the page that was given up is the one that is taken. */
    lemma PlaceReused(c: seq<Cell>, bs: seq<int>, c1: seq<Cell>, base: nat)
      requires bs != [] && border <= |c| && Framed(c[..border], bs) && NoneFree(c[..border])
      requires 0 <= bs[|bs| - 1] <= border - 3 && Emptied(c, c1, bs[|bs| - 1])
      requires FirstFit(c1[..border], base)
      ensures base == bs[|bs| - 1]
    {
      hide Framed, NoneFree, FirstFit;
      EmptiedRenamed(c, c1, bs[|bs| - 1]);
      RenamedPrefix(c, c1, border, bs[|bs| - 1], FREE);
      FrameReused(c[..border], bs, |bs| - 1, c1[..border], base);
    }

    /** The line is in memory. */
    predicate Ready(pcb: Pcb, pageIndex: nat, line: nat)
      reads pcb.pageTable
    {
      && pageIndex < |pcb.pageTable| && line < |pcb.pageTable[pageIndex].validBit|
      && pcb.pageTable[pageIndex].validBit[line]
    }

    /** No frame is free and the page is the least recently used one. */
    ghost predicate GivesUp(page: Page)
      reads this
    {
      |lru| == border / 3 && lru != [] && page == lru[|lru| - 1]
    }

    /** The page has a frame with these lines, where before there were cells c: the one at `last` if no frame was free,
        the first free one otherwise. No other cell has changed. */
    ghost predicate Replaced(page: Page, c: seq<Cell>, name: string, lines: seq<string>, crowded: bool, last: int)
      reads page, cells
    {
      && |page.index| == 3 && page.index[1] == page.index[0] + 1 && page.index[2] == page.index[0] + 2
      && 0 <= page.index[0] && border <= |c|
      && (if crowded then page.index[0] == last else FirstFit(c[..border], page.index[0]))
      && Refilled(c, cells[..], page.index[0], name, lines, crowded)
    }

    /** No frame is free. */
    ghost predicate Crowded()
      reads this
    {
      |lru| == border / 3
    }

    /** Where the least recently used page is. */
    ghost function LastPlace(): int
      reads this, lru
    {
      if lru == [] || lru[|lru| - 1].index == [] then 0 else lru[|lru| - 1].index[0]
    }

    /** The pages that keep their frames in a fault: all, or all but the last if no frame is free. */
    ghost function Remaining(): seq<Page>
      reads this
    {
      if |lru| == border / 3 && lru != [] then lru[..|lru| - 1] else lru
    }

    lemma InPages(pcb: Pcb, pageIndex: nat)
      requires pcb in processes && pageIndex < |pcb.pageTable|
      ensures pcb.pageTable[pageIndex] in Pages()
    {
      var i :| 0 <= i < |processes| && processes[i] == pcb;
    }

    lemma ListedSized(p: Page)
      requires Valid() && p in Pages()
      ensures p.Sized()
    {
    }

    lemma PageOf(pcb: Pcb, pageIndex: nat)
      requires Numbered() && pcb in processes && pageIndex < |pcb.pageTable|
      ensures var page := pcb.pageTable[pageIndex];
              page in Pages() && page.pid == pcb.pid && page.pageIndex == pageIndex && Owned(page)
    {
      var i :| 0 <= i < |processes| && processes[i] == pcb;
      assert Owns(processes[i], pcb.pageTable[pageIndex]);
    }

    /** run_proc for one line of a page. parsed is what parseInput returns for it; the result 1 is taken for a page
        fault even when the line was run. The list of pages stays in order exactly when the step is no fault, or a
        fault on a page that has no frame, or is the one that has to give its frame up. */
    method RunProc(pcb: Pcb, pageIndex: nat, line: nat, parsed: int) returns (r: int)
      requires Valid()
      requires pcb in processes && pageIndex < |pcb.pageTable| && pageIndex < |pcb.programCounter| && line < 3
      modifies this, cells, Pages(), pcb
      ensures r == if old(Ready(pcb, pageIndex, line)) && parsed != 1 then 0 else 1
      ensures r == 1 ==> lru == [pcb.pageTable[pageIndex]] + old(Remaining())
      ensures pcb.size == old(pcb.size) - if old(Ready(pcb, pageIndex, line)) then 1 else 0
      ensures pcb.programCounter ==
        if old(Ready(pcb, pageIndex, line)) then old(pcb.programCounter[pageIndex := pcb.programCounter[pageIndex] + 1])
        else old(pcb.programCounter)
      ensures history == old(history) + [pcb.pageTable[pageIndex]]
      ensures queue == if r == 1 then old(queue) + [pcb] else old(queue)
      ensures processes == old(processes) && pidCounter == old(pidCounter)
      ensures r == 0 ==> pcb.source == old(pcb.source) && cells[..] == old(cells[..])
      ensures r == 1 ==>
        && pcb.pageTable[pageIndex].validBit == seq(3, k => k < |old(pcb.source)|)
        && pcb.source == (if |old(pcb.source)| < 3 then [] else old(pcb.source[3..]))
        && Replaced(pcb.pageTable[pageIndex], old(cells[..]), PidString(pcb.pid), old(pcb.source), old(Crowded()),
                    old(LastPlace()))
      ensures r == 1 && old(Crowded()) && old(lru[|lru| - 1]) != pcb.pageTable[pageIndex] ==>
        old(lru[|lru| - 1]).index == [0, 0, 0] && old(lru[|lru| - 1]).validBit == [false, false, false]
      ensures forall p: Page :: p in old(Pages()) && (p == pcb.pageTable[pageIndex] ==> r == 0)
                                && (p in old(lru) ==> p in lru) ==>
        p.index == old(p.index) && p.validBit == old(p.validBit)
      ensures Valid() <==> r == 0 || pcb.pageTable[pageIndex] !in old(lru) || old(GivesUp(pcb.pageTable[pageIndex]))
      ensures Valid() ==> lru == Touch(old(lru), border / 3, pcb.pageTable[pageIndex])
    {
      hide Holding, Kernel.Numbered, Kernel.Owned, Touch, Without, Recent, Distinct, Take, Kernel.Replaced;
      var page := pcb.pageTable[pageIndex];
      ghost var held, rest := lru, Remaining();
      PageOf(pcb, pageIndex);
      ListedSized(page);
      TouchKeepsRecent(history, border / 3, page);
      FaultOrder(history, border / 3, rest, page);
      var ret := CpuRun(pcb, pageIndex, line, parsed);
      history := history + [page];
      if ret == 1 {
        Fault(pcb, pageIndex);
        return 1;
      }
      MoveToFront(page);
      TouchPresent(held, border / 3, page);
      return 0;
    }

    method MakeTable(pid: int, n: nat) returns (table: seq<Page>)
      ensures |table| == n && NewTable(table, pid)
      ensures forall k :: 0 <= k < n ==>
        fresh(table[k]) && table[k].validBit == [false, false, false] && table[k].index == [1000, 1000, 1000]
    {
      table := [];
      while |table| < n
        invariant |table| <= n && NewTable(table, pid)
        invariant forall k :: 0 <= k < |table| ==>
          fresh(table[k]) && table[k].validBit == [false, false, false] && table[k].index == [1000, 1000, 1000]
      {
        var page := new Page(pid, |table|);
        table := table + [page];
      }
    }

    /** PCB_init. The result is false exactly when the script cannot be opened or there are fewer free frames than pages
        to load at once, and there the source ends the program. */
    method PcbInit(pid: int, file: File) returns (ok: bool, pcb: Pcb)
      requires Stored(lru)
      modifies cells
      ensures ok <==> Loadable(file, |lru|, border / 3)
      ensures fresh(pcb) && pcb.pid == pid && pcb.size == SizeOf(file)
        && |pcb.pageTable| == PageTableSize(SizeOf(file)) && pcb.programCounter == seq(|pcb.pageTable|, k => 0)
      ensures file.File? ==> 3 * (|pcb.pageTable| - 1) < pcb.size <= 3 * |pcb.pageTable|
      ensures NewTable(pcb.pageTable, pid)
      ensures forall k :: 0 <= k < |pcb.pageTable| ==> fresh(pcb.pageTable[k])
      ensures ok ==> Started(pcb, LinesOf(file), PageLimit(|pcb.pageTable|))
      ensures ok ==> forall x :: 0 <= x < cells.Length && Apart(pcb, PageLimit(|pcb.pageTable|), x) ==>
        cells[x] == old(cells[x])
      ensures ok ==> forall k :: PageLimit(|pcb.pageTable|) <= k < |pcb.pageTable| ==>
        pcb.pageTable[k].index == [1000, 1000, 1000]
      ensures ok ==> Holding(cells[..border], Latest(pcb.pageTable, PageLimit(|pcb.pageTable|)) + lru)
    {
      hide Holding, Kernel.Numbered, Kernel.Owned, Kernel.Clear, Latest, LinesOf, PageTableSize, NewTable,
        Kernel.Started;
      var size := CountLines(file);
      var table := MakeTable(pid, PageTableSize(size));
      EveryLineHasPlace(size);
      pcb := new Pcb(pid, table, size, LinesOf(file));
      StartedNone(pcb, LinesOf(file));
      if file.Missing? {
        return false, pcb;
      }
      var i := 0;
      LatestNone(table, lru);
      FullWhenHeld(cells[..border], lru);
      while i < PageLimit(|table|)
        invariant 0 <= i <= PageLimit(|table|) && i + |lru| <= border / 3
        invariant NewTable(table, pid) && pcb.programCounter == seq(|table|, k => 0) && pcb.size == size
        invariant border <= cells.Length && Holding(cells[..border], Latest(table, i) + lru)
        invariant Started(pcb, LinesOf(file), i)
        invariant forall x :: 0 <= x < cells.Length && Apart(pcb, i, x) ==> cells[x] == old(cells[x])
        invariant forall k :: i <= k < |table| ==> table[k].index == [1000, 1000, 1000]
      {
        var r := LoadNext(pcb, i, LinesOf(file), lru);
        if r == 1 {
          return false, pcb;
        }
        i := i + 1;
      }
      ok := true;
    }

    /** Cell x is in none of the frames of the first i pages. */
    ghost predicate Apart(pcb: Pcb, i: nat, x: int)
      reads pcb.pageTable
    {
      forall k :: 0 <= k < i && k < |pcb.pageTable| ==> x !in pcb.pageTable[k].index
    }

    /** One round of the loop of PCB_init over the pages. */
    method LoadNext(pcb: Pcb, i: nat, ghost lines: seq<string>, ghost rest: seq<Page>) returns (r: int)
      requires NewTable(pcb.pageTable, pcb.pid) && i < |pcb.pageTable| && pcb.pageTable[i] !in rest
      requires border <= cells.Length && Holding(cells[..border], Latest(pcb.pageTable, i) + rest)
      requires Started(pcb, lines, i)
      modifies cells, pcb`source, pcb.pageTable[i]
      ensures NewTable(pcb.pageTable, pcb.pid)
      ensures r == if i + |rest| == border / 3 then 1 else 0
      ensures r == 0 ==>
        Holding(cells[..border], Latest(pcb.pageTable, i + 1) + rest) && Started(pcb, lines, i + 1)
      ensures forall k :: 0 <= k < |pcb.pageTable| && k != i ==> pcb.pageTable[k].index == old(pcb.pageTable[k].index)
      ensures r == 0 ==>
        forall x :: 0 <= x < cells.Length && x !in pcb.pageTable[i].index ==> cells[x] == old(cells[x])
    {
      hide Holding, Latest, FirstFit, Renamed, Loaded, PidString;
      ghost var c, script, table := cells[..], pcb.source, pcb.pageTable;
      LatestNext(table, pcb.pid, i, rest);
      NextLines(lines, i);
      ghost var base;
      r, base := Load(pcb, i, Latest(table, i) + rest);
      if r == 0 {
        assert c[..border] == old(cells[..border]);
        FetchedCells(c, cells[..], border, base, PidString(pcb.pid), script);
        OutsideFrame(c, cells[..], base, PidString(pcb.pid), script);
        CellsAfter(c, cells[..], border, base, PidString(pcb.pid), script);
        forall k, j | 0 <= k < i + 1 && 0 <= j < 3
          ensures LineAt(cells[..], table[k], j, lines)
        {
          if k < i {
            assert table[k] != table[i] && table[k].index == old(table[k].index);
            assert old(LineAt(cells[..], table[k], j, lines));
            LineKept(c, cells[..], table[k], j, lines);
          } else {
            LineTaken(cells[..], table[i], j, lines, base, script);
          }
        }
      }
    }

    /** The first i pages of the process have three lines each, as far as the script goes, and the rest of the script is
        still to be read. */
    ghost predicate Started(pcb: Pcb, lines: seq<string>, i: nat)
      reads pcb, pcb.pageTable, cells
    {
      && i <= |pcb.pageTable|
      && pcb.source == RestOf(lines, i)
      && (forall k :: 0 <= k < |pcb.pageTable| ==>
            pcb.pageTable[k].validBit == seq(3, j => k < i && 3 * k + j < |lines|))
      && forall k, j :: 0 <= k < i && 0 <= j < 3 ==> LineAt(cells[..], pcb.pageTable[k], j, lines)
    }

    /** The loop of new_proc: the loaded pages of a new process go to the front of the list, one after the other. */
    method AddPages(pcb: Pcb)
      requires NewTable(pcb.pageTable, pcb.pid) && forall k :: 0 <= k < |pcb.pageTable| ==> pcb.pageTable[k] !in lru
      requires |lru| + PageLimit(|pcb.pageTable|) <= border / 3 && lru == Take(Recent(history), border / 3)
      modifies `lru, `history
      ensures lru == Latest(pcb.pageTable, PageLimit(|pcb.pageTable|)) + old(lru)
      ensures history == old(history) + pcb.pageTable[..PageLimit(|pcb.pageTable|)]
      ensures lru == Take(Recent(history), border / 3)
    {
      hide Latest, Recent, Take, Touch;
      var table := pcb.pageTable;
      var i := 0;
      LatestNone(table, lru);
      while i < PageLimit(|table|)
        invariant 0 <= i <= PageLimit(|table|) && NewTable(table, pcb.pid)
        invariant lru == Latest(table, i) + old(lru) && history == old(history) + table[..i]
        invariant lru == Take(Recent(history), border / 3)
      {
        LatestNext(table, pcb.pid, i, old(lru));
        TouchKeepsRecent(history, border / 3, table[i]);
        TouchAbsent(lru, border / 3, table[i]);
        lru := [table[i]] + lru;
        history := history + [table[i]];
        assert table[..i + 1] == table[..i] + [table[i]];
        i := i + 1;
      }
    }

    /** new_proc: the new process is last on its lists, and its first pages are the most recently used. */
    method NewProc(file: File) returns (ok: bool, pcb: Pcb)
      requires Valid()
      modifies this, cells
      ensures ok <==> Loadable(file, |old(lru)|, border / 3)
      ensures fresh(pcb) && pcb.pid == old(pidCounter) && pidCounter == old(pidCounter) + 1
      ensures pcb.size == SizeOf(file) && pcb.programCounter == seq(|pcb.pageTable|, k => 0)
      ensures file.File? ==> 3 * (|pcb.pageTable| - 1) < pcb.size <= 3 * |pcb.pageTable|
      ensures forall k :: 0 <= k < |pcb.pageTable| ==> fresh(pcb.pageTable[k])
      ensures ok ==> forall x :: 0 <= x < cells.Length && Apart(pcb, 2, x) ==> cells[x] == old(cells[x])
      ensures ok ==> forall k :: 2 <= k < |pcb.pageTable| ==> pcb.pageTable[k].index == [1000, 1000, 1000]
      ensures ok ==>
        && |lru| == |old(lru)| + (if |pcb.pageTable| < 2 then |pcb.pageTable| else 2)
      ensures ok ==>
        && Valid() && Started(pcb, LinesOf(file), PageLimit(|pcb.pageTable|))
        && processes == old(processes) + [pcb] && queue == old(queue) + [pcb]
        && lru == Latest(pcb.pageTable, PageLimit(|pcb.pageTable|)) + old(lru)
        && history == old(history) + pcb.pageTable[..PageLimit(|pcb.pageTable|)]
    {
      hide Holding, Latest, Recent, Take, AllNumbered, OwnedIn, Touch, Kernel.Started, LinesOf, PageTableSize, NewTable;
      ok, pcb := PcbInit(pidCounter, file);
      pidCounter := pidCounter + 1;
      if !ok {
        return;
      }
      NeedsFrame(file, |lru|, border / 3);
      ListProc(pcb, LinesOf(file));
      processes := processes + [pcb];
      queue := queue + [pcb];
      AddPages(pcb);
    }

    /** Listing a new process whose first pages are in frames. */
    lemma ListProc(pcb: Pcb, lines: seq<string>)
      requires AllNumbered(processes, pcb.pid) && ClearIn(processes, lru) && NewTable(pcb.pageTable, pcb.pid)
      requires forall p: Page :: p in lru ==> OwnedIn(processes, p)
      requires Started(pcb, lines, PageLimit(|pcb.pageTable|))
      ensures AllNumbered(processes + [pcb], pcb.pid + 1)
      ensures ClearIn(processes + [pcb], Latest(pcb.pageTable, PageLimit(|pcb.pageTable|)) + lru)
      ensures forall p: Page :: p in Latest(pcb.pageTable, PageLimit(|pcb.pageTable|)) + lru ==>
        OwnedIn(processes + [pcb], p)
    {
      var n := PageLimit(|pcb.pageTable|);
      assert forall p: Page :: p in Latest(pcb.pageTable, n) ==> p in pcb.pageTable;
      hide AllNumbered, OwnedIn, Kernel.Started, Latest;
      ListOne(processes, pcb);
      StartedClear(pcb, lines, n);
      ClearOne(processes, pcb, lru);
      forall p: Page | p in lru || p in pcb.pageTable
        ensures OwnedIn(processes + [pcb], p)
      {
        OwnOne(processes, pcb, p);
      }
    }

    lemma StartedNone(pcb: Pcb, lines: seq<string>)
      requires pcb.source == lines
      requires forall k :: 0 <= k < |pcb.pageTable| ==> pcb.pageTable[k].validBit == [false, false, false]
      ensures Started(pcb, lines, 0)
    {
    }

    lemma StartedClear(pcb: Pcb, lines: seq<string>, i: nat)
      requires Started(pcb, lines, i)
      ensures forall k :: i <= k < |pcb.pageTable| ==> pcb.pageTable[k].validBit == [false, false, false]
    {
      hide LineAt;
    }
  }
}
