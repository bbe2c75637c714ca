/** A run of the pager to a state that its invariant does not allow. */
module PagerRuns {
  import opened Scripts
  import opened Recency
  import opened Kernels

  /** Two lines, both of which end in a newline: count_lines makes three of them. */
  lemma ShortScript()
    ensures ReadAll("a\nb\n") == ["a\n", "b\n"] && LineCount("a\nb\n") == 3
  {
    var s, t: string := "a\nb\n", "b\n";
    assert s[1..] == "\nb\n" && s[1..][1..] == t && t[1..] == "\n" && t[1..][1..] == [];
    assert Chars(s, LINE_MAX) == 2 && Chars(t, LINE_MAX) == 2;
    assert Counted("\n", 'b') == 1 && Counted(t, NEWLINE) == Counted("\n", 'b');
    assert Counted("\nb\n", 'a') == 1 + Counted(t, NEWLINE) && Counted(s, NEWLINE) == Counted("\nb\n", 'a');
    assert s[..2] == "a\n" && s[2..] == t && t[..2] == t && t[2..] == [];
  }

  /** The page runs one of its lines, alone in memory. */
  method RunLine(k: Kernel, pcb: Pcb, line: nat) returns (r: int)
    requires k.Valid() && pcb in k.processes && line < 3
    requires |pcb.pageTable| == 1 == |pcb.programCounter| && k.lru == [pcb.pageTable[0]] && k.Ready(pcb, 0, line)
    modifies k, k.cells, k.Pages(), pcb
    ensures r == 0 && k.Valid() && k.lru == old(k.lru) && k.processes == old(k.processes)
    ensures pcb.pageTable[0].validBit == old(pcb.pageTable[0].validBit)
    ensures |pcb.programCounter| == 1 && pcb.size == old(pcb.size) - 1
  {
    hide Kernel.Valid;
    k.InPages(pcb, 0);
    r := k.RunProc(pcb, 0, line, 0);
  }

  /** The script runs alone in a store of two frames. Its third line does not exist, so its only page is loaded once
      more, into the other frame, and is listed twice. */
  method ExtraLineRun() returns (k: Kernel, pcb: Pcb, r: int)
    ensures r == 1 && !k.Valid()
    ensures |pcb.pageTable| == 1 && k.lru == [pcb.pageTable[0], pcb.pageTable[0]] && pcb.size == 1
  {
    hide Kernel.Valid, ReadAll, LineCount, Touch, Without, Counted, Chars, Kernel.Replaced, Kernel.Apart;
    ShortScript();
    k := new Kernel(6, 0);
    var ok;
    ok, pcb := k.NewProc(File("a\nb\n"));
    assert pcb.pageTable[0].validBit == [true, true, false];
    assert Latest(pcb.pageTable, 1) == [pcb.pageTable[0]];
    assert pcb in k.processes;
    r := RunLine(k, pcb, 0);
    r := RunLine(k, pcb, 1);
    r := k.RunProc(pcb, 0, 2, 0);
  }
}
