/** The write-back buffer cache with clock replacement (a3/fs/cache.c). */
module BufferCaches {
  import opened Sectors

  const CACHE_SIZE: nat := 64

  datatype Entry = Entry(occupied: bool, sector: SectorNo, buffer: Sector, dirty: bool, access: bool)

  /** The clock passes over exactly the occupied entries whose reference bit is set. */
  predicate SecondChance(e: Entry) {
    e.occupied && e.access
  }

  /** The number of steps the hand takes from slot c to slot j, going round once at most. */
  function Steps(c: nat, j: nat): (k: nat)
    requires c < CACHE_SIZE && j < CACHE_SIZE
    ensures k < CACHE_SIZE
  {
    if c <= j then j - c else j + CACHE_SIZE - c
  }

  /** From slots s0 to slots s the clock went d steps from slot c on, giving second chances. */
  ghost predicate Swept(s0: seq<Entry>, s: seq<Entry>, c: nat, d: nat)
    requires c < CACHE_SIZE
  {
    && |s0| == |s| == CACHE_SIZE
    && forall j :: 0 <= j < CACHE_SIZE ==>
         if Steps(c, j) < d then SecondChance(s0[j]) && s[j] == s0[j].(access := false) else s[j] == s0[j]
  }

  lemma SweptNone(s: seq<Entry>, c: nat)
    requires c < CACHE_SIZE == |s|
    ensures Swept(s, s, c, 0) && Steps(c, c) == 0
  {
  }

  /** One more step, from the slot i that is d steps ahead of c. */
  lemma SweptStep(s0: seq<Entry>, s: seq<Entry>, c: nat, d: nat, i: nat)
    requires c < CACHE_SIZE && i < CACHE_SIZE && Swept(s0, s, c, d) && SecondChance(s[i])
    requires d == Steps(c, i) || (d == CACHE_SIZE && i == c)
    ensures d < CACHE_SIZE && Swept(s0, s[i := s[i].(access := false)], c, d + 1)
    ensures var next := (i + 1) % CACHE_SIZE; d + 1 == Steps(c, next) || (d + 1 == CACHE_SIZE && next == c)
  {
    forall j | 0 <= j < CACHE_SIZE
      ensures Steps(c, j) == d <==> j == i && d < CACHE_SIZE
    {
    }
  }

  lemma SweptSlots(s0: seq<Entry>, s: seq<Entry>, c: nat, d: nat)
    requires c < CACHE_SIZE && Swept(s0, s, c, d)
    ensures |s0| == |s| == CACHE_SIZE
    ensures forall j :: 0 <= j < CACHE_SIZE && Steps(c, j) < d ==>
              SecondChance(s0[j]) && s[j] == s0[j].(access := false)
    ensures forall j :: 0 <= j < CACHE_SIZE && d <= Steps(c, j) ==> s[j] == s0[j]
  {
  }

  class BufferCache {
    const disk: array<Sector>
    const slots: array<Entry>
    var clock: nat
    /** What a reader of the device is meant to see: the cached copy if there is one, else the disk. */
    ghost var view: seq<Sector>

    /** The slot that holds each cached sector. */
    ghost var home: map<int, nat>

    ghost predicate Valid()
      reads this, disk, slots
    {
      && slots.Length == CACHE_SIZE
      && clock < CACHE_SIZE
      && |view| == disk.Length
      // no two occupied slots hold the same sector
      && (forall i :: 0 <= i < CACHE_SIZE && slots[i].occupied ==>
            slots[i].sector in home && home[slots[i].sector] == i)
      && (forall s :: s in home ==>
            && home[s] < CACHE_SIZE && slots[home[s]].occupied && slots[home[s]].sector == s
            && s < disk.Length
            && view[s] == slots[home[s]].buffer
            // a clean slot equals the disk
            && (!slots[home[s]].dirty ==> disk[s] == view[s]))
      && (forall s :: 0 <= s < disk.Length && s !in home ==> view[s] == disk[s])
    }

    constructor (device: array<Sector>)
      ensures Valid()
      ensures disk == device && fresh(slots)
      ensures view == device[..]
    {
      disk := device;
      slots := new Entry[CACHE_SIZE](i => Entry(false, 0, Zeros(), false, false));
      clock := 0;
      view := device[..];
      home := map[];
    }

    /** The assignment slot->access = value; reference bits carry no data. */
    method SetAccess(i: nat, value: bool)
      requires Valid()
      requires i < CACHE_SIZE
      modifies slots
      ensures Valid()
      ensures slots[i] == old(slots[i]).(access := value)
      ensures forall j :: 0 <= j < CACHE_SIZE && j != i ==> slots[j] == old(slots[j])
    {
      slots[i] := slots[i].(access := value);
    }

    /** The device is d, but that the copy in entry e has reached it if e was dirty. */
    ghost predicate WroteBack(d: seq<Sector>, e: Entry)
      reads disk
    {
      && disk.Length == |d|
      && forall x :: 0 <= x < |d| ==>
           disk[x] == if e.occupied && e.dirty && e.sector == x then e.buffer else d[x]
    }

    /** The sector is in this slot. If it was there already, no other slot has changed, nor the device; otherwise the
        clock has stopped there, the entry that was there is written back, and other slots have at most lost their
        reference bits. */
    twostate predicate Brought(sector: SectorNo, slot: nat)
      reads this, slots, disk
    {
      && slots.Length == CACHE_SIZE && slot < CACHE_SIZE
      && (sector in old(home) ==>
            && slot == old(home[sector]) && clock == old(clock) && disk[..] == old(disk[..])
            && forall j :: 0 <= j < CACHE_SIZE && j != slot ==> slots[j] == old(slots[j]))
      && (sector !in old(home) ==>
            && slot == clock && WroteBack(old(disk[..]), old(slots[slot]))
            && forall j :: 0 <= j < CACHE_SIZE && j != slot ==>
                 slots[j] == old(slots[j]) || slots[j] == old(slots[j]).(access := false))
    }

    /** buffer_cache_flush */
    method Flush(i: nat)
      requires Valid()
      requires i < CACHE_SIZE && slots[i].occupied
      modifies slots, disk
      ensures Valid()
      ensures !slots[i].dirty
      ensures slots[i] == old(slots[i]).(dirty := false)
      ensures forall j :: 0 <= j < CACHE_SIZE && j != i ==> slots[j] == old(slots[j])
      ensures WroteBack(old(disk[..]), old(slots[i]))
    {
      if slots[i].dirty {
        disk[slots[i].sector] := slots[i].buffer;
        slots[i] := slots[i].(dirty := false);
      }
    }

    /** buffer_cache_close: afterwards the device itself holds every byte of the view. */
    method Close()
      requires Valid()
      modifies slots, disk
      ensures Valid()
      ensures disk[..] == view
    {
      for i := 0 to CACHE_SIZE
        invariant Valid()
        invariant forall j :: 0 <= j < i && slots[j].occupied ==> !slots[j].dirty
      {
        if slots[i].occupied {
          Flush(i);
        }
      }
    }

    /** buffer_cache_lookup; the null pointer is the index CACHE_SIZE. */
    method Lookup(sector: SectorNo) returns (i: nat)
      requires Valid()
      ensures i <= CACHE_SIZE
      ensures i < CACHE_SIZE ==> slots[i].occupied && slots[i].sector == sector
      ensures i == CACHE_SIZE ==> sector !in home
    {
      for k := 0 to CACHE_SIZE
        invariant forall j :: 0 <= j < k && slots[j].occupied ==> slots[j].sector != sector
      {
        if slots[k].occupied && slots[k].sector == sector {
          return k;
        }
      }
      return CACHE_SIZE;
    }

    lemma SlotCount()
      requires Valid()
      ensures slots.Length == CACHE_SIZE && clock < CACHE_SIZE
    {
    }

    /** The clock loop of buffer_cache_evict: with d the number of second chances given, the hand ends d
        steps ahead on the first slot that is empty or unreferenced; when every slot is referenced it
        comes back to where it stood. */
    method Sweep() returns (ghost d: nat)
      requires Valid()
      modifies this`clock, slots
      ensures Valid()
      ensures d == Steps(old(clock), clock) || (d == CACHE_SIZE && clock == old(clock))
      ensures !SecondChance(slots[clock])
      ensures forall j :: 0 <= j < CACHE_SIZE && Steps(old(clock), j) < d ==>
                SecondChance(old(slots[j])) && slots[j] == old(slots[j]).(access := false)
      ensures forall j :: 0 <= j < CACHE_SIZE && d <= Steps(old(clock), j) ==> slots[j] == old(slots[j])
    {
      hide BufferCache.Valid, Steps, Swept;
      SlotCount();
      ghost var c, s0 := clock, slots[..];
      d := 0;
      SweptNone(s0, c);
      while true
        invariant Valid() && slots.Length == CACHE_SIZE && clock < CACHE_SIZE
        invariant d == Steps(c, clock) || (d == CACHE_SIZE && clock == c)
        invariant Swept(s0, slots[..], c, d)
        decreases CACHE_SIZE - d
      {
        if !slots[clock].occupied {
          break;
        }
        if slots[clock].access {
          SweptStep(s0, slots[..], c, d, clock);
          Advance();
        } else {
          break;
        }
        d := d + 1;
      }
      SweptSlots(s0, slots[..], c, d);
    }

    /** The part of the clock loop that gives a second chance: clear the reference bit and move the hand on. */
    method Advance()
      requires Valid() && slots[clock].occupied
      modifies this`clock, slots
      ensures Valid()
      ensures slots[..] == old(slots[..])[old(clock) := old(slots[clock]).(access := false)]
      ensures clock == (old(clock) + 1) % CACHE_SIZE
    {
      SetAccess(clock, false);
      clock := clock + 1;
      clock := clock % CACHE_SIZE;
    }

    /** buffer_cache_evict. The victim is where the clock loop stops; a dirty victim reaches the disk
        first, so the view does not change. */
    method Evict() returns (victim: nat, ghost d: nat)
      requires Valid()
      modifies this`clock, this`home, slots, disk
      ensures Valid()
      ensures home.Keys <= old(home.Keys)
      ensures victim == clock
      ensures d == Steps(old(clock), victim) || (d == CACHE_SIZE && victim == old(clock))
      ensures d == CACHE_SIZE || !SecondChance(old(slots[victim]))
      ensures forall j :: 0 <= j < CACHE_SIZE && Steps(old(clock), j) < d ==> SecondChance(old(slots[j]))
      ensures !slots[victim].occupied
      ensures forall j :: 0 <= j < CACHE_SIZE && j != victim ==>
                slots[j] == if Steps(old(clock), j) < d then old(slots[j]).(access := false) else old(slots[j])
      ensures WroteBack(old(disk[..]), old(slots[victim]))
    {
      d := Sweep();
      victim := clock;
      if !slots[victim].occupied {
        return;
      }
      if slots[victim].dirty {
        Flush(victim);
      }
      home := home - {slots[victim].sector};
      slots[victim] := slots[victim].(occupied := false);
    }

    /** The cache-miss half that buffer_cache_read and buffer_cache_write share. */
    method Load(sector: SectorNo) returns (slot: nat)
      requires Valid()
      requires sector < |view|
      modifies this`clock, this`home, slots, disk
      ensures Valid()
      ensures sector in home && slot == home[sector] && slot < CACHE_SIZE && slots[slot].occupied
        && slots[slot].sector == sector
      ensures slots[slot].buffer == view[sector]
      ensures slots[slot].dirty <==> sector in old(home) && old(slots[home[sector]].dirty)
      ensures Brought(sector, slot)
    {
      slot := Lookup(sector);
      if slot == CACHE_SIZE {
        ghost var d;
        slot, d := Evict();
        home := home[sector := slot];
        slots[slot] := slots[slot].(occupied := true, sector := sector, dirty := false, buffer := disk[sector]);
      }
    }

    /** buffer_cache_read */
    method Read(sector: SectorNo) returns (target: Sector)
      requires Valid()
      requires sector < |view|
      modifies this`clock, this`home, slots, disk
      ensures Valid()
      ensures target == view[sector]
      ensures sector in home && home[sector] < CACHE_SIZE && slots[home[sector]].access
      ensures slots[home[sector]].dirty <==> sector in old(home) && old(slots[home[sector]].dirty)
      ensures Brought(sector, home[sector])
    {
      var slot := Load(sector);
      SetAccess(slot, true);
      target := slots[slot].buffer;
    }

    /** buffer_cache_write */
    method Write(sector: SectorNo, source: Sector)
      requires Valid()
      requires sector < |view|
      modifies this, slots, disk
      ensures Valid()
      ensures view == old(view)[sector := source]
      ensures sector in home && home[sector] < CACHE_SIZE && slots[home[sector]].access && slots[home[sector]].dirty
      ensures Brought(sector, home[sector])
    {
      var slot := Load(sector);
      SetAccess(slot, true);
      slots[slot] := slots[slot].(dirty := true, buffer := source);
      view := view[sector := source];
    }
  }
}
