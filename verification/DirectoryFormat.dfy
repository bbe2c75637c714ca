/** The entries of a directory file and the finite map from names to inode sectors that they stand for
    (a3/fs/directory.h, a3/fs/directory.c). */
module DirectoryFormat {
  import opened Sectors
  import opened DiskFormat
  import opened FileBytes

  const NAME_MAX: nat := 30
  /** sizeof (struct dir_entry) */
  const ENTRY: nat := 36

  /** The array of NAME_MAX + 1 characters. */
  type NameField = s: seq<Byte> | |s| == 31 witness seq(31, i => 0)

  /** struct dir_entry */
  datatype DirEntry = DirEntry(inodeSector: SectorNo, name: NameField, inUse: bool)

  /** The C string at the start of these bytes. */
  function Text(s: seq<Byte>): (t: seq<Byte>)
    ensures 0 !in t && |t| <= |s|
  {
    if s == [] || s[0] == 0 then [] else [s[0]] + Text(s[1..])
  }

  /** strncpy into the name field. */
  function NamePadded(name: seq<Byte>): NameField
    requires |name| <= NAME_MAX
  {
    name + seq(31 - |name|, i => 0)
  }

  lemma {:induction false} TextOf(name: seq<Byte>, rest: seq<Byte>)
    requires 0 !in name && (rest == [] || rest[0] == 0)
    ensures Text(name + rest) == name
  {
    if name != [] {
      assert (name + rest)[1..] == name[1..] + rest;
      assert name == [name[0]] + name[1..];
      TextOf(name[1..], rest);
    }
  }

  function EncodeEntry(e: DirEntry): (b: seq<Byte>)
    ensures |b| == ENTRY
  {
    U32Bytes(e.inodeSector) + e.name + [if e.inUse then 1 else 0]
  }

  function DecodeEntry(b: seq<Byte>): DirEntry
    requires |b| == ENTRY
  {
    DirEntry(BytesU32(b[0], b[1], b[2], b[3]), b[4..35], b[35] != 0)
  }

  lemma EntryRoundTrip(e: DirEntry)
    ensures DecodeEntry(EncodeEntry(e)) == e
  {
    hide U32Bytes, BytesU32;
    U32RoundTrip(e.inodeSector);
    assert EncodeEntry(e)[4..35] == e.name;
  }

  /** Where struct dir_entry has its fields: the sector number, the 31 characters and the flag. */
  lemma EntryLayout(e: DirEntry, b: seq<Byte>)
    requires |b| == ENTRY
    ensures NumberAt(EncodeEntry(e), 0) == e.inodeSector && EncodeEntry(e)[35] == (if e.inUse then 1 else 0)
    ensures forall k :: 0 <= k < 31 ==> EncodeEntry(e)[4 + k] == e.name[k]
    ensures DecodeEntry(b).inodeSector == NumberAt(b, 0) && (DecodeEntry(b).inUse <==> b[35] != 0)
    ensures forall k :: 0 <= k < 31 ==> DecodeEntry(b).name[k] == b[4 + k]
  {
    U32Layout(e.inodeSector);
    hide U32Bytes;
  }

  /** A name is padded with zeros. */
  lemma PaddedBytes(name: seq<Byte>, k: nat)
    requires |name| <= 30 && k < 31
    ensures NamePadded(name)[k] == if k < |name| then name[k] else 0
  {
  }

  /** Slot i of a directory file. */
  function SlotAt(b: seq<Byte>, i: nat): DirEntry
    requires ENTRY * i + ENTRY <= |b|
  {
    DecodeEntry(b[ENTRY * i..ENTRY * i + ENTRY])
  }

  function Slots(b: seq<Byte>): (t: seq<DirEntry>)
    ensures |t| == |b| / ENTRY
  {
    seq(|b| / ENTRY, i requires 0 <= i < |b| / ENTRY => SlotAt(b, i))
  }

  // ----- the table of entries as a map

  /** Slot i, the parent's slot aside, binds this name. */
  predicate Binds(t: seq<DirEntry>, i: nat, name: seq<Byte>) {
    1 <= i < |t| && t[i].inUse && Text(t[i].name) == name
  }

  /** The parent's entry is first and in use, the names in use are non-empty C strings, and no name is bound twice. */
  ghost predicate TableOk(t: seq<DirEntry>) {
    && |t| >= 1 && t[0].inUse
    && (forall i :: 1 <= i < |t| && t[i].inUse ==> Named(t[i]))
    && (forall i, j :: 1 <= i < j < |t| && t[i].inUse && t[j].inUse ==> Text(t[i].name) != Text(t[j].name))
  }

  ghost function Bindings(t: seq<DirEntry>): map<seq<Byte>, SectorNo> {
    if |t| <= 1 then map[] else
      var n := |t| - 1;
      if t[n].inUse then Bindings(t[..n])[Text(t[n].name) := t[n].inodeSector] else Bindings(t[..n])
  }

  /** What a name is bound to is what its slot says. */
  lemma {:induction false} BindingsAre(t: seq<DirEntry>, name: seq<Byte>)
    requires TableOk(t)
    ensures name in Bindings(t) <==> exists i: nat :: Binds(t, i, name)
    ensures forall i: nat :: Binds(t, i, name) ==> name in Bindings(t) && Bindings(t)[name] == t[i].inodeSector
  {
    if |t| > 1 {
      var n := |t| - 1;
      var s := t[..n];
      BindingsAre(s, name);
      hide Text, Bindings;
      forall i: nat
        ensures Binds(t, i, name) <==> Binds(s, i, name) || (i == n && t[n].inUse && Text(t[n].name) == name)
      {
      }
      BindingsStep(t);
      if name in Bindings(t) {
        if !Binds(t, n, name) {
          var k: nat :| Binds(s, k, name);
          assert Binds(t, k, name);
        }
      }
    }
  }

  lemma BindingsStep(t: seq<DirEntry>)
    requires |t| > 1
    ensures var n := |t| - 1;
            Bindings(t) == if t[n].inUse then Bindings(t[..n])[Text(t[n].name) := t[n].inodeSector]
                           else Bindings(t[..n])
  {
  }

  /** What a file system expects of the contents of a directory. */
  ghost predicate DirectoryOk(b: seq<Byte>) {
    |b| % ENTRY == 0 && TableOk(Slots(b))
  }

  ghost predicate Named(e: DirEntry) {
    0 in e.name && e.name[0] != 0
  }

  lemma PutName(t: seq<DirEntry>, i: nat, e: DirEntry, u: seq<DirEntry>, name: seq<Byte>)
    requires 1 <= i <= |t| && (i < |t| ==> !t[i].inUse) && e.inUse
    requires u == if i < |t| then t[i := e] else t + [e]
    requires TableOk(t) && TableOk(u)
    ensures name in Bindings(u) <==> name in Bindings(t) || name == Text(e.name)
    ensures name in Bindings(u) ==>
      Bindings(u)[name] == if name == Text(e.name) then e.inodeSector else Bindings(t)[name]
  {
    hide Text, Bindings;
    BindingsAre(t, name);
    BindingsAre(u, name);
    forall k: nat
      ensures Binds(u, k, name) <==> Binds(t, k, name) || (k == i && name == Text(e.name))
      ensures Binds(u, k, name) ==> u[k].inodeSector == if k == i then e.inodeSector else t[k].inodeSector
    {
    }
    assert name == Text(e.name) ==> Binds(u, i, name);
  }

  /** An entry put in a free slot, or after the last one, adds its binding and makes no other change. */
  lemma PutBinding(t: seq<DirEntry>, i: nat, e: DirEntry, u: seq<DirEntry>)
    requires TableOk(t) && 1 <= i <= |t| && (i < |t| ==> !t[i].inUse)
    requires e.inUse && Named(e) && Text(e.name) !in Bindings(t)
    requires u == if i < |t| then t[i := e] else t + [e]
    ensures TableOk(u) && Bindings(u) == Bindings(t)[Text(e.name) := e.inodeSector]
  {
    hide Text, Bindings;
    forall k: nat | 1 <= k < |t| && t[k].inUse
      ensures Text(t[k].name) != Text(e.name)
    {
      BindingsAre(t, Text(e.name));
      assert !Binds(t, k, Text(e.name));
    }
    assert TableOk(u);
    forall name
      ensures name in Bindings(u) <==> name in Bindings(t) || name == Text(e.name)
      ensures name in Bindings(u) ==>
        Bindings(u)[name] == if name == Text(e.name) then e.inodeSector else Bindings(t)[name]
    {
      PutName(t, i, e, u, name);
    }
  }

  lemma DropName(t: seq<DirEntry>, i: nat, gone: seq<Byte>, u: seq<DirEntry>, name: seq<Byte>)
    requires TableOk(t) && TableOk(u) && Binds(t, i, gone) && u == t[i := t[i].(inUse := false)]
    ensures name in Bindings(u) <==> name in Bindings(t) && name != gone
    ensures name in Bindings(u) ==> Bindings(u)[name] == Bindings(t)[name]
  {
    hide Text, Bindings;
    BindingsAre(t, name);
    BindingsAre(u, name);
    forall k: nat
      ensures Binds(u, k, name) <==> Binds(t, k, name) && k != i
      ensures Binds(t, k, name) && name == gone ==> k == i
    {
    }
  }

  /** An entry taken out of use takes its binding and no other. */
  lemma DropBinding(t: seq<DirEntry>, i: nat, gone: seq<Byte>)
    requires TableOk(t) && Binds(t, i, gone)
    ensures var u := t[i := t[i].(inUse := false)];
            TableOk(u) && Bindings(u) == Bindings(t) - {gone}
  {
    hide Text, Bindings;
    var u := t[i := t[i].(inUse := false)];
    assert TableOk(u);
    forall name
      ensures name in Bindings(u) <==> name in Bindings(t) && name != gone
      ensures name in Bindings(u) ==> Bindings(u)[name] == Bindings(t)[name]
    {
      DropName(t, i, gone, u, name);
    }
  }

  // ----- writing one slot

  /** Writing an entry over slot i, or just past the end, changes that slot only. */
  lemma SlotWritten(b: seq<Byte>, i: nat, e: DirEntry)
    requires |b| % ENTRY == 0 && ENTRY * i <= |b|
    ensures var c := Written(b, ENTRY * i, EncodeEntry(e));
            && |c| % ENTRY == 0 && |c| == (if ENTRY * i < |b| then |b| else |b| + ENTRY)
            && Slots(c) == if i < |Slots(b)| then Slots(b)[i := e] else Slots(b) + [e]
  {
    hide EncodeEntry, DecodeEntry;
    var x := EncodeEntry(e);
    var c := Written(b, ENTRY * i, x);
    EntryRoundTrip(e);
    forall k | 0 <= k < |c|
      ensures c[k] == if ENTRY * i <= k < ENTRY * i + ENTRY then x[k - ENTRY * i] else b[k]
    {
    }
    forall j | 0 <= j < |c| / ENTRY
      ensures Slots(c)[j] == if j == i then e else Slots(b)[j]
    {
      if j == i {
        assert c[ENTRY * i..ENTRY * i + ENTRY] == x;
      } else {
        assert c[ENTRY * j..ENTRY * j + ENTRY] == b[ENTRY * j..ENTRY * j + ENTRY];
      }
    }
  }
}
