/** The bounded key-value store of src/storage/kv.cpp and its file of ports/host/host_kv.cpp. */
module Kv {
  import opened Core
  import opened KvImage
  import opened Radix

  // ---- Reading a file ----

  class InFile {
    const data: Octets
    var pos: nat

    constructor (data: Octets)
      ensures this.data == data && pos == 0
    {
      this.data, pos := data, 0;
    }

    ghost predicate Valid()
      reads this
    {
      pos <= |data|
    }

    /** The next byte, or -1 at the end of the file. */
    method Fgetc() returns (c: int)
      requires Valid()
      modifies this
      ensures Valid() && -1 <= c < 256
      ensures if old(pos) < |data| then c == data[old(pos)] && pos == old(pos) + 1 else c == -1 && pos == old(pos)
    {
      if pos >= |data| {
        return -1;
      }
      c := data[pos];
      pos := pos + 1;
    }

    /** At most n bytes. */
    method Fread(n: nat) returns (r: Octets)
      requires Valid()
      modifies this
      ensures Valid()
      ensures match Take(data, old(pos), n)
              case Some(t) => r == t && |r| == n && pos == old(pos) + n
              case None => |r| < n
    {
      var k := if n <= |data| - pos then n else |data| - pos;
      r := data[pos..pos + k];
      pos := pos + k;
    }

    method GetU16() returns (r: Option<nat>)
      requires Valid()
      modifies this
      ensures Valid()
      ensures match Take(data, old(pos), 2)
              case Some(t) => r == Some(Number(t)) && pos == old(pos) + 2
              case None => r == None
    {
      var a := Fgetc();
      var b := Fgetc();
      if a == -1 || b == -1 {
        return None;
      }
      assert data[old(pos)..old(pos) + 2] == [a, b];
      NumberOfTwo(a, b);
      return Some(a + b * 256);
    }

    method GetU32() returns (r: Option<nat>)
      requires Valid()
      modifies this
      ensures Valid()
      ensures match Take(data, old(pos), 4)
              case Some(t) => r == Some(Number(t)) && pos == old(pos) + 4
              case None => r == None
    {
      ghost var start := pos;
      var v: nat := 0;
      var weight := 1;
      for i := 0 to 4
        invariant Valid() && pos == start + i
        invariant weight == Pow256(i) && v == Number(data[start..start + i])
      {
        var c := Fgetc();
        if c == -1 {
          return None;
        }
        NumberAppend(data[start..start + i], c);
        assert data[start..start + i + 1] == data[start..start + i] + [c];
        v := v + c * weight;
        weight := weight * 256;
      }
      return Some(v);
    }
  }

  lemma NumberOfTwo(a: Octet, b: Octet)
    ensures Number([a, b]) == a + b * 256
  {
    assert [a, b][1..] == [b] && [b][1..] == [];
    assert Number([b]) == b;
  }

  lemma {:induction false} NumberAppend(b: Octets, c: Octet)
    ensures Number(b + [c]) == Number(b) + c * Pow256(|b|)
    decreases |b|
  {
    if b == [] {
      assert (b + [c])[1..] == [];
    } else {
      assert (b + [c])[1..] == b[1..] + [c];
      NumberAppend(b[1..], c);
      assert 256 * (c * Pow256(|b| - 1)) == c * (256 * Pow256(|b| - 1));
    }
  }

  // ---- A disk on which every step of Commit can fail ----

  /** What goes wrong: only the first kept bytes of the temporary file ever reach the disk. */
  datatype Faults = Faults(openOk: bool, kept: nat, flushOk: bool, renameOk: bool) {
    function Kept(written: Octets): Octets {
      if kept < |written| then written[..kept] else written
    }

    predicate NothingReported() {
      openOk && flushOk && renameOk
    }
  }

  class Disk {
    const faults: Faults
    var main: Option<Octets>
    var temp: Option<Octets>
    /** What was handed to stdio for the temporary file. */
    var written: Octets
    /** Every main file that a crash after one of the steps so far would have left behind. */
    ghost var left: set<Option<Octets>>

    constructor (main: Option<Octets>, faults: Faults)
      ensures Valid() && this.main == main && this.faults == faults && left == {main}
    {
      this.main, this.faults := main, faults;
      temp, written, left := None, [], {main};
    }

    ghost predicate Valid()
      reads this
    {
      main in left
    }

    /** The temporary file is being written. */
    ghost predicate Writing()
      reads this
    {
      main in left && temp == Some(faults.Kept(written))
    }

    method OpenTemp() returns (ok: bool)
      requires Valid()
      modifies this
      ensures ok == faults.openOk && main == old(main) && left == old(left)
      ensures if ok then Writing() && written == [] else Valid()
    {
      if faults.openOk {
        written, temp := [], Some([]);
      }
      left := left + {main};
      return faults.openOk;
    }

    method Fputc(c: int)
      requires Writing()
      modifies this
      ensures Writing() && written == old(written) + [c % 256] && main == old(main) && left == old(left)
    {
      written := written + [c % 256];
      temp := Some(faults.Kept(written));
      left := left + {main};
    }

    method Flush() returns (ok: bool)
      ensures ok == faults.flushOk
    {
      return faults.flushOk;
    }

    /** Atomic: the main file is the old one or the temporary one. */
    method Rename() returns (ok: bool)
      requires Writing()
      modifies this
      ensures ok == faults.renameOk && Valid() && left == old(left) + {main}
      ensures main == if ok then Some(faults.Kept(old(written))) else old(main)
    {
      if faults.renameOk {
        main, temp := temp, None;
      }
      left := left + {main};
      return faults.renameOk;
    }

    method PutU16(v: nat)
      requires Writing()
      modifies this
      ensures Writing() && written == old(written) + LittleEndian(v, 2) && main == old(main) && left == old(left)
    {
      Fputc(v % 256);
      Fputc(v / 256 % 256);
      assert LittleEndian(v, 2) == [v % 256] + ([v / 256 % 256] + LittleEndian(v / 256 / 256, 0));
    }

    method PutU32(v: nat)
      requires Writing()
      modifies this
      ensures Writing() && written == old(written) + LittleEndian(v, 4) && main == old(main) && left == old(left)
    {
      var rest := v;
      for i := 0 to 4
        invariant Writing() && main == old(main) && left == old(left)
        invariant written + LittleEndian(rest, 4 - i) == old(written) + LittleEndian(v, 4)
      {
        assert LittleEndian(rest, 4 - i) == [rest % 256] + LittleEndian(rest / 256, 3 - i);
        Fputc(rest % 256);
        rest := rest / 256;
      }
    }

    method Fwrite(data: Octets)
      requires Writing()
      modifies this
      ensures Writing() && written == old(written) + data && main == old(main) && left == old(left)
    {
      for i := 0 to |data|
        invariant Writing() && written == old(written) + data[..i] && main == old(main) && left == old(left)
      {
        Fputc(data[i]);
      }
    }
  }

  // ---- The store ----

  class FileKeyValueStore {
    var entries: Store

    /** Capacities hold. */
    ghost predicate Valid()
      reads this
    {
      && |entries| <= MAX_ENTRIES
      && forall k :: k in entries ==> |k| <= KEY_CAPACITY && |entries[k]| <= VALUE_CAPACITY
    }

    constructor (file: Option<Octets>)
      ensures Valid() && entries == Loaded(file).0
    {
      entries := map[];
      new;
      var _ := Load(file);
    }

    /** Copies the value into out, which is left alone on every error. */
    method Get(key: Octets, out: array<Octet>) returns (r: Result<nat, Code>)
      requires Valid()
      modifies out
      ensures r == if |key| > KEY_CAPACITY then Err(TooLarge)
                   else if key !in entries then Err(NotFound)
                   else if |entries[key]| > out.Length then Err(TooLarge)
                   else Ok(|entries[key]|)
      ensures out[..] == if r.Ok? then entries[key] + old(out[r.value..]) else old(out[..])
    {
      if |key| > KEY_CAPACITY {
        return Err(TooLarge);
      }
      if key !in entries {
        return Err(NotFound);
      }
      var v := entries[key];
      if |v| > out.Length {
        return Err(TooLarge);
      }
      forall i | 0 <= i < |v| {
        out[i] := v[i];
      }
      return Ok(|v|);
    }

    method Has(key: Octets) returns (r: bool)
      requires Valid()
      ensures r == (key in entries)
    {
      if |key| > KEY_CAPACITY {
        return false;
      }
      return key in entries;
    }

    method Set(key: Octets, value: Octets) returns (r: Result<(), Code>)
      requires Valid()
      modifies this
      ensures Valid()
      ensures r == if |key| > KEY_CAPACITY || |value| > VALUE_CAPACITY then Err(TooLarge)
                   else if key !in old(entries) && |old(entries)| == MAX_ENTRIES then Err(Full)
                   else Ok(())
      ensures entries == if r.Ok? then old(entries)[key := value] else old(entries)
    {
      if |key| > KEY_CAPACITY {
        return Err(TooLarge);
      }
      if |value| > VALUE_CAPACITY {
        return Err(TooLarge);
      }
      if key !in entries && |entries| >= MAX_ENTRIES {
        return Err(Full);
      }
      entries := entries[key := value];
      return Ok(());
    }

    method Remove(key: Octets) returns (r: Result<(), Code>)
      requires Valid()
      modifies this
      ensures Valid() && entries == old(entries) - {key}
      ensures r == if |key| > KEY_CAPACITY then Err(TooLarge) else Ok(())
    {
      if |key| > KEY_CAPACITY {
        return Err(TooLarge);
      }
      entries := entries - {key};
      return Ok(());
    }

    /** Replaces the entries by those of the file; after an error those that came before it stay. */
    method Load(file: Option<Octets>) returns (r: Result<(), Code>)
      modifies this
      ensures Valid() && (entries, r) == Loaded(file)
    {
      entries := map[];
      if file.None? {
        return Ok(());
      }
      var f := new InFile(file.value);
      var magic := f.Fread(4);
      if |magic| != 4 || magic != MAGIC {
        return Err(IoError);
      }
      var count := f.GetU32();
      if count.None? {
        return Err(IoError);
      }
      var ok := LoadEntries(f, count.value);
      return if ok then Ok(()) else Err(IoError);
    }

    /** Reads count entries, and sets each. */
    method LoadEntries(f: InFile, count: nat) returns (ok: bool)
      requires Valid() && f.Valid()
      modifies this, f
      ensures Valid() && (entries, ok) == ReadEntries(f.data, old(f.pos), count, old(entries))
    {
      hide ReadEntry;
      var i := 0;
      while i < count
        invariant Valid() && f.Valid() && i <= count
        invariant ReadEntries(f.data, f.pos, count - i, entries)
               == ReadEntries(f.data, old(f.pos), count, old(entries))
      {
        var e := LoadEntry(f);
        if e.None? {
          return false;
        }
        var _ := Set(e.value.key, e.value.value);
        i := i + 1;
      }
      return true;
    }

    /** The five reads of one entry; None for the first that fails. */
    static method LoadEntry(f: InFile) returns (r: Option<Entry>)
      requires f.Valid()
      modifies f
      ensures f.Valid()
      ensures match ReadEntry(f.data, old(f.pos))
              case Cut => r == None
              case Whole(e, next) => r == Some(e) && f.pos == next
    {
      var klen := f.GetU16();
      if klen.None? || klen.value > KEY_CAPACITY {
        return None;
      }
      var key := f.Fread(klen.value);
      if |key| != klen.value {
        return None;
      }
      var vlen := f.GetU32();
      if vlen.None? || vlen.value > VALUE_CAPACITY {
        return None;
      }
      var value := f.Fread(vlen.value);
      if |value| != vlen.value {
        return None;
      }
      return Some(Entry(key, value));
    }

    /**
     Writes every entry, in any order, to the temporary file and renames it over the main one. A crash at any step
     leaves the old main file or the one with which Commit ends.
     */
    method Commit(disk: Disk) returns (r: Result<(), Code>, ghost es: seq<Entry>)
      requires Valid() && disk.Valid()
      modifies disk
      ensures Storable(es) && MapOf(es) == entries
      ensures r == if disk.faults.openOk && disk.faults.flushOk && disk.faults.renameOk then Ok(()) else Err(IoError)
      ensures disk.main == if r.Ok? then Some(disk.faults.Kept(Image(es))) else old(disk.main)
      ensures disk.Valid() && disk.left == old(disk.left) + {disk.main}
    {
      hide Written, Image, MapOf, LittleEndian;
      es := SomeOrder(entries);
      AllWritten(entries, es);
      var ok := disk.OpenTemp();
      if !ok {
        return Err(IoError), es;
      }
      es := WriteImage(disk);
      ok := disk.Flush();
      if !ok {
        return Err(IoError), es;
      }
      ok := disk.Rename();
      return if ok then Ok(()) else Err(IoError), es;
    }

    /** Header and entries, in the order in which the loop meets them. */
    method WriteImage(disk: Disk) returns (ghost es: seq<Entry>)
      requires Valid() && disk.Writing() && disk.written == []
      modifies disk
      ensures Storable(es) && MapOf(es) == entries
      ensures disk.Writing() && disk.written == Image(es)
      ensures disk.main == old(disk.main) && disk.left == old(disk.left)
    {
      hide EntriesImage, LittleEndian, MapOf;
      disk.Fwrite(MAGIC);
      disk.PutU32(|entries|);
      es := WriteEntries(disk);
      AllWritten(entries, es);
      assert disk.written == Image(es);
    }

    method WriteEntries(disk: Disk) returns (ghost es: seq<Entry>)
      requires disk.Writing()
      modifies disk
      ensures Written(entries, {}, es)
      ensures disk.Writing() && disk.written == old(disk.written) + EntriesImage(es)
      ensures disk.main == old(disk.main) && disk.left == old(disk.left)
    {
      hide EntryImage, EntriesImage, Written;
      es := [];
      var rest := entries.Keys;
      NoEntries(entries);
      ghost var start := disk.written;
      while rest != {}
        invariant Written(entries, rest, es)
        invariant disk.Writing() && disk.written == start + EntriesImage(es)
        invariant disk.main == old(disk.main) && disk.left == old(disk.left)
        decreases |rest|
      {
        var k :| k in rest;
        KeyIsThere(entries, rest, es, k);
        WriteEntry(disk, k, entries[k]);
        EntryFollows(start, es, Entry(k, entries[k]));
        OneMoreEntry(entries, rest, es, k);
        es := es + [Entry(k, entries[k])];
        rest := rest - {k};
      }
    }

    static method WriteEntry(disk: Disk, key: Octets, value: Octets)
      requires disk.Writing()
      modifies disk
      ensures disk.Writing() && disk.written == old(disk.written) + EntryImage(Entry(key, value))
      ensures disk.main == old(disk.main) && disk.left == old(disk.left)
    {
      hide LittleEndian;
      disk.PutU16(|key|);
      disk.Fwrite(key);
      disk.PutU32(|value|);
      if value != [] {
        disk.Fwrite(value);
      }
    }
  }

  /** The entries met so far are those of the keys that are not left. */
  ghost predicate Written(m: Store, rest: set<Octets>, es: seq<Entry>) {
    && rest <= m.Keys && |es| == |m| - |rest| && MapOf(es) == m - rest
    && forall i :: 0 <= i < |es| ==> es[i].key in m && m[es[i].key] == es[i].value
  }

  lemma KeyIsThere(m: Store, rest: set<Octets>, es: seq<Entry>, k: Octets)
    requires Written(m, rest, es) && k in rest
    ensures k in m
  {
  }

  lemma NoEntries(m: Store)
    ensures Written(m, m.Keys, []) && EntriesImage([]) == []
  {
    assert m - m.Keys == map[];
  }

  lemma OneMoreEntry(m: Store, rest: set<Octets>, es: seq<Entry>, k: Octets)
    requires Written(m, rest, es) && k in rest
    ensures Written(m, rest - {k}, es + [Entry(k, m[k])])
  {
    var more := es + [Entry(k, m[k])];
    assert more[..|es|] == es;
    assert m - (rest - {k}) == (m - rest)[k := m[k]];
  }

  lemma AllWritten(m: Store, es: seq<Entry>)
    requires Written(m, {}, es)
    ensures |es| == |m| && MapOf(es) == m
    ensures forall i :: 0 <= i < |es| ==> es[i].key in m && m[es[i].key] == es[i].value
  {
    assert m - {} == m;
  }

  /** Some order of the entries, for a Commit that writes none of them. */
  lemma SomeOrder(m: Store) returns (es: seq<Entry>)
    ensures Written(m, {}, es)
  {
    hide Written;
    es := [];
    var rest := m.Keys;
    NoEntries(m);
    while rest != {}
      invariant Written(m, rest, es)
      decreases |rest|
    {
      var k :| k in rest;
      KeyIsThere(m, rest, es, k);
      OneMoreEntry(m, rest, es, k);
      es := es + [Entry(k, m[k])];
      rest := rest - {k};
    }
  }

  lemma {:induction false} EntriesImageAppend(es: seq<Entry>, e: Entry)
    ensures EntriesImage(es + [e]) == EntriesImage(es) + EntryImage(e)
    decreases |es|
  {
    hide EntryImage;
    if es == [] {
      assert (es + [e])[1..] == [];
    } else {
      assert (es + [e])[1..] == es[1..] + [e];
      EntriesImageAppend(es[1..], e);
    }
  }

  lemma EntryFollows(start: Octets, es: seq<Entry>, e: Entry)
    ensures start + EntriesImage(es) + EntryImage(e) == start + EntriesImage(es + [e])
  {
    hide EntriesImage, EntryImage;
    EntriesImageAppend(es, e);
    assert start + EntriesImage(es) + EntryImage(e) == start + (EntriesImage(es) + EntryImage(e));
  }

  // ---- What a reopened store finds ----

  /**
   Commit replaces the store as a whole, as its comment promises, when flush reports every lost write: after a crash
   at any step the next Load finds the previous store, or the committed one.
   */
  lemma CrashLeavesWholeStore(before: Option<Octets>, faults: Faults, es: seq<Entry>, found: Option<Octets>)
    requires Storable(es)
    requires found == before || (faults.NothingReported() && found == Some(faults.Kept(Image(es))))
    requires faults.NothingReported() ==> faults.kept >= |Image(es)|
    ensures Loaded(found) == Loaded(before) || Loaded(found) == (MapOf(es), Ok(()))
  {
    hide Image, Loaded, MapOf;
    if found != before {
      ImageLoads(es);
    }
  }

  /**
   The committed store comes back exactly when nothing was lost. A loss that flush does not report tears it: Commit
   succeeds, and the next Load finds the entries that were kept whole and an error.
   */
  lemma UnreportedLossTearsStore(faults: Faults, es: seq<Entry>)
    requires Storable(es)
    ensures Loaded(Some(faults.Kept(Image(es)))) == (MapOf(es), Ok(())) <==> faults.kept >= |Image(es)|
    ensures faults.kept < |Image(es)| ==>
              Loaded(Some(faults.Kept(Image(es)))) == (MapOf(es[..WholeUntil(es, 0, faults.kept - 8)]), Err(IoError))
  {
    hide Image, Loaded, MapOf, WholeUntil;
    if faults.kept >= |Image(es)| {
      ImageLoads(es);
    } else {
      CutImageLoads(es, faults.kept);
    }
  }

  /**
   Commit, seen from a store that is opened afresh after a crash at any of its steps. When flush reports every loss it
   finds the whole previous store or the whole committed one; a loss that is not reported is found as an error.
   */
  method CommitThenCrash(store: FileKeyValueStore, disk: Disk) returns (r: Result<(), Code>, ghost es: seq<Entry>)
    requires store.Valid() && disk.Valid() && disk.left == {disk.main}
    modifies disk
    ensures Storable(es) && MapOf(es) == store.entries
    ensures disk.faults.NothingReported() && disk.faults.kept < |Image(es)| ==>
              r.Ok? && Loaded(disk.main) == (MapOf(es[..WholeUntil(es, 0, disk.faults.kept - 8)]), Err(IoError))
    ensures !(disk.faults.NothingReported() && disk.faults.kept < |Image(es)|) ==>
              forall found :: found in disk.left ==>
                Loaded(found) == Loaded(old(disk.main)) || Loaded(found) == (store.entries, Ok(()))
    ensures r.Ok? && disk.faults.kept >= |Image(es)| ==> Loaded(disk.main) == (store.entries, Ok(()))
  {
    hide Image, Loaded, MapOf, WholeUntil, Storable;
    ghost var before := disk.main;
    r, es := store.Commit(disk);
    UnreportedLossTearsStore(disk.faults, es);
    if !(disk.faults.NothingReported() && disk.faults.kept < |Image(es)|) {
      forall found | found in disk.left
        ensures Loaded(found) == Loaded(before) || Loaded(found) == (store.entries, Ok(()))
      {
        CrashLeavesWholeStore(before, disk.faults, es, found);
      }
    }
  }
}
