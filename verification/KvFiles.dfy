/** Every file there can be: exactly which ones Load accepts, and what it makes of the others. */
module KvFiles {
  import opened Core
  import opened KvImage
  import opened Radix
  import opened Slices

  /** The layout of the file, byte by byte. */
  lemma Layout(e: Entry, n: nat)
    requires |e.key| <= 32 && |e.value| <= 128 && n < 256
    ensures MAGIC == [69, 75, 86, 49]
    ensures LittleEndian(n, 4) == [n, 0, 0, 0]
    ensures EntryImage(e) == [|e.key|, 0] + e.key + [|e.value|, 0, 0, 0] + e.value
  {
    hide LittleEndian;
    SmallNumber(n, 4);
    SmallNumber(|e.value|, 4);
    SmallNumber(|e.key|, 2);
    Associate([|e.key|, 0], e.key, [|e.value|, 0, 0, 0], e.value);
  }

  lemma Associate(a: Octets, b: Octets, c: Octets, d: Octets)
    ensures a + (b + (c + d)) == a + b + c + d
  {
  }

  lemma SmallNumber(n: nat, k: nat)
    requires n < 256 && (k == 2 || k == 4)
    ensures LittleEndian(n, k) == if k == 2 then [n, 0] else [n, 0, 0, 0]
  {
    assert LittleEndian(0, 1) == [0];
    assert LittleEndian(0, 2) == [0] + [0] == [0, 0];
    assert LittleEndian(0, 3) == [0] + [0, 0];
    assert [0] + [0, 0] == [0, 0, 0] && [n] + [0, 0, 0] == [n, 0, 0, 0] && [n] + [0] == [n, 0];
  }

  /** Least significant byte first. */
  lemma NumberOfFour(a: Octet, b: Octet, c: Octet, d: Octet)
    ensures Number([a, b, c, d]) == a + 256 * b + 65536 * c + 16777216 * d
  {
    assert [a, b, c, d][1..] == [b, c, d] && [b, c, d][1..] == [c, d] && [c, d][1..] == [d] && [d][1..] == [];
    assert Number([d]) == d;
    assert Number([c, d]) == c + 256 * d;
    assert Number([b, c, d]) == b + 256 * Number([c, d]);
  }

  lemma {:induction false} NumberWritesBack(b: Octets)
    ensures Number(b) < Pow256(|b|) && LittleEndian(Number(b), |b|) == b
    decreases |b|
  {
    if b != [] {
      NumberWritesBack(b[1..]);
      assert Number(b) / 256 == Number(b[1..]) && Number(b) % 256 == b[0];
      assert b == [b[0]] + b[1..];
    }
  }

  predicate WithinCapacity(e: Entry) {
    |e.key| <= 32 && |e.value| <= 128
  }

  lemma TakeIsAt(file: Octets, p: nat, n: nat)
    requires Take(file, p, n).Some?
    ensures At(file, p, Take(file, p, n).value) && |Take(file, p, n).value| == n
  {
  }

  lemma AtJoin(file: Octets, p: nat, a: Octets, b: Octets)
    requires At(file, p, a) && At(file, p + |a|, b)
    ensures At(file, p, a + b)
  {
    assert file[p..p + |a + b|] == file[p..p + |a|] + file[p + |a|..p + |a| + |b|];
  }

  /** An entry is read exactly when one within the capacities stands there. */
  lemma ReadEntryIff(file: Octets, p: nat, e: Entry, next: nat)
    ensures ReadEntry(file, p) == Whole(e, next) <==>
            WithinCapacity(e) && At(file, p, EntryImage(e)) && next == p + |EntryImage(e)|
  {
    if ReadEntry(file, p) == Whole(e, next) {
      ReadIsThere(file, p, e, next);
    }
    if WithinCapacity(e) && At(file, p, EntryImage(e)) {
      ReadsEntry(file, p, e);
    }
  }

  lemma ReadIsThere(file: Octets, p: nat, e: Entry, next: nat)
    requires ReadEntry(file, p) == Whole(e, next)
    ensures WithinCapacity(e) && At(file, p, EntryImage(e)) && next == p + |EntryImage(e)|
  {
    hide Number, LittleEndian, At;
    var kl := Take(file, p, 2).value;
    var klen := Number(kl);
    var vl := Take(file, p + 2 + klen, 4).value;
    TakeIsAt(file, p, 2);
    TakeIsAt(file, p + 2, klen);
    TakeIsAt(file, p + 2 + klen, 4);
    TakeIsAt(file, p + 6 + klen, Number(vl));
    NumberWritesBack(kl);
    NumberWritesBack(vl);
    AtJoin(file, p + 2 + klen, vl, e.value);
    AtJoin(file, p + 2, e.key, vl + e.value);
    AtJoin(file, p, kl, e.key + (vl + e.value));
  }

  /** An entry whose key is new finds no place in a store of sixteen; nothing else is ever lost or changed. */
  lemma PutMeans(m: Store, e: Entry)
    ensures var r := Put(m, e);
            && (e.key in m || |m| < 16 ==> e.key in r && r[e.key] == e.value)
            && (e.key !in m && |m| >= 16 ==> r == m)
            && forall k :: k != e.key ==> (k in r <==> k in m) && (k in m ==> r[k] == m[k])
  {
  }

  /** One entry after the other into the store. */
  function PutAll(m: Store, es: seq<Entry>): Store
    decreases |es|
  {
    if es == [] then m else PutAll(Put(m, es[0]), es[1..])
  }

  predicate AllWithin(es: seq<Entry>) {
    forall i :: 0 <= i < |es| ==> WithinCapacity(es[i])
  }

  /** The entries that stand at p, up to count of them and up to the first place where none stands. */
  ghost predicate Stand(file: Octets, p: nat, count: nat, es: seq<Entry>) {
    && |es| <= count && AllWithin(es) && At(file, p, EntriesImage(es))
    && (|es| < count ==> !exists e :: WithinCapacity(e) && At(file, p + |EntriesImage(es)|, EntryImage(e)))
  }

  lemma StandNone(file: Octets, p: nat, count: nat)
    requires p <= |file|
    requires count == 0 || !exists e :: WithinCapacity(e) && At(file, p, EntryImage(e))
    ensures Stand(file, p, count, [])
  {
    assert EntriesImage([]) == [] && file[p..p + 0] == [];
  }

  lemma StandOneMore(file: Octets, p: nat, count: nat, e: Entry, es: seq<Entry>)
    requires count > 0 && WithinCapacity(e) && At(file, p, EntryImage(e))
    requires Stand(file, p + |EntryImage(e)|, count - 1, es)
    ensures Stand(file, p, count, [e] + es)
  {
    hide EntryImage, At;
    assert ([e] + es)[1..] == es;
    assert EntriesImage([e] + es) == EntryImage(e) + EntriesImage(es);
    AtJoin(file, p, EntryImage(e), EntriesImage(es));
    assert p + |EntriesImage([e] + es)| == p + |EntryImage(e)| + |EntriesImage(es)|;
  }

  lemma {:induction false} ReadsWhatStands(file: Octets, p: nat, count: nat, m: Store) returns (es: seq<Entry>)
    requires p <= |file|
    ensures Stand(file, p, count, es)
    ensures ReadEntries(file, p, count, m) == (PutAll(m, es), |es| == count)
    decreases count
  {
    hide Stand, ReadEntry, Put, EntryImage, At, WithinCapacity;
    es := [];
    if count == 0 {
      StandNone(file, p, count);
    } else if ReadEntry(file, p) == Cut {
      forall e
        ensures !(WithinCapacity(e) && At(file, p, EntryImage(e)))
      {
        ReadEntryIff(file, p, e, p + |EntryImage(e)|);
      }
      StandNone(file, p, count);
    } else {
      var Whole(e, next) := ReadEntry(file, p);
      ReadEntryIff(file, p, e, next);
      var more := ReadsWhatStands(file, next, count - 1, Put(m, e));
      es := [e] + more;
      assert es[1..] == more;
      StandOneMore(file, p, count, e, more);
    }
  }

  /** A file without the four letters and a count is refused, and leaves the store empty. */
  lemma ForeignFileIsRefused(f: Octets)
    requires |f| < 8 || f[..4] != [69, 75, 86, 49]
    ensures Loaded(Some(f)) == (map[], Err(IoError))
  {
    hide ReadEntries, Number;
    if |f| >= 8 {
      assert f[0..4] == f[..4];
    }
  }

  /** The count in the header of a file. */
  function CountOf(f: Octets): nat
    requires |f| >= 8
  {
    (f[4] as int) + 256 * (f[5] as int) + 65536 * (f[6] as int) + 16777216 * (f[7] as int)
  }

  /**
   Every other file: the store holds the entries that stand behind the header, up to the count in it and up to the
   first place where no entry within the capacities stands. Load succeeds exactly when there are as many as counted;
   what comes behind them does not matter.
   */
  lemma LoadsWhatStands(f: Octets) returns (es: seq<Entry>)
    requires |f| >= 8 && f[..4] == [69, 75, 86, 49]
    ensures Stand(f, 8, CountOf(f), es)
    ensures Loaded(Some(f)) == (PutAll(map[], es), if |es| == CountOf(f) then Ok(()) else Err(IoError))
  {
    hide ReadEntries, Number, Stand, PutAll;
    es := ReadsWhatStands(f, 8, CountOf(f), map[]);
    NumberOfFour(f[4], f[5], f[6], f[7]);
    assert f[4..8] == [f[4], f[5], f[6], f[7]];
    assert f[0..4] == f[..4];
  }

  /** Exactly the files that Load accepts. */
  ghost predicate Acceptable(f: Octets) {
    && |f| >= 8 && f[..4] == [69, 75, 86, 49]
    && exists es :: |es| == CountOf(f) && AllWithin(es) && At(f, 8, EntriesImage(es))
  }

  lemma LoadOkIff(f: Octets)
    ensures Loaded(Some(f)).1 == Ok(()) <==> Acceptable(f)
    ensures Loaded(Some(f)).1 == Err(IoError) <==> !Acceptable(f)
  {
    if |f| < 8 || f[..4] != [69, 75, 86, 49] {
      ForeignFileIsRefused(f);
    } else {
      hide Loaded, EntriesImage, CountOf;
      var es := LoadsWhatStands(f);
      if |es| < CountOf(f) {
        forall others | |others| == CountOf(f) && AllWithin(others) && At(f, 8, EntriesImage(others))
          ensures false
        {
          StandsLongest(f, 8, CountOf(f), es, others);
        }
      }
    }
  }

  /** At most one entry stands at a place. */
  lemma OneStands(f: Octets, p: nat, a: Entry, b: Entry)
    requires WithinCapacity(a) && At(f, p, EntryImage(a)) && WithinCapacity(b) && At(f, p, EntryImage(b))
    ensures a == b
  {
    hide EntryImage, ReadEntry, At, WithinCapacity;
    ReadEntryIff(f, p, a, p + |EntryImage(a)|);
    ReadEntryIff(f, p, b, p + |EntryImage(b)|);
  }

  lemma FirstStands(f: Octets, p: nat, es: seq<Entry>)
    requires es != [] && AllWithin(es) && At(f, p, EntriesImage(es))
    ensures WithinCapacity(es[0]) && At(f, p, EntryImage(es[0]))
    ensures AllWithin(es[1..]) && At(f, p + |EntryImage(es[0])|, EntriesImage(es[1..]))
  {
    hide EntryImage, At;
    AtSplit(f, p, EntryImage(es[0]), EntriesImage(es[1..]));
  }

  lemma NothingStands(f: Octets, p: nat, count: nat, e: Entry)
    requires Stand(f, p, count, []) && count > 0 && WithinCapacity(e)
    ensures !At(f, p, EntryImage(e))
  {
    hide EntryImage, At, WithinCapacity;
    assert EntriesImage([]) == [] && p + |EntriesImage([])| == p;
  }

  /** No list of entries that stands there is longer. */
  lemma {:induction false} StandsLongest(f: Octets, p: nat, count: nat, es: seq<Entry>, others: seq<Entry>)
    requires Stand(f, p, count, es) && |others| <= count && AllWithin(others) && At(f, p, EntriesImage(others))
    ensures |others| <= |es|
    decreases |others|
  {
    hide Stand, AllWithin, At, EntriesImage, EntryImage, WithinCapacity;
    if others != [] {
      FirstStands(f, p, others);
      if es == [] {
        NothingStands(f, p, count, others[0]);
      } else {
        StandsThere(f, p, count, es);
        FirstStands(f, p, es);
        OneStands(f, p, es[0], others[0]);
        StandRest(f, p, count, es);
        StandsLongest(f, p + |EntryImage(es[0])|, count - 1, es[1..], others[1..]);
      }
    }
  }

  lemma StandsThere(f: Octets, p: nat, count: nat, es: seq<Entry>)
    requires Stand(f, p, count, es)
    ensures AllWithin(es) && At(f, p, EntriesImage(es)) && |es| <= count
  {
  }

  lemma StandRest(f: Octets, p: nat, count: nat, es: seq<Entry>)
    requires es != [] && Stand(f, p, count, es)
    ensures Stand(f, p + |EntryImage(es[0])|, count - 1, es[1..])
  {
    hide EntryImage, At;
    AtSplit(f, p, EntryImage(es[0]), EntriesImage(es[1..]));
    assert p + |EntriesImage(es)| == p + |EntryImage(es[0])| + |EntriesImage(es[1..])|;
  }
}
