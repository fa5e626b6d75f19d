/** The file format of ports/host/host_kv.cpp, written and read back. */
module KvImage {
  import opened Core
  import opened Radix
  import opened Slices

  datatype Code = NotFound | Full | TooLarge | IoError

  type Octet = x: int | 0 <= x < 256
  type Octets = seq<Octet>

  /** ETLX_KV_MAX_ENTRIES, ETLX_KV_KEY_CAPACITY and ETLX_KV_VALUE_CAPACITY. */
  const MAX_ENTRIES: nat := 16
  const KEY_CAPACITY: nat := 32
  const VALUE_CAPACITY: nat := 128

  /** The letters EKV1. */
  const MAGIC: Octets := [69, 75, 86, 49]

  type Store = map<Octets, Octets>

  datatype Entry = Entry(key: Octets, value: Octets)

  // ---- Writing ----

  /** The k low bytes of n, least significant first. */
  function LittleEndian(n: nat, k: nat): (r: Octets)
    ensures |r| == k
    decreases k
  {
    if k == 0 then [] else [n % 256] + LittleEndian(n / 256, k - 1)
  }

  function EntryImage(e: Entry): Octets {
    LittleEndian(|e.key|, 2) + (e.key + (LittleEndian(|e.value|, 4) + e.value))
  }

  function EntriesImage(es: seq<Entry>): Octets {
    if es == [] then [] else EntryImage(es[0]) + EntriesImage(es[1..])
  }

  function Image(es: seq<Entry>): Octets {
    MAGIC + (LittleEndian(|es|, 4) + EntriesImage(es))
  }

  // ---- Reading ----

  /** The number whose bytes, least significant first, are b. */
  function Number(b: Octets): nat {
    if b == [] then 0 else b[0] + 256 * Number(b[1..])
  }

  /** The n bytes at p, if the file has them. */
  function Take(file: Octets, p: nat, n: nat): Option<Octets> {
    if p + n <= |file| then Some(file[p..p + n]) else None
  }

  datatype Parsed = Cut | Whole(entry: Entry, next: nat)

  /** One entry from p on; Cut when the file ends too soon or a length is beyond its capacity. */
  function ReadEntry(file: Octets, p: nat): (r: Parsed)
    ensures r.Whole? ==> p < r.next <= |file| && |r.entry.key| <= KEY_CAPACITY && |r.entry.value| <= VALUE_CAPACITY
  {
    match Take(file, p, 2)
    case None => Cut
    case Some(kl) =>
      var klen := Number(kl);
      if klen > KEY_CAPACITY || Take(file, p + 2, klen).None? then Cut
      else
        match Take(file, p + 2 + klen, 4)
        case None => Cut
        case Some(vl) =>
          var vlen := Number(vl);
          if vlen > VALUE_CAPACITY || Take(file, p + 6 + klen, vlen).None? then Cut
          else
            Whole(Entry(Take(file, p + 2, klen).value, Take(file, p + 6 + klen, vlen).value), p + 6 + klen + vlen)
  }

  /** Set on keys and values within their capacities: the one way to fail is a full store. */
  function Put(m: Store, e: Entry): Store {
    if e.key !in m && |m| >= MAX_ENTRIES then m else m[e.key := e.value]
  }

  /** The next count entries into the store; false when one of them cannot be read. */
  function ReadEntries(file: Octets, p: nat, count: nat, m: Store): (Store, bool)
    decreases count
  {
    if count == 0 then (m, true)
    else
      match ReadEntry(file, p)
      case Cut => (m, false)
      case Whole(e, next) => ReadEntries(file, next, count - 1, Put(m, e))
  }

  /** What Load makes of a file; a missing one is an empty store. */
  function Loaded(file: Option<Octets>): (Store, Result<(), Code>) {
    match file
    case None => (map[], Ok(()))
    case Some(f) =>
      if Take(f, 0, 4) != Some(MAGIC) || Take(f, 4, 4).None? then (map[], Err(IoError))
      else
        var (m, ok) := ReadEntries(f, 8, Number(Take(f, 4, 4).value), map[]);
        (m, if ok then Ok(()) else Err(IoError))
  }

  // ---- Reading back what was written ----

  /** Entries of a store, in some order. */
  predicate Storable(es: seq<Entry>) {
    && |es| <= MAX_ENTRIES
    && forall i :: 0 <= i < |es| ==> |es[i].key| <= KEY_CAPACITY && |es[i].value| <= VALUE_CAPACITY
  }

  function MapOf(es: seq<Entry>): (m: Store)
    ensures |m| <= |es|
  {
    if es == [] then map[]
    else
      var last := |es| - 1;
      MapOf(es[..last])[es[last].key := es[last].value]
  }

  lemma {:induction false} NumberReadsBack(n: nat, k: nat)
    requires n < Pow256(k)
    ensures Number(LittleEndian(n, k)) == n
    decreases k
  {
    if k > 0 {
      NumberReadsBack(n / 256, k - 1);
      assert LittleEndian(n, k)[1..] == LittleEndian(n / 256, k - 1);
    }
  }

  lemma LengthsReadBack(n: nat)
    requires n <= VALUE_CAPACITY
    ensures Number(LittleEndian(n, 2)) == n && Number(LittleEndian(n, 4)) == n
  {
    assert Pow256(2) == 256 * Pow256(1) && Pow256(1) == 256;
    assert Pow256(4) == 256 * Pow256(3) && Pow256(3) == 256 * Pow256(2);
    NumberReadsBack(n, 2);
    NumberReadsBack(n, 4);
  }

  lemma TakesAt(file: Octets, p: nat, t: Octets)
    requires At(file, p, t)
    ensures Take(file, p, |t|) == Some(t)
  {
  }

  lemma ReadsEntry(file: Octets, p: nat, e: Entry)
    requires At(file, p, EntryImage(e)) && |e.key| <= KEY_CAPACITY && |e.value| <= VALUE_CAPACITY
    ensures ReadEntry(file, p) == Whole(e, p + |EntryImage(e)|)
  {
    hide At, LittleEndian, Number, Take;
    var k, v := |e.key|, |e.value|;
    AtSplit(file, p, LittleEndian(k, 2), e.key + (LittleEndian(v, 4) + e.value));
    AtSplit(file, p + 2, e.key, LittleEndian(v, 4) + e.value);
    AtSplit(file, p + 2 + k, LittleEndian(v, 4), e.value);
    LengthsReadBack(k);
    LengthsReadBack(v);
    TakesAt(file, p, LittleEndian(k, 2));
    TakesAt(file, p + 2, e.key);
    TakesAt(file, p + 2 + k, LittleEndian(v, 4));
    TakesAt(file, p + 6 + k, e.value);
  }

  /** The file ends within t, which starts at p. */
  predicate AtCut(file: Octets, p: nat, t: Octets) {
    p <= |file| < p + |t| && file[p..] == t[..|file| - p]
  }

  lemma CutSplit(file: Octets, p: nat, a: Octets, b: Octets)
    requires AtCut(file, p, a + b)
    ensures if |file| < p + |a| then AtCut(file, p, a) else At(file, p, a) && AtCut(file, p + |a|, b)
  {
    var n := |file| - p;
    if n < |a| {
      assert (a + b)[..n] == a[..n];
    } else {
      assert (a + b)[..n][..|a|] == a;
      assert (a + b)[..n][|a|..] == b[..n - |a|];
      assert file[p..][|a|..] == file[p + |a|..];
    }
  }

  lemma CutTakesNothing(file: Octets, p: nat, t: Octets)
    requires AtCut(file, p, t)
    ensures Take(file, p, |t|) == None
  {
  }

  lemma ReadsCutEntry(file: Octets, p: nat, e: Entry)
    requires AtCut(file, p, EntryImage(e)) && |e.key| <= KEY_CAPACITY && |e.value| <= VALUE_CAPACITY
    ensures ReadEntry(file, p) == Cut
  {
    hide At, AtCut, LittleEndian, Number, Take;
    var k, v := |e.key|, |e.value|;
    LengthsReadBack(k);
    LengthsReadBack(v);
    CutSplit(file, p, LittleEndian(k, 2), e.key + (LittleEndian(v, 4) + e.value));
    if |file| < p + 2 {
      CutTakesNothing(file, p, LittleEndian(k, 2));
    } else {
      TakesAt(file, p, LittleEndian(k, 2));
      CutSplit(file, p + 2, e.key, LittleEndian(v, 4) + e.value);
      if |file| < p + 2 + k {
        CutTakesNothing(file, p + 2, e.key);
      } else {
        CutSplit(file, p + 2 + k, LittleEndian(v, 4), e.value);
        ReadsCutValue(file, p + 2 + k, e.value);
      }
    }
  }

  lemma ReadsCutValue(file: Octets, p: nat, value: Octets)
    requires |value| <= VALUE_CAPACITY
    requires if |file| < p + 4 then AtCut(file, p, LittleEndian(|value|, 4))
             else At(file, p, LittleEndian(|value|, 4)) && AtCut(file, p + 4, value)
    ensures Take(file, p, 4).Some? ==>
              Number(Take(file, p, 4).value) == |value| && Take(file, p + 4, |value|) == None
  {
    hide At, AtCut, LittleEndian, Number, Take;
    LengthsReadBack(|value|);
    if |file| < p + 4 {
      CutTakesNothing(file, p, LittleEndian(|value|, 4));
    } else {
      TakesAt(file, p, LittleEndian(|value|, 4));
      CutTakesNothing(file, p + 4, value);
    }
  }

  lemma PutIsUpdate(es: seq<Entry>, i: nat)
    requires i < |es| <= MAX_ENTRIES
    ensures Put(MapOf(es[..i]), es[i]) == MapOf(es[..i + 1])
  {
    assert es[..i + 1][..i] == es[..i];
  }

  lemma {:induction false} ReadsAll(file: Octets, p: nat, es: seq<Entry>, i: nat)
    requires Storable(es) && i <= |es| && At(file, p, EntriesImage(es[i..]))
    ensures ReadEntries(file, p, |es| - i, MapOf(es[..i])) == (MapOf(es), true)
    decreases |es| - i
  {
    hide At, EntryImage, ReadEntry, Put, MapOf;
    if i == |es| {
      assert es[..i] == es;
    } else {
      assert es[i..][1..] == es[i + 1..];
      AtSplit(file, p, EntryImage(es[i]), EntriesImage(es[i + 1..]));
      ReadsEntry(file, p, es[i]);
      PutIsUpdate(es, i);
      ReadsAll(file, p + |EntryImage(es[i])|, es, i + 1);
    }
  }

  /** The first index from i on whose entry does not lie wholly within the n bytes that start at entry i. */
  function WholeUntil(es: seq<Entry>, i: nat, n: int): (c: nat)
    requires i <= |es|
    ensures i <= c <= |es|
    decreases |es| - i
  {
    if i == |es| || n < |EntryImage(es[i])| then i else WholeUntil(es, i + 1, n - |EntryImage(es[i])|)
  }

  lemma NotAtEnd(file: Octets, p: nat, es: seq<Entry>, i: nat)
    requires i <= |es| && AtCut(file, p, EntriesImage(es[i..]))
    ensures i < |es| && p <= |file|
  {
  }

  lemma EntriesSplit(file: Octets, p: nat, es: seq<Entry>, i: nat)
    requires i < |es| && AtCut(file, p, EntriesImage(es[i..]))
    ensures var next := p + |EntryImage(es[i])|;
            if |file| < next then AtCut(file, p, EntryImage(es[i]))
            else At(file, p, EntryImage(es[i])) && AtCut(file, next, EntriesImage(es[i + 1..]))
  {
    hide At, AtCut, EntryImage;
    assert es[i..][1..] == es[i + 1..];
    CutSplit(file, p, EntryImage(es[i]), EntriesImage(es[i + 1..]));
  }

  lemma WholeStep(es: seq<Entry>, i: nat, n: int)
    requires i < |es|
    ensures WholeUntil(es, i, n) ==
            if n < |EntryImage(es[i])| then i else WholeUntil(es, i + 1, n - |EntryImage(es[i])|)
  {
  }

  lemma {:induction false} ReadsCut(file: Octets, p: nat, es: seq<Entry>, i: nat, c: nat)
    requires Storable(es) && i <= |es| && AtCut(file, p, EntriesImage(es[i..])) && c == WholeUntil(es, i, |file| - p)
    ensures ReadEntries(file, p, |es| - i, MapOf(es[..i])) == (MapOf(es[..c]), false)
    decreases |es| - i
  {
    hide At, AtCut, EntryImage, EntriesImage, ReadEntry, Put, MapOf, LittleEndian, WholeUntil;
    NotAtEnd(file, p, es, i);
    EntriesSplit(file, p, es, i);
    WholeStep(es, i, |file| - p);
    var next := p + |EntryImage(es[i])|;
    if |file| < next {
      ReadsCutEntry(file, p, es[i]);
    } else {
      ReadsEntry(file, p, es[i]);
      PutIsUpdate(es, i);
      ReadsCut(file, next, es, i + 1, c);
    }
  }

  /** The image written for the entries of a store loads as exactly that store. */
  lemma ImageLoads(es: seq<Entry>)
    requires Storable(es)
    ensures Loaded(Some(Image(es))) == (MapOf(es), Ok(()))
  {
    hide Number, LittleEndian, EntriesImage, ReadEntries, Take;
    var f := Image(es);
    assert At(f, 0, f);
    AtSplit(f, 0, MAGIC, LittleEndian(|es|, 4) + EntriesImage(es));
    AtSplit(f, 4, LittleEndian(|es|, 4), EntriesImage(es));
    TakesAt(f, 0, MAGIC);
    TakesAt(f, 4, LittleEndian(|es|, 4));
    LengthsReadBack(|es|);
    assert es[0..] == es && es[..0] == [];
    ReadsAll(f, 8, es, 0);
  }

  /** A strict prefix of it loads as exactly the entries it holds whole, and the loss is reported. */
  lemma CutImageLoads(es: seq<Entry>, n: nat)
    requires Storable(es) && n < |Image(es)|
    ensures Loaded(Some(Image(es)[..n])) == (MapOf(es[..WholeUntil(es, 0, n - 8)]), Err(IoError))
  {
    var f := Image(es)[..n];
    assert AtCut(f, 0, Image(es));
    hide Number, LittleEndian, EntriesImage, ReadEntries, Take, At, AtCut, EntryImage, WholeUntil, MapOf;
    CutSplit(f, 0, MAGIC, LittleEndian(|es|, 4) + EntriesImage(es));
    assert es[0..] == es && es[..0] == [];
    if n < 4 {
      CutTakesNothing(f, 0, MAGIC);
    } else {
      CutSplit(f, 4, LittleEndian(|es|, 4), EntriesImage(es));
      TakesAt(f, 0, MAGIC);
      if n < 8 {
        CutTakesNothing(f, 4, LittleEndian(|es|, 4));
      } else {
        TakesAt(f, 4, LittleEndian(|es|, 4));
        LengthsReadBack(|es|);
        ReadsCut(f, 8, es, 0, WholeUntil(es, 0, n - 8));
      }
    }
  }
}
