/**
 Byte streams: src/io/io.cpp and include/etlx/crypto/stream.hpp. The interfaces Reader, Writer and Hasher of the source
 become datatypes of their implementations; a call through an interface is a call of Read, Write, Feed or Finish.
 */
module Streams {
  import opened Core
  import opened Sha256Spec
  import Hmac
  import Sha256

  datatype Code = ShortWrite | OutOfRange | BadState | ReadFailed

  // ---- Readers ----

  class SpanReader {
    const data: Bytes
    var pos: nat

    constructor (data: Bytes)
      ensures this.data == data && pos == 0
    {
      this.data, pos := data, 0;
    }

    ghost predicate Valid()
      reads this
    {
      pos <= |data|
    }

    function Remaining(): Bytes
      reads this
      requires Valid()
    {
      data[pos..]
    }

    /** Fills dst as far as the data goes; 0 is the end of the stream. */
    method Read(dst: array<Byte>) returns (n: nat)
      requires Valid()
      modifies this, dst
      ensures Valid() && n == pos - old(pos)
      ensures n == if dst.Length < |old(Remaining())| then dst.Length else |old(Remaining())|
      ensures dst[..n] == old(Remaining())[..n]
    {
      n := if dst.Length < |data| - pos then dst.Length else |data| - pos;
      forall i | 0 <= i < n {
        dst[i] := data[pos + i];
      }
      pos := pos + n;
    }
  }

  /** A stream that hands out any non-empty piece of what is left, and ends or fails behind the last one. */
  class Source {
    var rest: Bytes
    const breaks: bool

    constructor (rest: Bytes, breaks: bool)
      ensures this.rest == rest && this.breaks == breaks
    {
      this.rest, this.breaks := rest, breaks;
    }

    method Pull(dst: array<Byte>) returns (n: Option<nat>)
      modifies this, dst
      ensures old(rest) == [] ==> n == (if breaks then None else Some(0)) && rest == []
      ensures old(rest) != [] ==> n.Some? && n.value <= |old(rest)| && n.value <= dst.Length
      ensures old(rest) != [] ==> (n.value == 0 <==> dst.Length == 0)
      ensures old(rest) != [] ==> dst[..n.value] == old(rest)[..n.value] && rest == old(rest)[n.value..]
    {
      if rest == [] {
        return if breaks then None else Some(0);
      }
      var most := if |rest| <= dst.Length then |rest| else dst.Length;
      var k: nat :| k <= most && (most > 0 ==> k > 0);
      forall i | 0 <= i < k {
        dst[i] := rest[i];
      }
      rest := rest[k..];
      return Some(k);
    }
  }

  datatype Reader = FromSpan(span: SpanReader) | FromSource(source: Source)

  ghost function Origin(r: Reader): object {
    match r
    case FromSpan(s) => s
    case FromSource(s) => s
  }

  ghost predicate Readable(r: Reader)
    reads Origin(r)
  {
    r.FromSpan? ==> r.span.Valid()
  }

  /** What is still to be read. */
  ghost function Left(r: Reader): Bytes
    reads Origin(r)
    requires Readable(r)
  {
    match r
    case FromSpan(s) => s.Remaining()
    case FromSource(s) => s.rest
  }

  /** Whether the reader fails where its stream ends. */
  ghost predicate Breaks(r: Reader) {
    r.FromSource? && r.source.breaks
  }

  /** Some of what is left, at least one byte of it; nothing, or a failure, once all is read. */
  method Read(r: Reader, dst: array<Byte>) returns (n: Result<nat, Code>)
    requires Readable(r) && dst.Length > 0
    modifies Origin(r), dst
    ensures Readable(r)
    ensures old(Left(r)) == [] ==> n == (if Breaks(r) then Err(ReadFailed) else Ok(0)) && Left(r) == []
    ensures old(Left(r)) != [] ==> n.Ok? && 0 < n.value <= |old(Left(r))| && n.value <= dst.Length
    ensures old(Left(r)) != [] ==> dst[..n.value] == old(Left(r))[..n.value] && Left(r) == old(Left(r))[n.value..]
  {
    match r
    case FromSpan(s) =>
      var k := s.Read(dst);
      n := Ok(k);
    case FromSource(s) =>
      var k := s.Pull(dst);
      n := if k.Some? then Ok(k.value) else Err(ReadFailed);
  }

  // ---- Hashers ----

  datatype Hasher = Plain(sha: Sha256.Sha256) | Keyed(hmac: Hmac.HmacSha256)

  ghost function State(h: Hasher): set<object> {
    match h
    case Plain(s) => {s, s.state, s.buffer}
    case Keyed(m) => {m, m.inner, m.inner.state, m.inner.buffer, m.okey}
  }

  ghost predicate Sound(h: Hasher)
    reads State(h)
  {
    match h
    case Plain(s) => s.Valid()
    case Keyed(m) => m.Valid()
  }

  ghost predicate Finalized(h: Hasher)
    reads State(h)
  {
    match h
    case Plain(s) => s.finalized
    case Keyed(m) => m.inner.finalized
  }

  /** What it was fed. */
  ghost function Fed(h: Hasher): Bytes
    reads State(h)
  {
    match h
    case Plain(s) => s.message
    case Keyed(m) => m.text
  }

  /** What it makes of a whole message. */
  ghost function HashBy(h: Hasher, m: Bytes): Bytes {
    match h
    case Plain(_) => Digest(m)
    case Keyed(k) => Hmac.Tag(k.key, m)
  }

  /** Hasher::Update. */
  method Feed(h: Hasher, data: Bytes) returns (r: Result<(), Code>)
    requires Sound(h)
    modifies State(h)
    ensures Sound(h) && Finalized(h) == old(Finalized(h))
    ensures Finalized(h) ==> r == Err(BadState) && Fed(h) == old(Fed(h))
    ensures !Finalized(h) ==> r == Ok(()) && Fed(h) == old(Fed(h)) + data
  {
    hide Sha256.Stands, Hmac.Tag, Digest;
    var ok: Result<(), Sha256.Code>;
    match h {
      case Plain(s) => ok := s.Update(data);
      case Keyed(m) => ok := m.Update(data);
    }
    r := if ok.Ok? then Ok(()) else Err(BadState);
  }

  /** Hasher::Final. */
  method Finish(h: Hasher) returns (r: Result<Bytes, Code>)
    requires Sound(h)
    modifies State(h)
    ensures Sound(h) && Finalized(h)
    ensures r == if old(Finalized(h)) then Err(BadState) else Ok(HashBy(h, old(Fed(h))))
  {
    hide Sha256.Stands, Hmac.Tag, Digest;
    var d: Result<Bytes, Sha256.Code>;
    match h {
      case Plain(s) => d := s.Final();
      case Keyed(m) => d := m.Final();
    }
    r := if d.Ok? then Ok(d.value) else Err(BadState);
  }

  // ---- Writers ----

  class SpanWriter {
    const buffer: array<Byte>
    var pos: nat

    constructor (buffer: array<Byte>)
      ensures this.buffer == buffer && pos == 0
    {
      this.buffer, pos := buffer, 0;
    }

    method Put(src: Bytes) returns (ok: bool)
      requires pos <= buffer.Length
      modifies this, buffer
      ensures ok == (|src| <= buffer.Length - old(pos))
      ensures ok ==> pos == old(pos) + |src| && buffer[..pos] == old(buffer[..pos]) + src
      ensures !ok ==> pos == old(pos) && buffer[..] == old(buffer[..])
    {
      if |src| > buffer.Length - pos {
        return false;
      }
      forall i | 0 <= i < |src| {
        buffer[pos + i] := src[i];
      }
      pos := pos + |src|;
      return true;
    }
  }

  class CountingWriter {
    var count: nat
    /** The bytes that were counted and thrown away. */
    ghost var seen: Bytes

    constructor ()
      ensures count == 0 && seen == []
    {
      count, seen := 0, [];
    }
  }

  datatype Writer =
    | ToSpan(span: SpanWriter)
    | ToCounter(counter: CountingWriter)
    | ToHasher(hasher: Hasher)
    | Tee(a: Writer, b: Writer)

  ghost function Repr(w: Writer): set<object> {
    match w
    case ToSpan(s) => {s, s.buffer}
    case ToCounter(c) => {c}
    case ToHasher(h) => State(h)
    case Tee(a, b) => Repr(a) + Repr(b)
  }

  lemma ReprIsAllocated(w: Writer)
    ensures forall o :: o in Repr(w) ==> allocated(o)
  {
  }

  /** The two writers of a tee share nothing. */
  ghost predicate Ready(w: Writer)
    reads Repr(w)
  {
    match w
    case ToSpan(s) => s.pos <= s.buffer.Length
    case ToCounter(c) => c.count == |c.seen|
    case ToHasher(h) => Sound(h)
    case Tee(a, b) => Ready(a) && Ready(b) && Repr(a) !! Repr(b)
  }

  /** How many more bytes a sink takes; None for any number, and less than 0 for a sink that is closed. */
  type Room = Option<int>

  predicate Admits(room: Room, n: nat) {
    room.None? || n <= room.value
  }

  function Less(room: Room, n: nat): Room {
    if room.None? then None else Some(room.value - n)
  }

  function Tighter(a: Room, b: Room): Room {
    if a.None? then b else if b.None? then a else if a.value <= b.value then a else b
  }

  /** The room of the tightest sink behind w. */
  ghost function Free(w: Writer): Room
    reads Repr(w)
  {
    match w
    case ToSpan(s) => Some(s.buffer.Length - s.pos)
    case ToCounter(_) => None
    case ToHasher(h) => if Finalized(h) then Some(-1) else None
    case Tee(a, b) => Tighter(Free(a), Free(b))
  }

  /** What each sink behind w has received, from left to right. */
  ghost function Received(w: Writer): seq<Bytes>
    reads Repr(w)
    requires Ready(w)
  {
    match w
    case ToSpan(s) => [s.buffer[..s.pos]]
    case ToCounter(c) => [c.seen]
    case ToHasher(h) => [Fed(h)]
    case Tee(a, b) => Received(a) + Received(b)
  }

  /** The state of the sinks behind a writer, as far as writing goes. */
  datatype Sinks = Sinks(received: seq<Bytes>, room: Room)

  ghost function Holding(w: Writer): Sinks
    reads Repr(w)
    requires Ready(w)
  {
    Sinks(Received(w), Free(w))
  }

  /** Every sink has received src behind what it held. */
  ghost function Fill(s: Sinks, src: Bytes): Sinks {
    Sinks(AppendAll(s.received, src), Less(s.room, |src|))
  }

  lemma FillNothing(s: Sinks)
    ensures Fill(s, []) == s
  {
    AppendAllNothing(s.received);
  }

  lemma FillTwice(s: Sinks, all: Bytes, from: nat, upTo: nat)
    requires from <= upTo <= |all|
    ensures Fill(Fill(s, all[..from]), all[from..upTo]) == Fill(s, all[..upTo])
  {
    hide AppendAll;
    AppendAllTwice(s.received, all[..from], all[from..upTo]);
    assert all[..from] + all[from..upTo] == all[..upTo];
  }

  /** The same bytes at the end of each. */
  ghost function AppendAll(sinks: seq<Bytes>, src: Bytes): (r: seq<Bytes>)
    ensures |r| == |sinks|
  {
    seq(|sinks|, i requires 0 <= i < |sinks| => sinks[i] + src)
  }

  lemma AppendAllTwice(sinks: seq<Bytes>, x: Bytes, y: Bytes)
    ensures AppendAll(AppendAll(sinks, x), y) == AppendAll(sinks, x + y)
  {
    forall i | 0 <= i < |sinks|
      ensures sinks[i] + x + y == sinks[i] + (x + y)
    {
    }
  }

  lemma AppendAllNothing(sinks: seq<Bytes>)
    ensures AppendAll(sinks, []) == sinks
  {
    assert forall i :: 0 <= i < |sinks| ==> sinks[i] + [] == sinks[i];
  }

  lemma AppendAllSplits(a: seq<Bytes>, b: seq<Bytes>, src: Bytes)
    ensures AppendAll(a + b, src) == AppendAll(a, src) + AppendAll(b, src)
  {
  }

  /** Each sink got src whole or not at all. */
  ghost predicate AllOrNothing(before: seq<Bytes>, after: seq<Bytes>, src: Bytes) {
    && |before| == |after|
    && forall i :: 0 <= i < |before| ==> after[i] == before[i] || after[i] == before[i] + src
  }

  /** Each sink got a beginning of src. */
  ghost predicate Beginnings(before: seq<Bytes>, after: seq<Bytes>, src: Bytes) {
    && |before| == |after|
    && forall i :: 0 <= i < |before| ==> before[i] <= after[i] <= before[i] + src
  }

  lemma SplitsAllOrNothing(a: seq<Bytes>, b: seq<Bytes>, a': seq<Bytes>, b': seq<Bytes>, src: Bytes)
    requires AllOrNothing(a, a', src) && AllOrNothing(b, b', src)
    ensures AllOrNothing(a + b, a' + b', src)
  {
  }

  lemma NothingIsAllOrNothing(a: seq<Bytes>, src: Bytes)
    ensures AllOrNothing(a, a, src) && AllOrNothing(a, AppendAll(a, src), src)
  {
  }

  /** A piece delivered whole or not at all behind an earlier beginning makes a beginning. */
  lemma PieceBegins(before: seq<Bytes>, after: seq<Bytes>, all: Bytes, from: nat, upTo: nat)
    requires from <= upTo <= |all| && AllOrNothing(AppendAll(before, all[..from]), after, all[from..upTo])
    ensures Beginnings(before, after, all)
  {
    forall i | 0 <= i < |before|
      ensures before[i] <= after[i] <= before[i] + all
    {
      var t := before[i];
      assert AppendAll(before, all[..from])[i] == t + all[..from];
      assert t + all[..from] + all[from..upTo] == t + all[..upTo];
    }
  }

  method Write(w: Writer, src: Bytes) returns (r: Result<(), Code>)
    requires Ready(w)
    modifies Repr(w)
    ensures Ready(w)
    ensures r.Ok? <==> Admits(old(Free(w)), |src|)
    ensures r.Err? && w.ToSpan? ==> r.error == ShortWrite
    ensures r.Err? && w.ToHasher? ==> r.error == BadState
    ensures r.Err? ==> r.error != ReadFailed && AllOrNothing(old(Received(w)), Received(w), src)
    ensures r.Ok? ==> Received(w) == AppendAll(old(Received(w)), src)
    ensures r.Ok? ==> Free(w) == Less(old(Free(w)), |src|)
    decreases w
  {
    match w
    case ToSpan(s) =>
      var ok := s.Put(src);
      r := if ok then Ok(()) else Err(ShortWrite);
    case ToCounter(c) =>
      c.count := c.count + |src|;
      c.seen := c.seen + src;
      r := Ok(());
    case ToHasher(h) => r := Feed(h, src);
    case Tee(a, b) => r := WriteBoth(a, b, src);
  }

  /** TeeWriter::Write. */
  method WriteBoth(a: Writer, b: Writer, src: Bytes) returns (r: Result<(), Code>)
    requires Ready(a) && Ready(b) && Repr(a) !! Repr(b)
    modifies Repr(a), Repr(b)
    ensures Ready(a) && Ready(b)
    ensures r.Ok? <==> Admits(old(Free(a)), |src|) && Admits(old(Free(b)), |src|)
    ensures r.Err? ==> r.error != ReadFailed
    ensures r.Err? ==> AllOrNothing(old(Received(a) + Received(b)), Received(a) + Received(b), src)
    ensures r.Ok? ==> Received(a) + Received(b) == AppendAll(old(Received(a) + Received(b)), src)
    ensures r.Ok? ==> Free(a) == Less(old(Free(a)), |src|) && Free(b) == Less(old(Free(b)), |src|)
    decreases Tee(a, b), 0
  {
    hide Repr, Ready, Received, Free, AllOrNothing;
    ReprIsAllocated(a);
    ReprIsAllocated(b);
    ghost var left, right := Received(a), Received(b);
    r := Write(a, src);
    assert Ready(b) && Received(b) == right;
    ghost var left' := Received(a);
    if r.Ok? {
      r := Write(b, src);
      assert Ready(a) && Received(a) == left';
      AppendAllSplits(left, right, src);
      NothingIsAllOrNothing(left, src);
    } else {
      NothingIsAllOrNothing(right, src);
    }
    if r.Err? {
      SplitsAllOrNothing(left, right, left', Received(b), src);
    }
  }

  // ---- Copying ----

  /** The reader, the scratch buffer and the sinks of a copy are different objects. */
  ghost predicate Apart(src: Reader, dst: Writer, scratch: array<Byte>)
    reads Origin(src), Repr(dst)
  {
    && Readable(src) && Ready(dst)
    && Origin(src) != scratch && Origin(src) !in Repr(dst) && scratch !in Repr(dst)
  }

  /** What one turn of the copy loop comes to: rest was left before it, and left afterwards. */
  ghost predicate ChunkOutcome(r: Result<nat, Code>, rest: Bytes, breaks: bool, left: Bytes,
                               before: Sinks, after: Sinks)
  {
    if rest == [] then
      r == (if breaks then Err(ReadFailed) else Ok(0)) && left == [] && after == before
    else if r.Ok? then
      0 < r.value <= |rest| && left == rest[r.value..] && Admits(before.room, r.value)
      && after == Fill(before, rest[..r.value])
    else
      r.error != ReadFailed && !Admits(before.room, |rest|) && PieceLost(rest, before, after)
  }

  /** Every sink got the next piece whole or not at all. */
  ghost predicate PieceLost(rest: Bytes, before: Sinks, after: Sinks) {
    exists k: nat :: k <= |rest| && AllOrNothing(before.received, after.received, rest[..k])
  }

  /** One turn of the copy loop: 0 at the end of the stream. */
  method CopyChunk(src: Reader, dst: Writer, scratch: array<Byte>) returns (r: Result<nat, Code>)
    requires Apart(src, dst, scratch) && scratch.Length > 0
    modifies Origin(src), scratch, Repr(dst)
    ensures Apart(src, dst, scratch)
    ensures ChunkOutcome(r, old(Left(src)), Breaks(src), Left(src), old(Holding(dst)), Holding(dst))
    ensures r.Err? && dst.ToHasher? ==> r.error == BadState || r.error == ReadFailed
  {
    hide Repr, Ready, Received, Free, AllOrNothing, Readable, Left, AppendAll;
    ReprIsAllocated(dst);
    ghost var rest := Left(src);
    var n := Read(src, scratch);
    if n.Err? {
      return Err(n.error);
    }
    if n.value == 0 {
      return Ok(0);
    }
    var wr := Write(dst, scratch[..n.value]);
    if wr.Err? {
      return Err(wr.error);
    }
    return Ok(n.value);
  }

  /** What a copy comes to: all was left before it. */
  ghost predicate Outcome(r: Result<nat, Code>, all: Bytes, breaks: bool, before: Sinks, after: Sinks) {
    if all == [] || Admits(before.room, |all|) then
      r == (if breaks then Err(ReadFailed) else Ok(|all|)) && after == Fill(before, all)
    else
      r.Err? && r.error != ReadFailed && Beginnings(before.received, after.received, all)
  }

  /** The state of the copy loop after total bytes. */
  ghost predicate Copied(all: Bytes, total: int, left: Bytes, before: Sinks, now: Sinks) {
    && 0 <= total <= |all| && left == all[total..] && now == Fill(before, all[..total])
    && (total > 0 ==> Admits(before.room, total))
  }

  lemma NothingCopied(all: Bytes, before: Sinks)
    ensures Copied(all, 0, all, before, before)
  {
    FillNothing(before);
  }

  lemma ChunkCopied(all: Bytes, total: nat, rest: Bytes, n: nat, breaks: bool, left: Bytes, before: Sinks, now: Sinks,
                    after: Sinks)
    requires Copied(all, total, rest, before, now) && n > 0
    requires ChunkOutcome(Ok(n), rest, breaks, left, now, after)
    ensures Copied(all, total + n, left, before, after)
  {
    hide AppendAll;
    assert all[total..][..n] == all[total..total + n];
    FillTwice(before, all, total, total + n);
  }

  lemma CopyEnds(all: Bytes, total: nat, rest: Bytes, r: Result<nat, Code>, breaks: bool, left: Bytes, before: Sinks,
                 now: Sinks, after: Sinks)
    requires Copied(all, total, rest, before, now) && (r.Err? || r.value == 0)
    requires ChunkOutcome(r, rest, breaks, left, now, after)
    ensures Outcome(if r.Ok? then Ok(total) else r, all, breaks, before, after)
    ensures all == [] || Admits(before.room, |all|) ==> left == []
  {
    hide AppendAll, AllOrNothing, Beginnings;
    if total == |all| {
      assert all[..total] == all;
    } else {
      var k: nat :| k <= |rest| && AllOrNothing(now.received, after.received, rest[..k]);
      assert rest[..k] == all[total..total + k];
      PieceBegins(before.received, after.received, all, total, total + k);
    }
  }

  /** The copy loop. */
  method CopyAll(src: Reader, dst: Writer, scratch: array<Byte>) returns (r: Result<nat, Code>)
    requires Apart(src, dst, scratch) && scratch.Length > 0
    modifies Origin(src), scratch, Repr(dst)
    ensures Apart(src, dst, scratch)
    ensures Outcome(r, old(Left(src)), Breaks(src), old(Holding(dst)), Holding(dst))
    ensures old(Left(src)) == [] || Admits(old(Free(dst)), |old(Left(src))|) ==> Left(src) == []
    ensures r.Err? && dst.ToHasher? ==> r.error == BadState || r.error == ReadFailed
  {
    hide Repr, Ready, Received, Free, Readable, Left, Outcome, ChunkOutcome, Fill, Admits;
    ghost var all, before := Left(src), Holding(dst);
    var total := 0;
    NothingCopied(all, before);
    while true
      invariant Apart(src, dst, scratch) && total >= 0 && Copied(all, total, Left(src), before, Holding(dst))
      decreases |all| - total
    {
      ghost var rest, now := Left(src), Holding(dst);
      var chunk := CopyChunk(src, dst, scratch);
      if chunk.Err? || chunk.value == 0 {
        CopyEnds(all, total, rest, chunk, Breaks(src), Left(src), before, now, Holding(dst));
        return if chunk.Err? then chunk else Ok(total);
      }
      ChunkCopied(all, total, rest, chunk.value, Breaks(src), Left(src), before, now, Holding(dst));
      total := total + chunk.value;
    }
  }

  /**
   Drains src into dst through scratch. However the reader cuts its stream and whatever the size of the scratch
   buffer: when every sink has room for all that is left, every sink receives exactly that, and the copy succeeds
   unless the reader fails behind it. Otherwise the copy fails, and every sink holds a beginning of it.
   */
  method Copy(src: Reader, dst: Writer, scratch: array<Byte>) returns (r: Result<nat, Code>)
    requires Apart(src, dst, scratch)
    modifies Origin(src), scratch, Repr(dst)
    ensures Apart(src, dst, scratch)
    ensures scratch.Length == 0 ==> r == Err(OutOfRange) && Holding(dst) == old(Holding(dst))
    ensures var all, room, before := old(Left(src)), old(Free(dst)), old(Received(dst));
            scratch.Length > 0 ==>
              if all == [] || room.None? || |all| <= room.value then
                && r == (if Breaks(src) then Err(ReadFailed) else Ok(|all|)) && Left(src) == []
                && Free(dst) == (if room.None? then None else Some(room.value - |all|))
                && |Received(dst)| == |before| && forall i :: 0 <= i < |before| ==> Received(dst)[i] == before[i] + all
              else
                && r.Err? && r.error != ReadFailed && (dst.ToHasher? ==> r.error == BadState)
                && |Received(dst)| == |before|
                && forall i :: 0 <= i < |before| ==> before[i] <= Received(dst)[i] <= before[i] + all
  {
    hide Repr, Ready, Received, Free, Readable, Left;
    if scratch.Length == 0 {
      return Err(OutOfRange);
    }
    r := CopyAll(src, dst, scratch);
  }

  /**
   Streams a reader into a hasher and takes the result: that of the whole stream, however the reader cuts it and
   however small the scratch buffer.
   */
  method HashStream(src: Reader, hasher: Hasher, scratch: array<Byte>) returns (r: Result<Bytes, Code>)
    requires Readable(src) && Sound(hasher)
    requires Origin(src) != scratch && Origin(src) !in State(hasher) && scratch !in State(hasher)
    modifies Origin(src), scratch, State(hasher)
    ensures Sound(hasher)
    ensures r == if scratch.Length == 0 then Err(OutOfRange)
                 else if old(Finalized(hasher) && Left(src) != []) then Err(BadState)
                 else if Breaks(src) then Err(ReadFailed)
                 else if old(Finalized(hasher)) then Err(BadState)
                 else Ok(HashBy(hasher, old(Fed(hasher) + Left(src))))
  {
    hide Sound, State, Finalized, Fed, HashBy, Readable, Left, AppendAll, Beginnings;
    var sink := ToHasher(hasher);
    ghost var fed, all := Fed(hasher), Left(src);
    var n := Copy(src, sink, scratch);
    if n.Err? {
      return Err(n.error);
    }
    assert Received(sink)[0] == fed + all;
    r := Finish(hasher);
  }
}
