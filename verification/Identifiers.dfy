/** The identifier ranges of the streams of a load balancer (cmd/stateless-lb/identifier.go). Each stream owns
    `maxTargets` identifiers from its offset on. */
module Identifiers {
  import opened Addresses

  datatype Stream = Stream(name: string, maxTargets: nat)

  const MAX_INT: int := 0x7FFF_FFFF_FFFF_FFFF
  const MAX_UINT32: int := 0xFFFF_FFFF

  /** The result of a 64-bit signed operation. */
  function Int64(x: int): (r: int)
    ensures -MAX_INT - 1 <= r <= MAX_INT
    ensures -MAX_INT - 1 <= x <= MAX_INT ==> r == x
  {
    (x + MAX_INT + 1) % (2 * MAX_INT + 2) - MAX_INT - 1
  }

  /** The ranges [a, a + m) and [b, b + n) share an identifier. */
  predicate Overlap(a: int, m: nat, b: int, n: nat)
  {
    a < b + n && b < a + m
  }

  type Reserved = map<Stream, int>

  /** `offset` starts a range of `size` that keeps clear of every reserved range. */
  ghost predicate Free(r: Reserved, size: nat, offset: int)
  {
    forall s :: s in r ==> !Overlap(offset, size, r[s], s.maxTargets)
  }

  /** Names are unique, and reserved ranges are non-empty, disjoint, from `start` on, and end within an int. */
  ghost predicate Sound(r: Reserved, start: int)
  {
    && (forall s, t :: s in r && t in r && s.name == t.name ==> s == t)
    && (forall s :: s in r ==> 0 < s.maxTargets <= MAX_UINT32 && start <= r[s] && r[s] + s.maxTargets <= MAX_INT)
    && (forall s, t :: s in r && t in r && s != t ==> !Overlap(r[s], s.maxTargets, r[t], t.maxTargets))
  }

  ghost predicate HasName(r: Reserved, name: string)
  {
    exists s :: s in r && s.name == name
  }

  /** What Generate may answer for a stream that has no reservation yet. */
  ghost predicate FirstFit(r: Reserved, start: int, size: nat, res: Option<int>)
  {
    match res
    case Some(offset) =>
      && start <= offset && offset + size <= MAX_INT && Free(r, size, offset)
      && (forall x :: start <= x < offset ==> !Free(r, size, x))
    case None =>
      forall x :: start <= x && x + size <= MAX_INT ==> !Free(r, size, x)
  }

  /** Every offset up to the end of a range in the way is in its way as well. */
  lemma SkipRange(r: Reserved, size: nat, offset: int, s: Stream)
    requires s in r && Overlap(offset, size, r[s], s.maxTargets)
    ensures forall x :: offset <= x < r[s] + s.maxTargets ==> !Free(r, size, x)
  {
    forall x | offset <= x < r[s] + s.maxTargets ensures !Free(r, size, x) {
      assert Overlap(x, size, r[s], s.maxTargets);
    }
  }

  lemma FreeExtends(r: Reserved, start: int, s: Stream, offset: int)
    requires Sound(r, start) && s !in r && !HasName(r, s.name) && 0 < s.maxTargets <= MAX_UINT32
    requires start <= offset && offset + s.maxTargets <= MAX_INT && Free(r, s.maxTargets, offset)
    ensures Sound(r[s := offset], start)
  {
  }

  /** Some range of the stream's size is free, or one is reserved under its name. */
  ghost predicate Available(r: Reserved, start: int, s: Stream)
  {
    || HasName(r, s.name)
    || (0 < s.maxTargets && exists x :: start <= x && x + s.maxTargets <= MAX_INT && Free(r, s.maxTargets, x))
  }

  /** The plain search: offset by offset. */
  ghost function Scan(r: Reserved, size: nat, x: int): Option<int>
    decreases MAX_INT - x
  {
    if x + size > MAX_INT then None else if Free(r, size, x) then Some(x) else Scan(r, size, x + 1)
  }

  lemma {:induction false} ScanIsFirstFit(r: Reserved, start: int, size: nat, x: int)
    requires start <= x && forall y :: start <= y < x ==> !Free(r, size, y)
    ensures FirstFit(r, start, size, Scan(r, size, x))
    decreases MAX_INT - x
  {
    if x + size <= MAX_INT && !Free(r, size, x) {
      ScanIsFirstFit(r, start, size, x + 1);
    }
  }

  /** What Generate answers: the offset reserved under the name, or else what the plain search finds. */
  ghost function Answer(r: Reserved, start: int, s: Stream): Option<int>
  {
    if HasName(r, s.name) then (var t :| t in r && t.name == s.name; Some(r[t]))
    else if s.maxTargets == 0 then None
    else Scan(r, s.maxTargets, start)
  }

  ghost function AfterGenerate(r: Reserved, start: int, s: Stream): Reserved
  {
    var answer := Answer(r, start, s);
    if HasName(r, s.name) || answer.None? then r else r[s := answer.value]
  }

  lemma AnswerIsAvailable(r: Reserved, start: int, s: Stream)
    ensures Answer(r, start, s).Some? <==> Available(r, start, s)
    ensures !HasName(r, s.name) && 0 < s.maxTargets ==> FirstFit(r, start, s.maxTargets, Answer(r, start, s))
  {
    ScanIsFirstFit(r, start, s.maxTargets, start);
  }

  class IdentifierOffsetGenerator {
    const start: int
    var streams: Reserved

    constructor (start: int)
      requires -MAX_INT - 1 <= start <= MAX_INT
      ensures this.start == start && streams == map[] && Valid()
    {
      this.start := start;
      streams := map[];
    }

    ghost predicate Valid()
      reads this
    {
      -MAX_INT - 1 <= start <= MAX_INT && Sound(streams, start)
    }

    method Get(stream: Stream) returns (res: Option<int>)
      ensures res.Some? <==> HasName(streams, stream.name)
      ensures res.Some? ==> exists s :: s in streams && s.name == stream.name && streams[s] == res.value
    {
      var left := streams.Keys;
      while left != {}
        invariant left <= streams.Keys
        invariant forall s :: s in streams && s.name == stream.name ==> s in left
      {
        var s :| s in left;
        if stream.name == s.name {
          return Some(streams[s]);
        }
        left := left - {s};
      }
      res := None;
    }

    /** Looks through the reserved ranges, in any order, for one that is in the way of `offset`. */
    method FindOverlap(offset: int, stream: Stream) returns (res: Option<Stream>)
      requires Valid() && start <= offset && offset + stream.maxTargets <= MAX_INT && 0 < stream.maxTargets
      ensures res.None? <==> Free(streams, stream.maxTargets, offset)
      ensures res.Some? ==>
        res.value in streams && Overlap(offset, stream.maxTargets, streams[res.value], res.value.maxTargets)
    {
      var left := streams.Keys;
      while left != {}
        invariant left <= streams.Keys
        invariant forall s :: s in streams && s !in left ==>
          !Overlap(offset, stream.maxTargets, streams[s], s.maxTargets)
      {
        var s :| s in left;
        var sEnd := Int64(streams[s] + s.maxTargets - 1);
        var streamEnd := Int64(offset + stream.maxTargets - 1);
        if offset <= sEnd && streamEnd >= streams[s] {
          return Some(s);
        }
        left := left - {s};
      }
      res := None;
    }

    /** First fit; a stream whose name already has a reservation gets that one back. */
    method Generate(stream: Stream) returns (res: Option<int>)
      requires Valid() && stream.maxTargets <= MAX_UINT32
      modifies this`streams
      ensures Valid()
      ensures old(HasName(streams, stream.name)) ==> streams == old(streams) && res.Some?
      ensures old(HasName(streams, stream.name)) ==>
        exists s :: s in streams && s.name == stream.name && streams[s] == res.value
      ensures !old(HasName(streams, stream.name)) && 0 < stream.maxTargets ==>
        FirstFit(old(streams), start, stream.maxTargets, res)
      ensures !old(HasName(streams, stream.name)) && stream.maxTargets == 0 ==> res == None
      ensures !old(HasName(streams, stream.name)) ==>
        streams == if res.Some? then old(streams)[stream := res.value] else old(streams)
      ensures res == Answer(old(streams), start, stream) && streams == AfterGenerate(old(streams), start, stream)
    {
      res := Get(stream);
      if res.Some? {
        return;
      }
      AnswerIsAvailable(streams, start, stream);
      res := Search(stream);
      if stream.maxTargets > 0 {
        FirstFitUnique(streams, start, stream.maxTargets, res, Answer(streams, start, stream));
      }
      if res.Some? {
        FreeExtends(streams, start, stream, res.value);
        streams := streams[stream := res.value];
      }
    }

    /** The search restarts behind every range in the way. */
    method Search(stream: Stream) returns (res: Option<int>)
      requires Valid() && stream.maxTargets <= MAX_UINT32
      ensures 0 < stream.maxTargets ==> FirstFit(streams, start, stream.maxTargets, res)
      ensures stream.maxTargets == 0 ==> res == None
    {
      var offset := start;
      var guard := Int64(Int64(MAX_INT - stream.maxTargets) + 1);
      while true
        invariant start <= offset <= MAX_INT
        invariant stream.maxTargets > 0 ==> forall x :: start <= x < offset ==> !Free(streams, stream.maxTargets, x)
        decreases MAX_INT - offset
      {
        if offset >= guard {
          return None;
        }
        var inTheWay := FindOverlap(offset, stream);
        if inTheWay.None? {
          break;
        }
        SkipRange(streams, stream.maxTargets, offset, inTheWay.value);
        offset := Int64(streams[inTheWay.value] + inTheWay.value.maxTargets);
      }
      res := Some(offset);
    }

    /** Frees the range reserved under a name, if any. */
    method Release(name: string)
      requires Valid()
      modifies this`streams
      ensures Valid()
      ensures streams == map s | s in old(streams) && s.name != name :: old(streams)[s]
    {
      var left := streams.Keys;
      while left != {}
        invariant left <= streams.Keys && streams == old(streams)
        invariant forall s :: s in streams && s.name == name ==> s in left
      {
        var s :| s in left;
        if s.name == name {
          streams := streams - {s};
          return;
        }
        left := left - {s};
      }
    }
  }

  /** The answer is determined: it does not depend on the order in which the map is walked. */
  lemma FirstFitUnique(r: Reserved, start: int, size: nat, a: Option<int>, b: Option<int>)
    requires FirstFit(r, start, size, a) && FirstFit(r, start, size, b)
    ensures a == b
  {
  }

  /** A reservation is looked up by name only, so a stream that comes back with another size uses its old offset.
      It keeps clear of the other reservations if and only if it ends before the next one starts. */
  lemma ResizedKeepsClear(r: Reserved, start: int, s: Stream, size: nat)
    requires Sound(r, start) && s in r && 0 < size
    ensures (forall t :: t in r && t != s ==> !Overlap(r[s], size, r[t], t.maxTargets)) <==>
            (forall t :: t in r && r[s] < r[t] ==> r[s] + size <= r[t])
  {
    forall t | t in r && t != s
      ensures !Overlap(r[s], size, r[t], t.maxTargets) <==> (r[s] < r[t] ==> r[s] + size <= r[t])
    {
      assert !Overlap(r[s], s.maxTargets, r[t], t.maxTargets);
    }
  }

  /** Grown from 1 to 2, the first stream takes an identifier of the second. */
  lemma ResizedMayOverlap()
    ensures var first, second := Stream("a", 1), Stream("b", 1);
            var r: Reserved := map[first := 0, second := 1];
            Sound(r, 0) && Overlap(r[first], 2, r[second], second.maxTargets)
  {
    assert "a"[0] != "b"[0];
  }

  // ---------- how many reservations there is room for ----------

  /** Skipping a reservation in the way gets past it for good, by less than both sizes. */
  lemma Skipped(r: Reserved, size: nat, lo: int, hi: int, width: nat) returns (s: Stream, next: int)
    requires lo < hi && forall x :: lo <= x < hi ==> !Free(r, size, x)
    requires forall s :: s in r ==> s.maxTargets + size <= width + 1
    ensures s in r && |r - {s}| == |r| - 1 && next <= lo + width
    ensures forall x :: next <= x < hi ==> !Free(r - {s}, size, x)
  {
    assert !Free(r, size, lo);
    s :| s in r && Overlap(lo, size, r[s], s.maxTargets);
    next := r[s] + s.maxTargets;
    forall x | next <= x < hi ensures !Free(r - {s}, size, x) {
      assert !Free(r, size, x) && !Overlap(x, size, r[s], s.maxTargets);
    }
    assert (r - {s}).Keys == r.Keys - {s};
  }

  lemma OneMore(n: nat, width: nat)
    ensures 0 <= n * width && (n + 1) * width == n * width + width
  {
  }

  /** So offsets in a row that are not free are at most that many for each reservation. */
  lemma {:induction false} NotFreeAreFew(r: Reserved, size: nat, lo: int, hi: int, width: nat)
    requires forall x :: lo <= x < hi ==> !Free(r, size, x)
    requires forall s :: s in r ==> s.maxTargets + size <= width + 1
    ensures hi - lo <= |r| * width
    decreases |r|
  {
    if lo < hi {
      var s, next := Skipped(r, size, lo, hi, width);
      NotFreeAreFew(r - {s}, size, next, hi, width);
      OneMore(|r - {s}|, width);
    } else {
      OneMore(|r|, width);
    }
  }

  /** Generate fails only when the reservations could fill all of the space, with gaps just too small in between. */
  lemma FailsOnlyWhenFull(r: Reserved, start: int, s: Stream, width: nat)
    requires !Available(r, start, s) && 0 < s.maxTargets
    requires forall t :: t in r ==> t.maxTargets + s.maxTargets <= width + 1
    ensures MAX_INT - s.maxTargets + 1 - start <= |r| * width
  {
    NotFreeAreFew(r, s.maxTargets, start, MAX_INT - s.maxTargets + 1, width);
  }
}
