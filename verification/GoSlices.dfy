/** Go slices that start at the head of their backing array: the array is shared and updated in place as
    long as its capacity suffices, and replaced by a larger one otherwise. */
module GoSlices {

  datatype Slice<T> = Slice(buf: array<T>, len: nat) {
    ghost predicate Valid() { len <= buf.Length }

    ghost function View(): (v: seq<T>)
      requires Valid()
      reads buf
    {
      buf[..len]
    }
  }

  /** `append(s[:keep], s[from:]...)`. */
  method AppendTail<T(0)>(s: Slice<T>, keep: nat, from: nat) returns (r: Slice<T>)
    requires s.Valid() && keep <= s.len && from <= s.len
    modifies s.buf
    ensures r.Valid() && r.View() == old(s.View())[..keep] + old(s.View())[from..]
    ensures r.len <= s.buf.Length ==> r.buf == s.buf && s.buf[r.len..] == old(s.buf[r.len..])
    ensures r.len > s.buf.Length ==> fresh(r.buf) && s.buf[..] == old(s.buf[..])
  {
    var tail := s.buf[from..s.len];
    var len := keep + |tail|;
    if len <= s.buf.Length {
      forall k | 0 <= k < |tail| { s.buf[keep + k] := tail[k]; }
      r := Slice(s.buf, len);
      assert s.buf[keep..len] == tail;
      assert s.buf[..len] == s.buf[..keep] + s.buf[keep..len];
    } else {
      var cap: nat :| cap >= len;
      var all := s.buf[..keep] + tail;
      var buf := new T[cap];
      forall k | 0 <= k < len { buf[k] := all[k]; }
      r := Slice(buf, len);
      assert buf[..len] == all;
    }
  }

  /** `append(s, x)`. */
  method AppendOne<T(0)>(s: Slice<T>, x: T) returns (r: Slice<T>)
    requires s.Valid()
    modifies s.buf
    ensures r.Valid() && r.View() == old(s.View()) + [x]
    ensures r.buf == s.buf || fresh(r.buf)
  {
    if s.len < s.buf.Length {
      s.buf[s.len] := x;
      r := Slice(s.buf, s.len + 1);
    } else {
      var cap: nat :| cap > s.len;
      var all := s.buf[..s.len] + [x];
      var buf := new T[cap];
      forall k | 0 <= k < |all| { buf[k] := all[k]; }
      r := Slice(buf, s.len + 1);
      assert buf[..s.len + 1] == all;
    }
  }
}
