/** The fixed-capacity byte ring that every stage of the audio pipeline goes
    through (`CircularBuffer<T>`, used only with T = byte). Two cursors and a
    has-data flag; the logical contents are derived, never stored. */
module Buffers {
  import opened Bytes

  /** `k` reduced once modulo `c`: the only reduction the cursors ever need. */
  function Wrap(k: int, c: int): int {
    if k < c then k else k - c
  }

  /** How far slot `p` lies after slot `e`, going forward around a ring of `c` slots. */
  function Gap(p: int, e: int, c: int): int {
    if p >= e then p - e else p - e + c
  }

  /** The getter `CurrentLength` on plain cursor values: the forward distance
      from start to end, where meeting cursors mean full or empty by the flag. */
  function Measure(start: int, end: int, hasData: bool, c: int): int {
    if end > start then end - start
    else if end < start then end + c - start
    else if hasData then c else 0
  }

  /** What the cursors and the flag say about the length: the end lies that many
      slots after the start, an empty ring is exactly a cleared flag, and a full
      one is exactly a set flag with meeting cursors. */
  lemma MeasureFacts(start: int, end: int, hasData: bool, c: int)
    requires 0 <= start < c && 0 <= end < c && (!hasData ==> start == end)
    ensures var n := Measure(start, end, hasData, c);
            0 <= n <= c && Wrap(start + n, c) == end &&
            (n == 0 <==> !hasData) && (n == c <==> hasData && start == end)
  {
  }

  /** The source's `% Capacity` on a cursor sum below twice the capacity is
      one conditional subtraction, which is how the contracts state it. */
  lemma ModIsWrap(x: int, c: int)
    requires 0 < c && 0 <= x < 2 * c
    ensures x % c == Wrap(x, c)
  {
    if x >= c {
      assert x == c + (x - c);
    }
  }

  /** The `n` bytes of ring `b` starting at slot `s`, in logical order. */
  function View(b: seq<byte>, s: int, n: nat): (v: seq<byte>)
    requires 0 <= s < |b| && n <= |b|
    ensures |v| == n
  {
    seq(n, i requires 0 <= i < n => b[Wrap(s + i, |b|)])
  }

  lemma ViewAt(b: seq<byte>, s: int, n: nat)
    requires 0 <= s < |b| && n <= |b|
    ensures forall i :: 0 <= i < n ==> View(b, s, n)[i] == b[Wrap(s + i, |b|)]
  {
  }

  /** A sliding window of `c` bytes: what remains of `s` once everything but
      its newest `c` bytes has been overwritten. */
  function Window(s: seq<byte>, c: nat): seq<byte> {
    if |s| <= c then s else s[|s| - c..]
  }

  /** Appending to a window and re-windowing loses nothing the window would keep. */
  lemma {:induction false} WindowAppend(x: seq<byte>, y: seq<byte>, c: nat)
    ensures Window(Window(x, c) + y, c) == Window(x + y, c)
  {
    if |x| > c {
      var z, k := x + y, |x| - c;
      DropAppend(x, y, k);
      DropDrop(z, k, |y|);
      assert Window(x, c) + y == z[k..] && |z[k..]| == c + |y|;
    }
  }

  lemma DropAppend(x: seq<byte>, y: seq<byte>, k: nat)
    requires k <= |x|
    ensures x[k..] + y == (x + y)[k..]
  {
  }

  lemma DropDrop(s: seq<byte>, i: nat, j: nat)
    requires i + j <= |s|
    ensures s[i..][j..] == s[i + j..]
  {
  }

  /** Ring `b` after `d` has been stored slot by slot starting at slot `e`. */
  function RingWrite(b: seq<byte>, e: int, d: seq<byte>): (r: seq<byte>)
    requires 0 <= e < |b| && |d| <= |b|
    ensures |r| == |b|
  {
    seq(|b|, p requires 0 <= p < |b| => if Gap(p, e, |b|) < |d| then d[Gap(p, e, |b|)] else b[p])
  }

  lemma RingWriteAt(b: seq<byte>, e: int, d: seq<byte>)
    requires 0 <= e < |b| && |d| <= |b|
    ensures forall p :: 0 <= p < |b| ==> RingWrite(b, e, d)[p] == if Gap(p, e, |b|) < |d| then d[Gap(p, e, |b|)] else b[p]
  {
  }

  /** Slot arithmetic behind `CopyFromView`: logical index `i` of the new contents
      sits in a slot the write left alone when it names an old byte, and in the
      slot of `d[k - n]` otherwise. */
  lemma CopyFromSlot(c: int, s: int, n: nat, m: nat, i: nat)
    requires 0 <= s < c && n <= c && m <= c
    requires i < Min(n + m, c)
    ensures var off := if n + m >= c then n + m - c else 0;
            var k, e := off + i, Wrap(s + n, c);
            var q := Wrap(Wrap(s + off, c) + i, c);
            0 <= q < c &&
            (k < n ==> q == Wrap(s + k, c) && Gap(q, e, c) >= m) &&
            (k >= n ==> Gap(q, e, c) == k - n)
  {
  }

  /** `Array.Copy` into the ring as one run, or split at the end of the backing
      store, is `RingWrite`. */
  lemma RunsAreRingWrite(b: seq<byte>, e: int, d: seq<byte>)
    requires 0 <= e < |b| && |d| <= |b|
    ensures e + |d| <= |b| ==> Overlay(b, e, d) == RingWrite(b, e, d)
    ensures e + |d| > |b| ==> Overlay(Overlay(b, e, d[..|b| - e]), 0, d[|b| - e..]) == RingWrite(b, e, d)
  {
    var r := RingWrite(b, e, d);
    if e + |d| <= |b| {
      var o := Overlay(b, e, d);
      assert forall p :: 0 <= p < |b| ==> o[p] == r[p];
    } else {
      var o := Overlay(Overlay(b, e, d[..|b| - e]), 0, d[|b| - e..]);
      assert forall p :: 0 <= p < |b| ==> o[p] == r[p];
    }
  }

  /** One logical index of `CopyFromView`. */
  lemma CopyFromViewAt(b: seq<byte>, s: int, n: nat, d: seq<byte>, i: nat)
    requires 0 <= s < |b| && n <= |b| && |d| <= |b|
    requires i < Min(n + |d|, |b|)
    ensures var c := |b|;
            var off := if n + |d| >= c then n + |d| - c else 0;
            View(RingWrite(b, Wrap(s + n, c), d), Wrap(s + off, c), Min(n + |d|, c))[i] == (View(b, s, n) + d)[off + i]
  {
    CopyFromSlot(|b|, s, n, |d|, i);
  }

  /** The heart of `CopyFrom`: writing `d` after the `n` live bytes that start
      at `s` and advancing the start past any overflow leaves, in order, the
      newest `c` bytes of the old contents followed by `d`. */
  lemma CopyFromView(b: seq<byte>, s: int, n: nat, d: seq<byte>)
    requires 0 <= s < |b| && n <= |b| && |d| <= |b|
    ensures var c := |b|;
            var off := if n + |d| >= c then n + |d| - c else 0;
            var n' := Min(n + |d|, c);
            View(RingWrite(b, Wrap(s + n, c), d), Wrap(s + off, c), n') == Window(View(b, s, n) + d, c)
  {
    var c := |b|;
    var off := if n + |d| >= c then n + |d| - c else 0;
    var n' := Min(n + |d|, c);
    var lhs := View(RingWrite(b, Wrap(s + n, c), d), Wrap(s + off, c), n');
    var all := View(b, s, n) + d;
    assert Window(all, c) == all[off..];
    forall i | 0 <= i < n'
      ensures lhs[i] == all[off..][i]
    {
      CopyFromViewAt(b, s, n, d, i);
    }
  }

  /** The cursor half of `CopyFrom`: the new cursors measure exactly `Min(n + |d|, c)`
      live bytes, unless nothing at all was live afterwards. */
  lemma CopyFromCursors(c: int, s: int, n: nat, m: nat)
    requires 0 <= s < c && n <= c && m <= c
    ensures var off := if n + m >= c then n + m - c else 0;
            Measure(Wrap(s + off, c), Wrap(Wrap(s + n, c) + m, c), true, c) == if n + m == 0 then c else Min(n + m, c)
  {
  }

  /** `CopyFrom` on plain values: after writing `d` at the end cursor `e` of a
      ring `b` whose live bytes start at `s`, advancing the start past any
      overflow and setting the flag, the ring holds the newest `c` bytes of the
      old contents followed by `d` (the whole stale store when both were empty). */
  lemma CopyFromState(b: seq<byte>, s: int, e: int, h: bool, d: seq<byte>, off: int)
    requires 0 <= s < |b| && 0 <= e < |b| && (!h ==> s == e) && |d| <= |b|
    requires var n := Measure(s, e, h, |b|); off == if n + |d| >= |b| then n + |d| - |b| else 0
    ensures var c, n := |b|, Measure(s, e, h, |b|);
            var s', e' := Wrap(s + off, c), Wrap(e + |d|, c);
            var n' := Measure(s', e', true, c);
            n' == (if n + |d| == 0 then c else Min(n + |d|, c)) &&
            View(RingWrite(b, e, d), s', n') == if n + |d| == 0 then View(b, s, c) else Window(View(b, s, n) + d, c)
  {
    var c, n := |b|, Measure(s, e, h, |b|);
    MeasureFacts(s, e, h, c);
    CopyFromCursors(c, s, n, |d|);
    if n + |d| > 0 {
      CopyFromView(b, s, n, d);
    } else {
      RingWriteAt(b, e, d);
      assert RingWrite(b, e, d) == b;
    }
  }

  /** Dropping the first `k` live bytes is advancing the start by `k`. */
  lemma ViewDrop(b: seq<byte>, s: int, n: nat, k: nat)
    requires 0 <= s < |b| && k <= n <= |b|
    ensures View(b, Wrap(s + k, |b|), n - k) == View(b, s, n)[k..]
  {
    var c := |b|;
    var l, r := View(b, Wrap(s + k, c), n - k), View(b, s, n)[k..];
    forall i | 0 <= i < n - k
      ensures l[i] == r[i]
    {
      assert Wrap(Wrap(s + k, c) + i, c) == Wrap(s + (k + i), c);
    }
  }

  /** Advancing the start by `k` of the `n` live bytes leaves the end `n - k` bytes
      ahead, except that the cursors meet exactly when everything, or a whole
      full ring's worth of nothing, was taken. */
  lemma DropCursors(c: int, s: int, n: nat, k: nat)
    requires 0 <= s < c && k <= n <= c
    ensures var s', e := Wrap(s + k, c), Wrap(s + n, c);
            Measure(s', e, s' != e, c) == (if k == 0 && n == c then 0 else n - k) &&
            (s' == e <==> k == n || (k == 0 && n == c))
  {
  }

  /** `CopyTo` on plain values: advancing the start by `k` of the live bytes and
      clearing the flag exactly when the cursors meet leaves the rest of the
      old contents -- or nothing, for a zero-length read from a full ring. */
  lemma TakeState(b: seq<byte>, s: int, e: int, h: bool, k: nat)
    requires 0 <= s < |b| && 0 <= e < |b| && (!h ==> s == e) && k <= Measure(s, e, h, |b|)
    ensures var c, n := |b|, Measure(s, e, h, |b|);
            var s' := Wrap(s + k, c);
            var n' := Measure(s', e, s' != e, c);
            (s' == e <==> k == n || (k == 0 && n == c)) &&
            n' == (if k == 0 && n == c then 0 else n - k) &&
            View(b, s', n') == if k == 0 && n == c then [] else View(b, s, n)[k..]
  {
    var c, n := |b|, Measure(s, e, h, |b|);
    MeasureFacts(s, e, h, c);
    DropCursors(c, s, n, k);
    ViewDrop(b, s, n, k);
  }

  /** The live bytes as two contiguous runs of the backing store. */
  lemma ViewRuns(b: seq<byte>, s: int, n: nat)
    requires 0 <= s < |b| && n <= |b|
    ensures s + n <= |b| ==> View(b, s, n) == b[s..s + n]
    ensures s + n > |b| ==> View(b, s, n) == b[s..] + b[..s + n - |b|]
  {
    var v := View(b, s, n);
    ViewAt(b, s, n);
    if s + n <= |b| {
      assert forall i :: 0 <= i < n ==> v[i] == b[s..s + n][i];
    } else {
      var r := b[s..] + b[..s + n - |b|];
      assert forall i :: 0 <= i < n ==> v[i] == r[i];
    }
  }

  /** The two runs `CopyTo` copies when the live bytes wrap: up to the end of the
      backing store, then from its beginning, together the live bytes in order. */
  lemma TwoRunsView(dst: seq<byte>, at: nat, b: seq<byte>, s: int, n: nat)
    requires 0 <= s < |b| && n <= |b| && at + n <= |dst| && s + n >= |b|
    ensures var k := |b| - s;
            Overlay(Overlay(dst, at, b[s..s + k]), at + k, b[0..n - k]) == Overlay(dst, at, View(b, s, n))
  {
    var k := |b| - s;
    ViewRuns(b, s, n);
    assert b[s..s + k] == b[s..];
    if s + n == |b| {
      assert b[s..] == b[s..s + n];
      assert b[0..0] == [];
    } else {
      assert b[0..n - k] == b[..s + n - |b|];
    }
    OverlayAdjacent(dst, at, b[s..s + k], b[0..n - k]);
  }

  /** The split case of `CopyTo`: `Array.Copy` of the run from slot `s` to the
      end of the ring, then of the rest from its beginning. */
  method CopyWrapped(ring: array<byte>, s: nat, destination: array<byte>, offset: nat, length: nat)
    requires ring != destination
    requires s < ring.Length && length <= ring.Length && s + length >= ring.Length
    requires offset + length <= destination.Length
    modifies destination
    ensures ring[..] == old(ring[..])
    ensures destination[..] == Overlay(old(destination[..]), offset, View(ring[..], s, length))
  {
    ghost var b, dst := ring[..], destination[..];
    ghost var k := |b| - s;
    var newLength := ring.Length - s;
    var remainder := length - newLength;
    assert newLength == k && s + k == s + newLength && remainder == length - k;
    ArrayCopy(ring, s, destination, offset, newLength);
    ghost var d1 := destination[..];
    assert d1 == Overlay(dst, offset, b[s..s + k]);
    ArrayCopy(ring, 0, destination, offset + newLength, remainder);
    assert destination[..] == Overlay(d1, offset + k, b[0..length - k]);
    TwoRunsView(dst, offset, b, s, length);
  }

  class CircularBuffer {
    const backing: array<byte>
    var start: int
    var end: int
    var hasData: bool

    function Capacity(): nat {
      backing.Length
    }

    /** Cursors inside the backing store; a cleared flag only ever goes with
        meeting cursors (an empty ring). */
    ghost predicate Valid()
      reads this
    {
      0 < backing.Length && 0 <= start < backing.Length && 0 <= end < backing.Length &&
      (!hasData ==> start == end)
    }

    /** The getter `CurrentLength`, derived from the cursors and the flag. */
    function CurrentLength(): (n: int)
      reads this
      ensures Valid() ==> 0 <= n <= Capacity()
    {
      Measure(start, end, hasData, Capacity())
    }

    /** The logical contents, oldest byte first. */
    ghost function Contents(): (s: seq<byte>)
      reads this, backing
      requires Valid()
      ensures |s| == CurrentLength()
    {
      View(backing[..], start, CurrentLength())
    }

    /** The contents `CopyFrom(data)` leaves: the newest `Capacity()` bytes of the
        old contents followed by `data` -- except that a zero-length copy into an
        empty ring sets the flag anyway, so the whole stale backing store
        becomes live. */
    ghost function AfterCopyFrom(data: seq<byte>): seq<byte>
      reads this, backing
      requires Valid() && |data| <= Capacity()
    {
      if CurrentLength() + |data| == 0 then View(backing[..], start, Capacity())
      else Window(Contents() + data, Capacity())
    }

    constructor (size: nat)
      requires size > 0
      ensures Valid() && fresh(backing) && Capacity() == size
      ensures start == 0 && end == 0 && !hasData
      ensures backing[..] == Zeros(size) && Contents() == []
    {
      backing := new byte[size](_ => 0);
      start, end, hasData := 0, 0, false;
    }

    method CopyFrom(arr: array<byte>, length: nat)
      requires Valid() && arr != backing
      requires length <= arr.Length && length <= Capacity()
      modifies this, backing
      ensures Valid() && hasData
      ensures Contents() == old(AfterCopyFrom(arr[..length]))
      ensures CurrentLength() == if old(CurrentLength()) + length == 0 then Capacity()
                                 else Min(old(CurrentLength()) + length, Capacity())
      ensures end == Wrap(old(end) + length, Capacity())
      ensures start == Wrap(old(start) + if old(CurrentLength()) + length >= Capacity()
                                         then old(CurrentLength()) + length - Capacity() else 0, Capacity())
    {
      ghost var b, s, e, h, d := backing[..], start, end, hasData, arr[..length];
      ghost var c, n := Capacity(), CurrentLength();
      ghost var target := AfterCopyFrom(d);
      assert target == if n + |d| == 0 then View(b, s, c) else Window(View(b, s, n) + d, c);
      var startOffset := 0;
      if CurrentLength() + length >= Capacity() {
        startOffset := CurrentLength() + length - Capacity();
      }
      StoreRuns(arr, length);
      ModIsWrap(start + startOffset, Capacity());
      start := (start + startOffset) % Capacity();
      hasData := true;
      CopyFromState(b, s, e, h, d, startOffset);
      assert backing[..] == RingWrite(b, e, d);
      assert Contents() == target;
    }

    /** The writing half of `CopyFrom`: `arr[..length]` goes in after the end
        cursor, in one `Array.Copy` run or two split at the end of the backing
        store, and the end cursor advances past it. */
    method StoreRuns(arr: array<byte>, length: nat)
      requires Valid() && arr != backing
      requires length <= arr.Length && length <= Capacity()
      modifies this`end, backing
      ensures end == Wrap(old(end) + length, Capacity())
      ensures backing[..] == RingWrite(old(backing[..]), old(end), arr[..length])
    {
      ghost var b, e, a := backing[..], end, arr[..];
      ghost var d := a[..length];
      RunsAreRingWrite(b, e, d);
      if end + length > Capacity() {
        var newLength := Capacity() - end;
        var remainder := length - newLength;
        ArrayCopy(arr, 0, backing, end, newLength);
        ghost var b1 := backing[..];
        assert a[0..newLength] == d[..newLength];
        ArrayCopy(arr, newLength, backing, 0, remainder);
        assert a[newLength..newLength + remainder] == d[newLength..];
        end := remainder;
      } else {
        ArrayCopy(arr, 0, backing, end, length);
        assert a[0..length] == d;
        ModIsWrap(end + length, Capacity());
        end := (end + length) % Capacity();
      }
    }

    /** The copying half shared by both `CopyTo` overloads: the oldest `length`
        live bytes go to `destination[offset..]`, in one `Array.Copy` run or two
        split at the end of the backing store, and the start advances past them.
        The overloads differ only in whether a run ending exactly at the end of
        the backing store is split (`splitAtEnd`, giving an empty second run). */
    method TakeLive(destination: array<byte>, offset: nat, length: nat, splitAtEnd: bool)
      requires Valid() && destination != backing
      requires length <= CurrentLength() && offset + length <= destination.Length
      modifies this`start, destination
      ensures backing[..] == old(backing[..])
      ensures start == Wrap(old(start) + length, Capacity())
      ensures destination[..] == Overlay(old(destination[..]), offset, View(old(backing[..]), old(start), length))
    {
      ghost var b, s, dst := backing[..], start, destination[..];
      if start + length > Capacity() || (splitAtEnd && start + length == Capacity()) {
        var newLength := Capacity() - start;
        var remainder := length - newLength;
        CopyWrapped(backing, start, destination, offset, length);
        start := remainder;
      } else if length > 0 {
        ArrayCopy(backing, start, destination, offset, length);
        ViewRuns(b, s, length);
        ModIsWrap(start + length, Capacity());
        start := (start + length) % Capacity();
      } else {
        assert Overlay(dst, offset, View(b, s, length)) == dst;
      }
    }

    /** `CopyTo(destination, offset, length)`: move the oldest `length` bytes to
        `destination[offset..]`, zero-filling whatever the ring cannot supply. */
    method CopyToOffset(destination: array<byte>, offset: nat, length: nat)
      requires Valid() && destination != backing
      requires offset + length <= destination.Length
      modifies this, destination
      ensures Valid() && end == old(end)
      ensures var taken := Min(length, old(CurrentLength()));
              destination[..] == Overlay(old(destination[..]), offset, old(Contents())[..taken] + Zeros(length - taken))
      ensures start == Wrap(old(start) + Min(length, old(CurrentLength())), Capacity())
      ensures Contents() == if length == 0 && old(CurrentLength()) == Capacity() then []
                            else old(Contents())[Min(length, old(CurrentLength()))..]
      ensures length > old(CurrentLength()) ==> start == end && !hasData
    {
      ghost var b, s, h, n, dst := backing[..], start, hasData, CurrentLength(), destination[..];
      MeasureFacts(s, end, h, Capacity());
      var length := length;
      var zeroFill := 0;
      if length > CurrentLength() {
        zeroFill := length - CurrentLength();
        length := length - zeroFill;
      }
      TakeLive(destination, offset, length, false);
      ghost var v := View(b, s, length);
      ghost var d1 := destination[..];
      assert d1 == Overlay(dst, offset, v);
      if zeroFill > 0 {
        hasData := false;
        ArrayFillZero(destination, length + offset, zeroFill);
        assert destination[..] == Overlay(d1, offset + length, Zeros(zeroFill));
        OverlayAdjacent(dst, offset, v, Zeros(zeroFill));
      } else {
        assert v + Zeros(zeroFill) == v;
        if start == end {
          hasData := false;
        }
      }
      assert v == View(b, s, n)[..length];
      TakeState(b, s, end, h, length);
      assert hasData == (start != end);
    }

    /** `CopyTo(destination, length)`: the same transfer into `destination[0..]`;
        its split test reads `>=` where the other overload reads `>`, which
        changes nothing observable. */
    method CopyTo(destination: array<byte>, length: nat)
      requires Valid() && destination != backing
      requires length <= destination.Length
      modifies this, destination
      ensures Valid() && end == old(end)
      ensures var taken := Min(length, old(CurrentLength()));
              destination[..] == Overlay(old(destination[..]), 0, old(Contents())[..taken] + Zeros(length - taken))
      ensures start == Wrap(old(start) + Min(length, old(CurrentLength())), Capacity())
      ensures Contents() == if length == 0 && old(CurrentLength()) == Capacity() then []
                            else old(Contents())[Min(length, old(CurrentLength()))..]
      ensures length > old(CurrentLength()) ==> start == end && !hasData
    {
      ghost var b, s, h, n, dst := backing[..], start, hasData, CurrentLength(), destination[..];
      MeasureFacts(s, end, h, Capacity());
      var length := length;
      var zeroFill := 0;
      if length > CurrentLength() {
        zeroFill := length - CurrentLength();
        length := length - zeroFill;
      }
      TakeLive(destination, 0, length, true);
      ghost var v := View(b, s, length);
      ghost var d1 := destination[..];
      assert d1 == Overlay(dst, 0, v);
      if zeroFill > 0 {
        hasData := false;
        ArrayFillZero(destination, length, zeroFill);
        assert destination[..] == Overlay(d1, 0 + length, Zeros(zeroFill));
        OverlayAdjacent(dst, 0, v, Zeros(zeroFill));
      } else {
        assert v + Zeros(zeroFill) == v;
        if start == end {
          hasData := false;
        }
      }
      assert v == View(b, s, n)[..length];
      TakeState(b, s, end, h, length);
      assert hasData == (start != end);
    }
  }
}
