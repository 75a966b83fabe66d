/**
 * The little-endian byte access that every binary format of the client uses, as done by
 * a JavaScript `DataView` over an `ArrayBuffer`: `getUint8/16/32` and `getBigInt64`
 * throw a RangeError when the field would run past the end of the buffer (modelled as
 * `None`), `setUint32` stores its argument modulo 2^32, and `ArrayBuffer.slice` clamps
 * its bounds to the buffer.
 */
module Bytes {
  import opened Wrappers

  type byte = b: int | 0 <= b < 256

  const U16Limit: int := 0x1_0000
  const U32Limit: int := 0x1_0000_0000
  const U64Limit: int := 0x1_0000_0000_0000_0000
  /** 2^63: the first unsigned 64-bit value that reads as negative. */
  const I64Half: int := 0x8000_0000_0000_0000

  function U8(data: seq<byte>, off: int): (r: Option<byte>)
    ensures r.Some? <==> 0 <= off < |data|
  {
    if 0 <= off < |data| then Some(data[off]) else None
  }

  /** The unsigned value of the n bytes from `off`, least significant first. */
  function ReadLE(data: seq<byte>, off: nat, n: nat): (r: nat)
    requires off + n <= |data|
    decreases n
  {
    if n == 0 then 0 else data[off] + 0x100 * ReadLE(data, off + 1, n - 1)
  }

  lemma ReadLE2(data: seq<byte>, off: nat)
    requires off + 2 <= |data|
    ensures ReadLE(data, off, 2) == (data[off] as int) + 0x100 * (data[off + 1] as int)
  {
    assert ReadLE(data, off + 1, 1) == data[off + 1] + 0x100 * ReadLE(data, off + 2, 0);
  }

  lemma ReadLE4(data: seq<byte>, off: nat)
    requires off + 4 <= |data|
    ensures ReadLE(data, off, 4) == (data[off] as int) + 0x100 * (data[off + 1] as int)
      + 0x1_0000 * (data[off + 2] as int) + 0x100_0000 * (data[off + 3] as int)
  {
    ReadLE2(data, off + 2);
    assert ReadLE(data, off + 1, 3) == data[off + 1] + 0x100 * ReadLE(data, off + 2, 2);
  }

  /** `getUint16(off, true)`. */
  function U16(data: seq<byte>, off: int): (r: Option<nat>)
    ensures r.Some? <==> 0 <= off && off + 2 <= |data|
    ensures r.Some? ==> r.value < U16Limit
  {
    if 0 <= off && off + 2 <= |data| then
      ReadLE2(data, off);
      Some(ReadLE(data, off, 2))
    else None
  }

  /** `getUint32(off, true)`. */
  function U32(data: seq<byte>, off: int): (r: Option<nat>)
    ensures r.Some? <==> 0 <= off && off + 4 <= |data|
    ensures r.Some? ==> r.value < U32Limit
  {
    if 0 <= off && off + 4 <= |data| then
      ReadLE4(data, off);
      Some(ReadLE(data, off, 4))
    else None
  }

  /** `getBigInt64(off, true)`: eight bytes read as a two's-complement signed integer. */
  function I64(data: seq<byte>, off: int): (r: Option<int>)
    ensures r.Some? <==> 0 <= off && off + 8 <= |data|
    ensures r.Some? ==> -I64Half <= r.value < I64Half
  {
    if 0 <= off && off + 8 <= |data| then
      var u: int := U32(data, off).value + U32Limit * U32(data, off + 4).value;
      Some(if u >= I64Half then u - U64Limit else u)
    else None
  }

  /** `data.slice(from, to)` of an ArrayBuffer, for the non-negative bounds the client uses. */
  function Slice(data: seq<byte>, from: nat, to: nat): (r: seq<byte>)
    ensures to <= |data| && from <= to ==> r == data[from..to]
    ensures |r| <= |data|
  {
    var a := if from <= |data| then from else |data|;
    var b := if to <= |data| then to else |data|;
    if a <= b then data[a..b] else []
  }

  // ---------------------------------------------------------------------------
  // The writing side, and the round trips

  /** What `setUint16(off, v, true)` stores: the low 16 bits of v, least significant byte first. */
  function LE16(v: nat): (s: seq<byte>)
    ensures |s| == 2
  {
    [v % 0x100, (v / 0x100) % 0x100]
  }

  /** What `setUint32(off, v, true)` stores: the low 32 bits of v, least significant byte first. */
  function LE32(v: nat): (s: seq<byte>)
    ensures |s| == 4
  {
    [v % 0x100, (v / 0x100) % 0x100, (v / 0x1_0000) % 0x100, (v / 0x100_0000) % 0x100]
  }

  /** What `setBigInt64(off, v, true)` stores: v modulo 2^64 (two's complement for a signed 64-bit v), least significant byte first. */
  function I64Bytes(v: int): (s: seq<byte>)
    ensures |s| == 8
  {
    var u: nat := v % U64Limit;
    LE32(u % U32Limit) + LE32(u / U32Limit)
  }

  lemma U16At(pre: seq<byte>, v: nat, post: seq<byte>)
    requires v < U16Limit
    ensures U16(pre + LE16(v) + post, |pre|) == Some(v)
  {
    var data := pre + LE16(v) + post;
    ReadLE2(data, |pre|);
    assert data[|pre|] == LE16(v)[0] && data[|pre| + 1] == LE16(v)[1];
  }

  /** The four bytes of a 32-bit value put it back together. */
  lemma LE32Value(v: nat)
    requires v < U32Limit
    ensures var s := LE32(v);
      (s[0] as int) + 0x100 * (s[1] as int) + 0x1_0000 * (s[2] as int) + 0x100_0000 * (s[3] as int) == v
  {
    var s := LE32(v);
    var q1 := v / 0x100;
    var q2 := q1 / 0x100;
    assert v == s[0] + 0x100 * q1;
    assert q1 == s[1] + 0x100 * q2;
    assert q2 == s[2] + 0x100 * (s[3] as int);
  }

  lemma U32At(pre: seq<byte>, v: nat, post: seq<byte>)
    requires v < U32Limit
    ensures U32(pre + LE32(v) + post, |pre|) == Some(v)
  {
    var data, s := pre + LE32(v) + post, LE32(v);
    ReadLE4(data, |pre|);
    assert data[|pre|] == s[0] && data[|pre| + 1] == s[1];
    assert data[|pre| + 2] == s[2] && data[|pre| + 3] == s[3];
    LE32Value(v);
  }

  /** Two's complement: the unsigned 64-bit pattern of v, split into its 32-bit halves, reads back as v. */
  lemma I64Value(v: int)
    requires -I64Half <= v < I64Half
    ensures var u := v % U64Limit;
      var w := u % U32Limit + U32Limit * (u / U32Limit);
      (if w >= I64Half then w - U64Limit else w) == v
  {
  }

  lemma I64At(pre: seq<byte>, v: int, post: seq<byte>)
    requires -I64Half <= v < I64Half
    ensures I64(pre + I64Bytes(v) + post, |pre|) == Some(v)
  {
    var u: nat := v % U64Limit;
    var lo, hi := u % U32Limit, u / U32Limit;
    var data := pre + I64Bytes(v) + post;
    assert data == pre + LE32(lo) + (LE32(hi) + post);
    U32At(pre, lo, LE32(hi) + post);
    assert data == (pre + LE32(lo)) + LE32(hi) + post;
    U32At(pre + LE32(lo), hi, post);
    I64Value(v);
  }

  lemma SliceAt(pre: seq<byte>, mid: seq<byte>, post: seq<byte>)
    ensures (pre + mid + post)[|pre|..|pre| + |mid|] == mid
    ensures Slice(pre + mid + post, |pre|, |pre| + |mid|) == mid
  {
    var data := pre + mid + post;
    assert data[|pre|..|pre| + |mid|] == mid by {
      forall i | 0 <= i < |mid| ensures data[|pre|..|pre| + |mid|][i] == mid[i] {
        assert data[|pre| + i] == mid[i];
      }
    }
  }

  // ---------------------------------------------------------------------------
  // Runs of records: the loops that read a counted list of records one after another

  /** What reading a run of records leaves: the records read, where reading stopped, and whether all were read. */
  datatype Run<T> = Run(items: seq<T>, offset: nat, complete: bool)

  /** Up to n records from `off`, each read by `read`, stopping at the first that cannot be read. */
  function ReadRun<T>(read: (seq<byte>, nat) -> Option<(T, nat)>, data: seq<byte>, off: nat, n: nat): (r: Run<T>)
    ensures |r.items| <= n
    ensures r.complete <==> |r.items| == n
    decreases n
  {
    if n == 0 then Run([], off, true)
    else
      match read(data, off)
      case None => Run([], off, false)
      case Some((x, next)) =>
        var rest := ReadRun(read, data, next, n - 1);
        Run([x] + rest.items, rest.offset, rest.complete)
  }

  /** Two runs read one after the other. */
  function Then<T>(p: Run<T>, q: Run<T>): Run<T>
  {
    Run(p.items + q.items, q.offset, q.complete)
  }

  /**
   * Reading i + k records is reading i, then k more from where the first i ended; a run
   * that stopped early stops the whole read.
   */
  lemma {:induction false} ReadRunSplit<T>(read: (seq<byte>, nat) -> Option<(T, nat)>, data: seq<byte>, off: nat, i: nat, k: nat)
    ensures ReadRun(read, data, off, i + k) ==
      var p := ReadRun(read, data, off, i);
      if p.complete then Then(p, ReadRun(read, data, p.offset, k)) else p
    decreases i
  {
    if i == 0 {
      assert [] + ReadRun(read, data, off, k).items == ReadRun(read, data, off, k).items;
    } else {
      match read(data, off)
      case None =>
      case Some((x, next)) =>
        ReadRunSplit(read, data, next, i - 1, k);
        assert i - 1 + k == i + k - 1;
        var p := ReadRun(read, data, next, i - 1);
        var q := ReadRun(read, data, p.offset, k);
        assert ([x] + p.items) + q.items == [x] + (p.items + q.items);
    }
  }

  /** One more record read at the end of a complete run extends it. */
  lemma ReadRunStep<T>(read: (seq<byte>, nat) -> Option<(T, nat)>, data: seq<byte>, off: nat, i: nat, x: T, next: nat)
    requires ReadRun(read, data, off, i).complete
    requires read(data, ReadRun(read, data, off, i).offset) == Some((x, next))
    ensures ReadRun(read, data, off, i + 1) == Run(ReadRun(read, data, off, i).items + [x], next, true)
  {
    ReadRunSplit(read, data, off, i, 1);
    assert ReadRun(read, data, next, 0).items == [];
  }

  /** A record that cannot be read at the end of a run ends every longer read there. */
  lemma ReadRunStop<T>(read: (seq<byte>, nat) -> Option<(T, nat)>, data: seq<byte>, off: nat, i: nat, n: nat)
    requires i < n && ReadRun(read, data, off, i).complete
    requires read(data, ReadRun(read, data, off, i).offset).None?
    ensures ReadRun(read, data, off, n) == Run(ReadRun(read, data, off, i).items, ReadRun(read, data, off, i).offset, false)
  {
    ReadRunSplit(read, data, off, i, n - i);
    assert ReadRun(read, data, off, i).items + [] == ReadRun(read, data, off, i).items;
  }

  /**
   * The loop step of a run reader: given what `read` makes of the record after the first
   * i, the run of i + 1 is one longer, or a run of any length n > i stops there.
   */
  lemma ReadRunNext<T>(read: (seq<byte>, nat) -> Option<(T, nat)>, data: seq<byte>, off: nat, i: nat, n: nat, r: Option<(T, nat)>)
    requires i < n && ReadRun(read, data, off, i).complete
    requires r == read(data, ReadRun(read, data, off, i).offset)
    ensures r.None? ==> ReadRun(read, data, off, n) == Run(ReadRun(read, data, off, i).items, ReadRun(read, data, off, i).offset, false)
    ensures r.Some? ==> ReadRun(read, data, off, i + 1) == Run(ReadRun(read, data, off, i).items + [r.value.0], r.value.1, true)
  {
    if r.None? {
      ReadRunStop(read, data, off, i, n);
    } else {
      ReadRunStep(read, data, off, i, r.value.0, r.value.1);
    }
  }

  /** Records written one after another. */
  function Concat<T>(write: T -> seq<byte>, xs: seq<T>): (s: seq<byte>)
  {
    if xs == [] then [] else write(xs[0]) + Concat(write, xs[1..])
  }

  /**
   * When `read` reads back every record `write` wrote, wherever it sits, reading a run of
   * them gives back the whole list and stops right after the last one.
   */
  lemma {:induction false} ReadRunConcat<T>(read: (seq<byte>, nat) -> Option<(T, nat)>, write: T -> seq<byte>,
                                            pre: seq<byte>, xs: seq<T>, post: seq<byte>)
    requires forall x, p: seq<byte>, q: seq<byte> :: x in xs ==> read(p + write(x) + q, |p|) == Some((x, |p| + |write(x)|))
    ensures ReadRun(read, pre + Concat(write, xs) + post, |pre|, |xs|) == Run(xs, |pre| + |Concat(write, xs)|, true)
    decreases |xs|
  {
    if xs != [] {
      var first, rest := write(xs[0]), Concat(write, xs[1..]);
      var data := pre + Concat(write, xs) + post;
      assert data == pre + first + (rest + post);
      assert read(pre + first + (rest + post), |pre|) == Some((xs[0], |pre| + |first|));
      assert data == (pre + first) + rest + post;
      ReadRunConcat(read, write, pre + first, xs[1..], post);
      assert [xs[0]] + xs[1..] == xs;
    }
  }

  // ---------------------------------------------------------------------------
  // Reads that stay inside a prefix of the buffer see the same bytes

  lemma {:induction false} ReadLEPrefix(data: seq<byte>, m: nat, off: nat, n: nat)
    requires off + n <= m <= |data|
    ensures ReadLE(data[..m], off, n) == ReadLE(data, off, n)
    decreases n
  {
    if n > 0 {
      ReadLEPrefix(data, m, off + 1, n - 1);
    }
  }

  lemma U16Prefix(data: seq<byte>, m: nat, off: nat)
    requires m <= |data|
    ensures off + 2 <= m ==> U16(data[..m], off) == U16(data, off)
    ensures off + 2 > m ==> U16(data[..m], off).None?
  {
    if off + 2 <= m {
      ReadLEPrefix(data, m, off, 2);
    }
  }

  lemma U32Prefix(data: seq<byte>, m: nat, off: nat)
    requires m <= |data|
    ensures off + 4 <= m ==> U32(data[..m], off) == U32(data, off)
    ensures off + 4 > m ==> U32(data[..m], off).None?
  {
    if off + 4 <= m {
      ReadLEPrefix(data, m, off, 4);
    }
  }

  lemma I64Prefix(data: seq<byte>, m: nat, off: nat)
    requires m <= |data|
    ensures off + 8 <= m ==> I64(data[..m], off) == I64(data, off)
    ensures off + 8 > m ==> I64(data[..m], off).None?
  {
    if off + 8 <= m {
      U32Prefix(data, m, off);
      U32Prefix(data, m, off + 4);
    }
  }

  lemma SlicePrefix(data: seq<byte>, m: nat, from: nat, to: nat)
    requires to <= m <= |data|
    ensures Slice(data[..m], from, to) == Slice(data, from, to)
  {
    if from <= to {
      assert data[..m][from..to] == data[from..to];
    }
  }

  /** A slice that runs past the end of a prefix is clamped to what the prefix holds. */
  lemma SliceCut(data: seq<byte>, m: nat, from: nat, to: nat)
    requires from <= m <= to <= |data|
    ensures Slice(data[..m], from, to) == data[from..to][..m - from]
  {
    assert data[..m][from..m] == data[from..to][..m - from];
  }

  /** How many of the records, written one after another, fit entirely in `room` bytes. */
  function Fitting<T>(write: T -> seq<byte>, xs: seq<T>, room: int): (k: nat)
    ensures k <= |xs|
  {
    if xs == [] || |write(xs[0])| > room then 0 else 1 + Fitting(write, xs[1..], room - |write(xs[0])|)
  }

  /**
   * When `read` reads back every complete record and fails on every record cut short,
   * reading a run from written records cut after `cut` bytes gives back exactly the
   * records that fit entirely before the cut.
   */
  lemma {:induction false} ReadRunConcatCut<T>(read: (seq<byte>, nat) -> Option<(T, nat)>, write: T -> seq<byte>,
                                               pre: seq<byte>, xs: seq<T>, cut: nat)
    requires cut <= |Concat(write, xs)|
    requires forall x, p: seq<byte>, q: seq<byte> :: x in xs ==> read(p + write(x) + q, |p|) == Some((x, |p| + |write(x)|))
    requires forall x, p: seq<byte>, k: nat :: x in xs && k < |write(x)| ==> read(p + write(x)[..k], |p|).None?
    ensures ReadRun(read, pre + Concat(write, xs)[..cut], |pre|, |xs|).items == xs[..Fitting(write, xs, cut)]
    decreases |xs|
  {
    if xs != [] {
      var first, rest := write(xs[0]), Concat(write, xs[1..]);
      var data := pre + Concat(write, xs)[..cut];
      if |first| > cut {
        assert Concat(write, xs)[..cut] == first[..cut];
        assert read(pre + first[..cut], |pre|).None?;
      } else {
        var c := cut - |first|;
        assert Concat(write, xs)[..cut] == first + rest[..c];
        assert data == pre + first + rest[..c];
        assert read(pre + first + rest[..c], |pre|) == Some((xs[0], |pre| + |first|));
        assert data == (pre + first) + rest[..c];
        ReadRunConcatCut(read, write, pre + first, xs[1..], c);
        assert xs[..Fitting(write, xs, cut)] == [xs[0]] + xs[1..][..Fitting(write, xs[1..], c)];
      }
    }
  }
}
