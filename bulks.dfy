/** The batching generator `bulks(size, gen, filter_cb, map_cb)`: it reads the
    items of `gen`, drops those `filter_cb` rejects, passes the others through
    `map_cb`, and yields them in arrays of `size` items, followed by one shorter
    array with whatever is left over, if anything is.

    The asynchronous input is a finite sequence and the output is the complete
    sequence of yielded arrays. */
module Batching {
  import opened Sequences

  datatype Option<T> = None | Some(value: T)

  /** The filter callback in effect: the given one, or one that accepts every item. */
  function KeepOf<T(!new)>(filterCb: Option<T -> bool>): (keep: T -> bool)
    ensures filterCb.Some? ==> keep == filterCb.value
    ensures filterCb.None? ==> forall x :: keep(x)
  {
    match filterCb
    case Some(keep) => keep
    case None => (x: T) => true
  }

  /** The map callback in effect: the given one, or the identity. */
  function MapOf<T(!new)>(mapCb: Option<T -> T>): (f: T -> T)
    ensures mapCb.Some? ==> f == mapCb.value
    ensures mapCb.None? ==> forall x :: f(x) == x
  {
    match mapCb
    case Some(f) => f
    case None => (x: T) => x
  }

  /** The length at which a bulk is flushed. The flush test `length >= size`
      holds after every push when `size` is 1 or less, so such sizes act as 1. */
  function Width(size: int): (n: nat)
    ensures n >= 1
    ensures size >= 1 ==> n == size
  {
    if size < 1 then 1 else size
  }

  /** `s` cut into consecutive bulks of `n` items; the last holds the rest. */
  function Chunk<U>(s: seq<U>, n: nat): seq<seq<U>>
    requires n >= 1
    decreases |s|
  {
    if s == [] then []
    else if |s| <= n then [s]
    else [s[..n]] + Chunk(s[n..], n)
  }

  /** Cutting loses and reorders nothing, and gives non-empty bulks of at
      most `n` items, every one but the last full. */
  lemma {:induction false} ChunkShape<U>(s: seq<U>, n: nat)
    requires n >= 1
    ensures Flatten(Chunk(s, n)) == s
    ensures forall i :: 0 <= i < |Chunk(s, n)| ==> 0 < |Chunk(s, n)[i]| <= n
    ensures forall i :: 0 <= i < |Chunk(s, n)| - 1 ==> |Chunk(s, n)[i]| == n
    decreases |s|
  {
    if s != [] && |s| > n {
      var r, rest := Chunk(s, n), Chunk(s[n..], n);
      ChunkShape(s[n..], n);
      assert r == [s[..n]] + rest;
      assert r[1..] == rest;
      assert s == s[..n] + s[n..];
      forall i | 0 <= i < |r|
        ensures 0 < |r[i]| <= n && (i < |r| - 1 ==> |r[i]| == n)
      {
        if i > 0 {
          assert r[i] == rest[i - 1];
        }
      }
    } else if s != [] {
      assert Flatten([s]) == s + Flatten([]);
    }
  }

  /** What `bulks` yields for input `gen` with the callbacks `keep` and `f` in
      effect: concatenated, the bulks are the kept items passed through `f`, in
      input order; none is empty, none is longer than the flush length, and
      every one but the last has exactly that length. */
  function Batches<T, U>(size: int, gen: seq<T>, keep: T -> bool, f: T -> U): (bs: seq<seq<U>>)
    ensures Flatten(bs) == Map(Filter(gen, keep), f)
    ensures forall i :: 0 <= i < |bs| ==> 0 < |bs[i]| <= Width(size)
    ensures forall i :: 0 <= i < |bs| - 1 ==> |bs[i]| == Width(size)
  {
    ChunkShape(Map(Filter(gen, keep), f), Width(size));
    Chunk(Map(Filter(gen, keep), f), Width(size))
  }

  /** Chunk is the only way to cut `s` into non-empty bulks of at most `n`
      items in which every bulk but the last is full. */
  lemma {:induction false} ChunkUnique<U>(bs: seq<seq<U>>, s: seq<U>, n: nat)
    requires n >= 1
    requires Flatten(bs) == s
    requires forall i :: 0 <= i < |bs| ==> 0 < |bs[i]| <= n
    requires forall i :: 0 <= i < |bs| - 1 ==> |bs[i]| == n
    ensures bs == Chunk(s, n)
  {
    if bs == [] {
    } else if |bs| == 1 {
      assert Flatten(bs[1..]) == [];
      assert s == bs[0];
    } else {
      var rest := bs[1..];
      assert |rest[0]| > 0;
      assert Flatten(rest) == rest[0] + Flatten(rest[1..]);
      assert s == bs[0] + Flatten(rest);
      assert |bs[0]| == n;
      assert s[..n] == bs[0];
      assert s[n..] == Flatten(rest);
      ChunkUnique(rest, s[n..], n);
    }
  }

  /** The number of bulks is the ceiling of |s| / n: none for an empty sequence. */
  lemma {:induction false} ChunkCount<U>(s: seq<U>, n: nat)
    requires n >= 1
    ensures |Chunk(s, n)| == (|s| + n - 1) / n
    decreases |s|
  {
    if s == [] {
      DivModUnique(0, n - 1, n);
    } else if |s| <= n {
      DivModUnique(1, |s| - 1, n);
    } else {
      var rest := s[n..];
      assert Chunk(s, n) == [s[..n]] + Chunk(rest, n);
      ChunkCount(rest, n);
      assert |rest| + n - 1 == (|s| + n - 1) - n;
      DivModShift(|s| + n - 1, n);
    }
  }

  lemma {:induction false} MulAtLeast(k: nat, n: nat)
    requires k >= 1
    ensures k * n >= n
  {
    if k > 1 {
      MulAtLeast(k - 1, n);
      assert k * n == (k - 1) * n + n;
    }
  }

  /** Quotient and remainder are unique. */
  lemma DivModUnique(q: int, r: int, n: int)
    requires n >= 1 && 0 <= r < n
    ensures (q * n + r) / n == q && (q * n + r) % n == r
  {
    var a := q * n + r;
    var d, m := a / n, a % n;
    assert a == d * n + m;
    assert (d - q) * n == r - m by {
      assert d * n - q * n == (d - q) * n;
    }
    if d > q {
      MulAtLeast(d - q, n);
    } else if d < q {
      MulAtLeast(q - d, n);
    }
  }

  lemma DivModShift(a: int, n: int)
    requires n >= 1 && a >= n
    ensures a / n == 1 + (a - n) / n && a % n == (a - n) % n
  {
    var q, r := (a - n) / n, (a - n) % n;
    assert a == (q + 1) * n + r;
    DivModUnique(q + 1, r, n);
  }

  /** The last bulk is full exactly when n divides |s|; otherwise it holds the
      remainder, which is fewer than n items. */
  lemma {:induction false} ChunkLast<U>(s: seq<U>, n: nat)
    requires n >= 1 && s != []
    ensures |Chunk(s, n)| > 0
    ensures |Chunk(s, n)[|Chunk(s, n)| - 1]| == if |s| % n == 0 then n else |s| % n
    decreases |s|
  {
    if |s| <= n {
      if |s| < n { DivModUnique(0, |s|, n); } else { DivModUnique(1, 0, n); }
    } else {
      ChunkLast(s[n..], n);
      var r := Chunk(s, n);
      var t := Chunk(s[n..], n);
      assert r == [s[..n]] + t;
      assert r[|r| - 1] == t[|t| - 1];
      DivModShift(|s|, n);
    }
  }

  /** With width 1 every item is a bulk of its own. */
  lemma {:induction false} ChunkSingletons<U>(s: seq<U>)
    ensures |Chunk(s, 1)| == |s|
    ensures forall i :: 0 <= i < |s| ==> Chunk(s, 1)[i] == [s[i]]
    decreases |s|
  {
    if s != [] {
      ChunkSingletons(s[1..]);
    }
  }

  /** When the first part fills a whole number of bulks, cutting the
      concatenation cuts each part separately: bulks never straddle it. */
  lemma ChunkConcat<U>(s: seq<U>, t: seq<U>, n: nat)
    requires n >= 1 && |s| % n == 0
    ensures Chunk(s + t, n) == Chunk(s, n) + Chunk(t, n)
  {
    if s != [] {
      ChunkLast(s, n);
    }
    ChunkConcatFull(s, t, n);
  }

  lemma {:induction false} ChunkConcatFull<U>(s: seq<U>, t: seq<U>, n: nat)
    requires n >= 1
    requires s != [] ==> |Chunk(s, n)[|Chunk(s, n)| - 1]| == n
    ensures Chunk(s + t, n) == Chunk(s, n) + Chunk(t, n)
    decreases |s|
  {
    if s == [] {
      assert s + t == t;
    } else if |s| <= n {
      ChunkFirst(s, t, n);
    } else {
      var tail := s[n..];
      ChunkHead(s, n);
      LastOfCons(s[..n], Chunk(tail, n));
      ChunkConcatFull(tail, t, n);
      ChunkConcatStep(s, t, n);
    }
  }

  /** One step of the induction: the first full bulk of `s` is also the first
      bulk of `s + t`. */
  lemma ChunkConcatStep<U>(s: seq<U>, t: seq<U>, n: nat)
    requires n >= 1 && |s| > n
    requires Chunk(s[n..] + t, n) == Chunk(s[n..], n) + Chunk(t, n)
    ensures Chunk(s + t, n) == Chunk(s, n) + Chunk(t, n)
  {
    ChunkHead(s, n);
    ChunkHead(s + t, n);
    assert (s + t)[..n] == s[..n];
    assert (s + t)[n..] == s[n..] + t;
  }

  lemma LastOfCons<U>(b: seq<U>, bs: seq<seq<U>>)
    requires bs != []
    ensures ([b] + bs)[|bs|] == bs[|bs| - 1]
  {
  }

  /** A sequence longer than `n` is cut into its first `n` items and the cut of the rest. */
  lemma ChunkHead<U>(u: seq<U>, n: nat)
    requires n >= 1 && |u| > n
    ensures Chunk(u, n) == [u[..n]] + Chunk(u[n..], n)
  {
  }

  /** A full first bulk stays a bulk of its own whatever follows it. */
  lemma ChunkFirst<U>(s: seq<U>, t: seq<U>, n: nat)
    requires n >= 1 && 0 < |s| <= n && |Chunk(s, n)[|Chunk(s, n)| - 1]| == n
    ensures Chunk(s + t, n) == Chunk(s, n) + Chunk(t, n)
  {
    assert Chunk(s, n) == [s];
    if t == [] {
      assert s + t == s;
    } else {
      ChunkHead(s + t, n);
      assert (s + t)[..n] == s;
      assert (s + t)[n..] == t;
    }
  }

  // ----- Properties of what `bulks` yields -----

  /** No yielded bulk is empty; each holds at most `size` items when `size` is
      at least 1, and every one before the last holds exactly `size`. */
  lemma BatchesShape<T, U>(size: int, gen: seq<T>, keep: T -> bool, f: T -> U)
    requires size >= 1
    ensures forall b :: b in Batches(size, gen, keep, f) ==> 0 < |b| <= size
    ensures var bs := Batches(size, gen, keep, f);
      forall i :: 0 <= i < |bs| - 1 ==> |bs[i]| == size
  {
  }

  /** With k kept items, `bulks` yields ceil(k / size) bulks, so nothing at all
      when no item is kept. */
  lemma BatchesCount<T, U>(size: int, gen: seq<T>, keep: T -> bool, f: T -> U)
    requires size >= 1
    ensures |Batches(size, gen, keep, f)| == (|Filter(gen, keep)| + size - 1) / size
    ensures |Batches(size, gen, keep, f)| == 0 <==> Filter(gen, keep) == []
  {
    ChunkCount(Map(Filter(gen, keep), f), size);
  }

  /** The bulk left over after the loop is yielded only when non-empty, and
      then it holds the k % size items that did not fill a whole bulk. */
  lemma BatchesTrailing<T, U>(size: int, gen: seq<T>, keep: T -> bool, f: T -> U)
    requires size >= 1
    requires Filter(gen, keep) != []
    ensures var bs := Batches(size, gen, keep, f);
      var k := |Filter(gen, keep)|;
      |bs| > 0 && |bs[|bs| - 1]| == if k % size == 0 then size else k % size
  {
    ChunkLast(Map(Filter(gen, keep), f), size);
  }

  /** With `size` 1 or less, each kept item is yielded as a bulk of its own. */
  lemma BatchesSingletons<T, U>(size: int, gen: seq<T>, keep: T -> bool, f: T -> U)
    requires size <= 1
    ensures var bs := Batches(size, gen, keep, f);
      var kept := Filter(gen, keep);
      |bs| == |kept| && forall i :: 0 <= i < |kept| ==> bs[i] == [f(kept[i])]
  {
    ChunkSingletons(Map(Filter(gen, keep), f));
  }

  /** An item the filter rejects changes nothing in the output, wherever it stands. */
  lemma BatchesIgnoreRejected<T, U>(size: int, a: seq<T>, x: T, b: seq<T>, keep: T -> bool, f: T -> U)
    requires !keep(x)
    ensures Batches(size, a + [x] + b, keep, f) == Batches(size, a + b, keep, f)
  {
    FilterSkipsRejected(a, x, b, keep);
  }

  /** The map callback is consulted only on kept items: two callbacks that
      agree on those give the same output. */
  lemma BatchesMapOnlyKept<T, U>(size: int, gen: seq<T>, keep: T -> bool, f: T -> U, g: T -> U)
    requires forall x :: x in gen && keep(x) ==> f(x) == g(x)
    ensures Batches(size, gen, keep, f) == Batches(size, gen, keep, g)
  {
    MapAgree(Filter(gen, keep), f, g);
  }

  /** Without callbacks, the bulks concatenated give back the input itself. */
  lemma BatchesDefaults<T(!new)>(size: int, gen: seq<T>)
    ensures Flatten(Batches(size, gen, KeepOf<T>(None), MapOf<T>(None))) == gen
  {
    FilterAll(gen, KeepOf<T>(None));
    assert Map(gen, MapOf<T>(None)) == gen;
  }

  /** Once the kept items so far fill whole bulks, the rest of the input is
      batched independently: the output of a prefix is a prefix of the output. */
  lemma BatchesConcat<T, U>(size: int, a: seq<T>, b: seq<T>, keep: T -> bool, f: T -> U)
    requires |Filter(a, keep)| % Width(size) == 0
    ensures Batches(size, a + b, keep, f) == Batches(size, a, keep, f) + Batches(size, b, keep, f)
  {
    FilterConcat(a, b, keep);
    MapConcat(Filter(a, keep), Filter(b, keep), f);
    ChunkConcat(Map(Filter(a, keep), f), Map(Filter(b, keep), f), Width(size));
  }

  // ----- What has been yielded part-way through -----

  /** The bulks of `bs` that have already been yielded: all of them except a
      last one shorter than `n`, which is still the working bulk. */
  function Flushed<U>(bs: seq<seq<U>>, n: nat): (r: seq<seq<U>>)
    ensures r <= bs && |bs| - 1 <= |r|
    ensures forall i :: 0 <= i < |r| && i == |bs| - 1 ==> |r[i]| >= n
  {
    if bs != [] && |bs[|bs| - 1]| < n then bs[..|bs| - 1] else bs
  }

  /** The number of items in the full bulks of `len` items cut by `n`:
      a multiple of `n`, short of `len` by fewer than `n`. */
  function WholeLength(len: nat, n: nat): (m: nat)
    requires n >= 1
    ensures m <= len && m % n == 0 && len - m < n
  {
    DivModUnique(len / n, 0, n);
    len - len % n
  }

  /** The flushed bulks of a cut are the cut of the longest prefix whose
      length is a multiple of `n`. */
  lemma ChunkFlushed<U>(s: seq<U>, n: nat)
    requires n >= 1
    ensures Flushed(Chunk(s, n), n) == Chunk(s[..WholeLength(|s|, n)], n)
  {
    var m := WholeLength(|s|, n);
    assert s == s[..m] + s[m..];
    ChunkFlushedSplit(s[..m], s[m..], n);
  }

  lemma ChunkFlushedSplit<U>(whole: seq<U>, rest: seq<U>, n: nat)
    requires n >= 1 && |whole| % n == 0 && |rest| < n
    ensures Flushed(Chunk(whole + rest, n), n) == Chunk(whole, n)
  {
    ChunkConcat(whole, rest, n);
    var cw := Chunk(whole, n);
    if rest == [] {
      assert Chunk(rest, n) == [];
      assert cw + [] == cw;
      if whole != [] {
        ChunkLast(whole, n);
      }
    } else {
      assert Chunk(rest, n) == [rest];
      assert (cw + [rest])[..|cw|] == cw;
    }
  }

  /** A bulk, once yielded, is never taken back: the flushed bulks of a cut
      of `s` begin the cut of any extension of `s`. */
  lemma ChunkFlushedPrefix<U>(s: seq<U>, t: seq<U>, n: nat)
    requires n >= 1
    ensures Flushed(Chunk(s, n), n) <= Chunk(s + t, n)
  {
    var m := WholeLength(|s|, n);
    ChunkFlushed(s, n);
    assert s + t == s[..m] + (s[m..] + t);
    ChunkConcat(s[..m], s[m..] + t, n);
  }

  /** If `bulks` stops after reading `gen[..i]` (a callback throws, or the
      input generator fails), the consumer has received the full bulks of the
      kept items read so far. They begin the output the whole input would have
      produced, and the up to `size - 1` kept items of the working bulk are
      never yielded. */
  lemma BatchesStopped<T, U>(size: int, gen: seq<T>, i: nat, keep: T -> bool, f: T -> U)
    requires i <= |gen|
    ensures var done := Map(Filter(gen[..i], keep), f);
      var y := Flushed(Batches(size, gen[..i], keep, f), Width(size));
      y <= Batches(size, gen, keep, f)
      && Flatten(y) == done[..WholeLength(|done|, Width(size))]
  {
    var n := Width(size);
    var a, b := gen[..i], gen[i..];
    assert gen == a + b;
    FilterConcat(a, b, keep);
    MapConcat(Filter(a, keep), Filter(b, keep), f);
    var done := Map(Filter(a, keep), f);
    ChunkFlushedPrefix(done, Map(Filter(b, keep), f), n);
    ChunkFlushed(done, n);
    ChunkShape(done[..WholeLength(|done|, n)], n);
  }

  /** The loop's state: the bulks yielded so far, all full, followed by the
      working bulk, not yet full, hold exactly the kept, mapped items read so far. */
  ghost predicate InProgress<U>(yielded: seq<seq<U>>, bulk: seq<U>, done: seq<U>, n: nat)
  {
    Flatten(yielded) + bulk == done
    && (forall j :: 0 <= j < |yielded| ==> |yielded[j]| == n)
    && |bulk| < n
  }

  /** The loop's state after reading `gen[..i]`, together with what it means
      for the consumer: the bulks yielded so far are exactly the flushed bulks
      of the output for the items read so far. */
  ghost predicate Reading<T, U>(yielded: seq<seq<U>>, bulk: seq<U>, gen: seq<T>, i: nat,
                                keep: T -> bool, f: T -> U, size: int)
    requires i <= |gen|
  {
    InProgress(yielded, bulk, Map(Filter(gen[..i], keep), f), Width(size))
    && yielded == Flushed(Batches(size, gen[..i], keep, f), Width(size))
  }

  /** Reading an item the filter rejects keeps the loop's state. */
  lemma RejectKeepsProgress<T, U>(yielded: seq<seq<U>>, bulk: seq<U>, gen: seq<T>, i: nat,
                                  keep: T -> bool, f: T -> U, size: int)
    requires i < |gen| && !keep(gen[i])
    requires InProgress(yielded, bulk, Map(Filter(gen[..i], keep), f), Width(size))
    ensures Reading(yielded, bulk, gen, i + 1, keep, f, size)
  {
    MapFilterStep(gen, i, keep, f);
    ProgressFlushed(yielded, bulk, gen, i + 1, keep, f, size);
  }

  /** Reading an item the filter accepts and pushing its mapped value onto
      the working bulk, then yielding the bulk when it reaches `size`, keeps
      the loop's state. */
  lemma PushKeepsProgress<T, U>(yielded: seq<seq<U>>, bulk: seq<U>, gen: seq<T>, i: nat,
                                keep: T -> bool, f: T -> U, size: int)
    requires i < |gen| && keep(gen[i])
    requires InProgress(yielded, bulk, Map(Filter(gen[..i], keep), f), Width(size))
    ensures var b := bulk + [f(gen[i])];
      if |b| >= size then Reading(yielded + [b], [], gen, i + 1, keep, f, size)
      else Reading(yielded, b, gen, i + 1, keep, f, size)
  {
    MapFilterStep(gen, i, keep, f);
    var y := f(gen[i]);
    var b := bulk + [y];
    assert Flatten(yielded) + b == Map(Filter(gen[..i], keep), f) + [y];
    if |b| >= size {
      FlushKeepsProgress(yielded, b, Map(Filter(gen[..i + 1], keep), f), Width(size));
      ProgressFlushed(yielded + [b], [], gen, i + 1, keep, f, size);
    } else {
      ProgressFlushed(yielded, b, gen, i + 1, keep, f, size);
    }
  }

  /** Yielding a working bulk that has just become full keeps the loop's state. */
  lemma FlushKeepsProgress<U>(yielded: seq<seq<U>>, b: seq<U>, done: seq<U>, n: nat)
    requires Flatten(yielded) + b == done && |b| == n >= 1
    requires forall j :: 0 <= j < |yielded| ==> |yielded[j]| == n
    ensures InProgress(yielded + [b], [], done, n)
  {
    FlattenSnoc(yielded, b);
    assert Flatten(yielded + [b]) + [] == done;
    forall j | 0 <= j < |yielded| + 1
      ensures |(yielded + [b])[j]| == n
    {
      if j < |yielded| {
        assert (yielded + [b])[j] == yielded[j];
      }
    }
  }

  /** The loop's state determines the output: the yielded bulks followed by
      the working bulk, when it is not empty, are the cut of the items read so
      far, and the yielded bulks alone are its flushed bulks. */
  lemma ProgressIsChunk<U>(yielded: seq<seq<U>>, bulk: seq<U>, done: seq<U>, n: nat)
    requires n >= 1 && InProgress(yielded, bulk, done, n)
    ensures (if |bulk| > 0 then yielded + [bulk] else yielded) == Chunk(done, n)
    ensures yielded == Flushed(Chunk(done, n), n)
  {
    if |bulk| > 0 {
      FlattenSnoc(yielded, bulk);
      var bs := yielded + [bulk];
      forall j | 0 <= j < |bs|
        ensures 0 < |bs[j]| <= n && (j < |bs| - 1 ==> |bs[j]| == n)
      {
        if j < |yielded| {
          assert bs[j] == yielded[j];
        }
      }
      ChunkUnique(bs, done, n);
      assert bs[..|bs| - 1] == yielded;
    } else {
      assert Flatten(yielded) == done;
      ChunkUnique(yielded, done, n);
    }
  }

  /** Part-way through, the bulks yielded are the flushed bulks of the output
      for the items read so far. */
  lemma ProgressFlushed<T, U>(yielded: seq<seq<U>>, bulk: seq<U>, gen: seq<T>, i: nat,
                              keep: T -> bool, f: T -> U, size: int)
    requires i <= |gen|
    requires InProgress(yielded, bulk, Map(Filter(gen[..i], keep), f), Width(size))
    ensures yielded == Flushed(Batches(size, gen[..i], keep, f), Width(size))
  {
    ProgressIsChunk(yielded, bulk, Map(Filter(gen[..i], keep), f), Width(size));
  }

  /** After the last item, yielding the leftover bulk when it is not empty
      completes the output. */
  lemma FinishIsChunk<T, U>(yielded: seq<seq<U>>, bulk: seq<U>, gen: seq<T>,
                            keep: T -> bool, f: T -> U, size: int)
    requires InProgress(yielded, bulk, Map(Filter(gen[..|gen|], keep), f), Width(size))
    ensures (if |bulk| > 0 then yielded + [bulk] else yielded) == Batches(size, gen, keep, f)
  {
    assert gen[..|gen|] == gen;
    ProgressIsChunk(yielded, bulk, Map(Filter(gen, keep), f), Width(size));
  }

  /** The generator: a loop over the input that pushes each kept, mapped item
      onto the working bulk and yields the bulk as soon as it reaches `size`,
      then yields the leftover bulk if it is not empty. */
  method Bulks<T(!new)>(size: int, gen: seq<T>, filterCb: Option<T -> bool>, mapCb: Option<T -> T>)
    returns (yielded: seq<seq<T>>)
    ensures yielded == Batches(size, gen, KeepOf(filterCb), MapOf(mapCb))
  {
    var keep := KeepOf(filterCb);
    var f := MapOf(mapCb);
    yielded := [];
    var bulk: seq<T> := [];
    for i := 0 to |gen|
      invariant Reading(yielded, bulk, gen, i, keep, f, size)
    {
      var item := gen[i];
      if !keep(item) {
        RejectKeepsProgress(yielded, bulk, gen, i, keep, f, size);
        continue;
      }
      PushKeepsProgress(yielded, bulk, gen, i, keep, f, size);
      bulk := bulk + [f(item)];
      if |bulk| >= size {
        yielded := yielded + [bulk];
        bulk := [];
      }
    }
    FinishIsChunk(yielded, bulk, gen, keep, f, size);
    if |bulk| > 0 {
      yielded := yielded + [bulk];
    }
  }
}
