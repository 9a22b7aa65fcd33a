/** Circular buffers: which sequence a backing array holds, oldest first, just before its write position. */
module Ring {

  /** The last `k` elements (all of them when there are fewer). */
  function Last<T>(h: seq<T>, k: nat): seq<T> {
    if k >= |h| then h else h[|h| - k..]
  }

  /** One addition to a buffer of capacity `size`: the oldest makes room when the buffer is full. */
  function Push<T>(s: seq<T>, x: T, size: nat): seq<T> {
    (if |s| < size || s == [] then s else s[1..]) + [x]
  }

  function Wrap(i: int, size: int): int {
    if i >= size then i - size else i
  }

  /** The position of the oldest of `n` elements written before `next`. */
  function Oldest(next: int, n: int, size: int): int {
    if next >= n then next - n else next - n + size
  }

  ghost predicate Holds<T>(a: seq<T>, next: int, s: seq<T>) {
    && 0 <= next < |a| && |s| <= |a|
    && forall i | 0 <= i < |s| :: s[i] == a[Wrap(Oldest(next, |s|, |a|) + i, |a|)]
  }

  /** Writing at `next` and advancing is a push; when the buffer is full the overwritten slot is the oldest. */
  lemma Write<T>(a: seq<T>, next: int, s: seq<T>, x: T)
    requires Holds(a, next, s)
    ensures Holds(a[next := x], Wrap(next + 1, |a|), Push(s, x, |a|))
    ensures |s| == |a| ==> a[next] == s[0]
  {
  }

  lemma Drop<T>(a: seq<T>, next: int, s: seq<T>, k: nat)
    requires Holds(a, next, s) && k <= |s|
    ensures Holds(a, next, s[k..])
  {
  }

  /** The backing array of a full buffer is a rotation of its contents; before the first wrap the
      contents are its prefix. */
  lemma Layout<T>(a: seq<T>, next: int, s: seq<T>)
    requires Holds(a, next, s)
    ensures |s| == |a| ==> s == a[next..] + a[..next]
    ensures |s| == next ==> s == a[..next]
  {
  }

  lemma PushIsLast<T>(h: seq<T>, x: T, size: nat, k: nat)
    requires size > 0 && k <= |h|
    ensures Push(Last(h, if size <= k then size else k), x, size)
         == Last(h + [x], if size <= k + 1 then size else k + 1)
  {
  }

  /** The next write position. */
  method Advance(i: int, size: int) returns (r: int)
    requires 0 <= i < size
    ensures r == Wrap(i + 1, size)
  {
    r := (i + 1) % size;
  }

  /** The read position of the oldest of `n` elements. */
  method FindOldest(next: int, n: int, size: int) returns (r: int)
    requires 0 <= next < size && 0 < n <= size
    ensures r == Oldest(next, n, size)
  {
    r := (next - n + size) % size;
    if next >= n {
      assert (next - n + size) / size == 1;
    } else {
      assert (next - n + size) / size == 0;
    }
  }

  lemma MultipleTooFar(size: int, q: int)
    requires size > 0
    ensures !(0 < size * q < size)
  {
    if q > 0 {
      assert size * q == size + size * (q - 1);
      assert size * (q - 1) >= 0;
    } else {
      assert size * q <= 0;
    }
  }

  /** A full turn ends in the same slot. */
  lemma FullTurn(i: nat, size: nat)
    requires size > 0
    ensures (i + size) % size == i % size
  {
    var later := i + size;
    var d := later / size - i / size - 1;
    assert i == size * (i / size) + i % size && later == size * (later / size) + later % size;
    assert size * d == size * (later / size) - size * (i / size) - size;
    MultipleTooFar(size, d);
    MultipleTooFar(size, -d);
  }

  /** The remainder as the source computes it: it has the sign of the dividend. */
  function TruncatedMod(a: int, size: int): int
    requires size > 0
  {
    if a >= 0 then a % size else -(-a % size)
  }

  /** Where reading `n` elements written from position zero on starts, when there may be more than slots. */
  lemma StartBelowZero(n: nat, size: nat)
    requires size > 0
    ensures
      var start := TruncatedMod(size - n, size);
      && start < size
      && (start < 0 <==> n > size && n % size != 0)
  {
    if n > size {
      FullTurn(n - size, size);
    }
  }
}
