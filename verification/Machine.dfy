/** Words, bytes and the rounding macros shared by the memory modules. */
module Machine {

  const TWO32 := 0x1_0000_0000

  type Word = w: int | 0 <= w < TWO32
  type Byte = b: int | 0 <= b < 256

  datatype Option<+T> = None | Some(value: T)

  /** `alignup(i, a)`: counts up to the next multiple of `a`. For the powers of two used
      in the kernel the 32-bit count wraps to 0 when no multiple is left below 2^32. */
  function AlignUp(i: Word, a: int): (r: Word)
    requires 0 < a
  {
    var up := (i + a - 1) / a * a;
    if up < TWO32 then (assert 0 <= up; up) else 0
  }

  /** `n` is `size` rounded up to whole pages: it holds `size` bytes and less than a page more, unless the rounding
      wraps, which leaves nothing. */
  predicate PageRounded(n: int, size: int) {
    n % 4096 == 0 && if size <= 0xFFFF_F000 then size <= n < size + 4096 else n == 0
  }

  lemma RoundsToPages(size: Word)
    ensures PageRounded(AlignUp(size, 4096), size)
  {
  }

  /** The index of the first element with property `p`, or the length. */
  function FirstThat<T>(s: seq<T>, p: T -> bool): (k: nat)
    ensures k <= |s| && (k < |s| ==> p(s[k]))
    ensures forall i :: 0 <= i < k ==> !p(s[i])
  {
    if s == [] || p(s[0]) then 0 else 1 + FirstThat(s[1..], p)
  }

  lemma ProductFar(k: int, n: int)
    requires k != 0 && 0 < n
    ensures k * n >= n || k * n <= -n
  {
    if k > 0 {
      assert (k - 1) * n >= 0;
    } else {
      assert (-k - 1) * n >= 0;
    }
  }

  /** Quotient and remainder are the only ones. */
  lemma DivideBy(w: int, d: int, q: int, r: int)
    requires 0 <= r < d && w == d * q + r
    ensures w / d == q && w % d == r
  {
    assert d * q + r == d * (w / d) + w % d;
    var e := w / d - q;
    assert e * d == r - w % d;
    if e != 0 {
      ProductFar(e, d);
    }
  }

  /** `aligndown(i, a)`. */
  function AlignDown(i: Word, a: int): (r: Word)
    requires 0 < a
  {
    i - i % a
  }
}
