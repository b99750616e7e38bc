/** The simple moving average of src2/SMA.h: a ring buffer with a cached total. */
module SMA {
  import opened CArith

  function Sum(s: seq<int>): int {
    if s == [] then 0 else s[0] + Sum(s[1..])
  }

  lemma {:induction false} SumConcat(a: seq<int>, b: seq<int>)
    ensures Sum(a + b) == Sum(a) + Sum(b)
  {
    if a == [] {
      assert a + b == b;
    } else {
      assert (a + b)[1..] == a[1..] + b;
      SumConcat(a[1..], b);
    }
  }

  /** The last `n` values, or all of them if there are fewer. */
  function LastOf(values: seq<int>, n: nat): (s: seq<int>)
    ensures |s| <= n
  {
    if |values| <= n then values else values[|values| - n..]
  }

  lemma LastOfMore(values: seq<int>, x: int, n: nat)
    requires n > 0
    ensures var last := LastOf(values, n);
      LastOf(values + [x], n) == (if |last| == n then last[1..] else last) + [x]
    ensures |LastOf(values, n)| == if |values| < n then |values| else n
  {
  }

  lemma FirstValue(x: int32, n: nat)
    requires n > 0
    ensures LastOf([x], n) == [x] && ToInt32(Sum([x])) == x
    ensures LastOf([], n) == []
  {
    assert [x][1..] == [];
  }

  lemma WrapPeriod32(a: int, k: int)
    ensures ToInt32(a + 0x1_0000_0000 * k) == ToInt32(a)
  {
  }

  lemma WrapAdd32(a: int, b: int)
    ensures ToInt32(ToInt32(a) + b) == ToInt32(a + b)
  {
    var q := (a + 0x8000_0000) / 0x1_0000_0000;
    assert ToInt32(a) == a - 0x1_0000_0000 * q;
    WrapPeriod32(a + b, -q);
  }

  lemma {:induction false} SumBounds(s: seq<int>, lo: int, hi: int)
    requires forall i :: 0 <= i < |s| ==> lo <= s[i] <= hi
    ensures |s| * lo <= Sum(s) <= |s| * hi
  {
    if s != [] { SumBounds(s[1..], lo, hi); }
  }

  lemma TailOfConcat(a: seq<int>, b: seq<int>)
    requires a != []
    ensures (a + b)[1..] == a[1..] + b
  {
  }

  lemma ModUnique(x: int, n: int, q: int, r: int)
    requires n > 0 && 0 <= r < n && x == n * q + r
    ensures x % n == r
  {
    var p := x / n;
    assert x == n * p + x % n;
    if p < q { MulMono(n, p + 1, q); }
    if q < p { MulMono(n, q + 1, p); }
  }

  lemma RingDistance(period: int, head: int, tail: int)
    requires 0 <= head < period && 0 <= tail < period && head != tail
    ensures (period + tail - head) % period == if head < tail then tail - head else period + tail - head
  {
    if head < tail {
      ModUnique(period + tail - head, period, 1, tail - head);
    } else {
      ModUnique(period + tail - head, period, 0, period + tail - head);
    }
  }

  /** The state of the ring: `head` is the oldest value and `tail` the next slot; -1 stands for NULL. */
  class Average {
    const period: nat
    const window: array<int>
    var head: int
    var tail: int
    var total: int
    ghost var added: seq<int>

    function Contents(): seq<int>
      requires window.Length == period && -1 <= head < period && 0 <= tail < period
      reads this, window
    {
      if head == -1 then [] else if head < tail then window[head..tail] else window[head..] + window[..tail]
    }

    /** The ring holds the last values added, and the cached total is their sum in 32 bits. */
    ghost predicate Valid()
      reads this, window
    {
      && 1 <= period == window.Length && -1 <= head < period && 0 <= tail < period
      && (head == -1 ==> added == []) && (head >= 0 ==> added != [])
      && (head >= 0 && head != tail ==> |added| < period)
      && Contents() == LastOf(added, period)
      && total == ToInt32(Sum(Contents()))
    }

    constructor (period: nat)
      requires period >= 1
      ensures Valid() && fresh(window) && this.period == period && added == []
    {
      this.period := period;
      window := new int[period];
      head, tail, total, added := -1, 0, 0, [];
    }

    function Inc(p: int): int
      requires 0 <= p < period
    {
      if p + 1 >= period then 0 else p + 1
    }

    function Size(): (n: int)
      requires Valid()
      reads this, window
      ensures n == |Contents()|
    {
      if head == -1 then 0
      else if head == tail then period
      else
        RingDistance(period, head, tail);
        (period + tail - head) % period
    }

    /** Adds a value, pushing out the oldest one if the ring is full. */
    method Add(val: int32)
      requires Valid()
      modifies this, window
      ensures Valid() && added == old(added) + [val]
    {
      hide LastOf, Sum, ToInt32;
      ghost var next := added + [val];
      LastOfMore(added, val, period);
      FirstValue(val, period);
      if head == -1 {
        head := 0;
        window[head] := val;
        tail := head;
        tail := Inc(tail);
        total := val;
        assert Contents() == [val];
      } else {
        ghost var kept := Contents();
        if head == tail {
          kept := kept[1..];
          Evict();
        }
        Append(val, kept);
      }
      added := next;
    }

    /** `kept` is what the ring holds between `head` and a free slot at `tail`. */
    ghost predicate HasRoom(kept: seq<int>)
      reads this, window
    {
      && 1 <= period == window.Length && 0 <= head < period && 0 <= tail < period && |kept| < period
      && (if head == tail then kept == [] else kept == Contents())
      && total == ToInt32(Sum(kept))
    }

    /** Makes room in a full ring. */
    method Evict()
      requires 1 <= period == window.Length && 0 <= head == tail < period && total == ToInt32(Sum(Contents()))
      modifies this`head, this`total
      ensures HasRoom(old(Contents())[1..])
    {
      ghost var before := Contents();
      SumConcat([before[0]], before[1..]);
      assert [before[0]] + before[1..] == before;
      WrapAdd32(Sum(before), -before[0]);
      total := ToInt32(total - window[head]);
      head := Inc(head);
      TailOfConcat(window[tail..], window[..tail]);
      assert window[tail..][1..] == window[tail + 1..];
      assert head != tail ==> Contents() == before[1..];
    }

    /** Writes the value in the free slot. */
    method Append(val: int32, ghost kept: seq<int>)
      requires HasRoom(kept)
      modifies this`tail, this`total, window
      ensures 0 <= tail < period && Contents() == kept + [val] && total == ToInt32(Sum(kept + [val]))
      ensures head != tail ==> |kept| + 1 < period
    {
      window[tail] := val;
      tail := Inc(tail);
      assert Contents() == kept + [val];
      SumConcat(kept, [val]);
      WrapAdd32(Sum(kept), val);
      total := ToInt32(total + val);
    }

    /** The truncated mean of the values in the ring; 0 for an empty one. */
    method Avg() returns (mean: int)
      requires Valid()
      ensures added == [] ==> mean == 0
      ensures added != [] ==> Contents() != [] && mean == TruncDiv(ToInt32(Sum(Contents())), |Contents()|)
    {
      var size := Size();
      if size == 0 { return 0; }
      mean := TruncDiv(total, size);
    }
  }

  /** If the period times either bound of the values fits 32 bits, no total wraps, neither with all values nor
      after the oldest was taken off to make room, and the mean lies between the bounds, so between the least
      and the greatest value. A period of 30 over octet signal strengths is
      far within that. */
  lemma MeanIsExact(added: seq<int>, period: nat, lo: int, hi: int)
    requires period >= 1 && added != []
    requires forall i :: 0 <= i < |added| ==> lo <= added[i] <= hi
    requires -0x8000_0000 <= period * lo && period * hi < 0x8000_0000
    ensures var last := LastOf(added, period);
      && last != [] && ToInt32(Sum(last)) == Sum(last) && ToInt32(Sum(last[1..])) == Sum(last[1..])
      && lo <= TruncDiv(Sum(last), |last|) <= hi
  {
    var last := LastOf(added, period);
    SumBounds(last, lo, hi);
    SumBounds(last[1..], lo, hi);
    WithinBounds(|last| - 1, period, lo, hi, Sum(last[1..]));
    WithinBounds(|last|, period, lo, hi, Sum(last));
    TruncDivBetween(Sum(last), |last|, lo, hi);
  }

  lemma WithinBounds(n: nat, period: nat, lo: int, hi: int, sum: int)
    requires n <= period && n * lo <= sum <= n * hi
    requires -0x8000_0000 <= period * lo && period * hi < 0x8000_0000
    ensures -0x8000_0000 <= sum < 0x8000_0000
  {
    if hi >= 0 { MulMono(hi, n, period); } else { MulMono(n, hi, 0); }
    if lo <= 0 { MulMono(-lo, n, period); } else { MulMono(n, 0, lo); }
  }
}
