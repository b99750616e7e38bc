/** The sliding-window median filter of tests/medfilter/medflt.h: Huang's running histogram against the
    direct method that sorts every window. */
module MedianFilter {
  import opened CArith
  import opened Ordering

  /** An iterator into the ordered histogram: on an entry, or past the last one. */
  datatype Position = At(key: int) | End

  lemma SomeElement(s: set<int>) returns (a: int)
    requires s != {}
    ensures a in s
  {
    if forall x :: x !in s { assert false; }
    a :| a in s;
  }

  lemma {:induction false} FindLeast(s: set<int>) returns (m: int)
    requires s != {}
    ensures m in s && forall x :: x in s ==> m <= x
    decreases |s|
  {
    var a := SomeElement(s);
    var rest := s - {a};
    m := a;
    if rest != {} {
      var b := FindLeast(rest);
      if b < a { m := b; }
    }
    forall x | x in s ensures m <= x {
      if x != a { assert x in rest; }
    }
  }

  lemma {:induction false} FindGreatest(s: set<int>) returns (m: int)
    requires s != {}
    ensures m in s && forall x :: x in s ==> x <= m
    decreases |s|
  {
    var a := SomeElement(s);
    var rest := s - {a};
    m := a;
    if rest != {} {
      var b := FindGreatest(rest);
      if b > a { m := b; }
    }
    forall x | x in s ensures x <= m {
      if x != a { assert x in rest; }
    }
  }

  ghost predicate IsLeast(m: int, s: set<int>) {
    m in s && forall x :: x in s ==> m <= x
  }

  ghost predicate IsGreatest(m: int, s: set<int>) {
    m in s && forall x :: x in s ==> x <= m
  }

  lemma LeastExists(s: set<int>)
    requires s != {}
    ensures exists m :: IsLeast(m, s)
  {
    var m := FindLeast(s);
    assert IsLeast(m, s);
  }

  lemma GreatestExists(s: set<int>)
    requires s != {}
    ensures exists m :: IsGreatest(m, s)
  {
    var m := FindGreatest(s);
    assert IsGreatest(m, s);
  }

  function Least(s: set<int>): (m: int)
    requires s != {}
    ensures m in s && forall x :: x in s ==> m <= x
  {
    LeastExists(s);
    assert exists m :: m in s && forall x :: x in s ==> m <= x by {
      var m :| IsLeast(m, s);
    }
    var m :| m in s && forall x :: x in s ==> m <= x;
    m
  }

  function Greatest(s: set<int>): (m: int)
    requires s != {}
    ensures m in s && forall x :: x in s ==> x <= m
  {
    GreatestExists(s);
    assert exists m :: m in s && forall x :: x in s ==> x <= m by {
      var m :| IsGreatest(m, s);
    }
    var m :| m in s && forall x :: x in s ==> x <= m;
    m
  }

  /** The entry with the smallest key, as `begin()`. */
  function Begin(h: map<int, int>): (p: Position)
    ensures p.At? ==> p.key in h && forall x :: x in h ==> p.key <= x
    ensures p.End? <==> h == map[]
  {
    if h == map[] then End else
    assert h.Keys != {};
    At(Least(h.Keys))
  }

  /** The entry after key `k`, as `++`. */
  function Next(h: map<int, int>, k: int): (p: Position)
    ensures p.At? ==> p.key in h && p.key > k && forall x :: x in h && x > k ==> p.key <= x
    ensures p.End? <==> forall x :: x in h ==> x <= k
  {
    var above := set x | x in h && x > k;
    assert forall x :: x in h && x > k ==> x in above;
    if above == {} then End else At(Least(above))
  }

  /** The entry before key `k`, as `--`; there must be one. */
  function Prev(h: map<int, int>, k: int): (p: Position)
    requires exists x :: x in h && x < k
    ensures p.At? && p.key in h && p.key < k && forall x :: x in h && x < k ==> x <= p.key
  {
    var below := set x | x in h && x < k;
    assert forall x :: x in h && x < k ==> x in below;
    At(Greatest(below))
  }

  /** The input continued to both sides by its first and last sample. */
  function Clamp(v: seq<int>, i: int): int
    requires |v| > 0
  {
    if i < 0 then v[0] else if i > |v| - 1 then v[|v| - 1] else v[i]
  }

  /** `n` samples of the continued input, from position `lo` on. */
  function Samples(v: seq<int>, lo: int, n: nat): (s: seq<int>)
    requires |v| > 0
    ensures |s| == n
  {
    if n == 0 then [] else Samples(v, lo, n - 1) + [Clamp(v, lo + n - 1)]
  }

  /** The clamped window of half-width `w2` around sample `j`. */
  function Window(v: seq<int>, j: int, w2: nat): (s: seq<int>)
    requires |v| > 0
    ensures |s| == 2 * w2 + 1
  {
    Samples(v, j - w2, 2 * w2 + 1)
  }

  /** A window holds the samples at its positions; beyond either end stands the sample there. */
  lemma {:induction false} SamplesAt(v: seq<int>, lo: int, n: nat, i: nat)
    requires |v| > 0 && i < n
    ensures Samples(v, lo, n)[i] == if lo + i < 0 then v[0] else if lo + i >= |v| then v[|v| - 1] else v[lo + i]
  {
    if i < n - 1 { SamplesAt(v, lo, n - 1, i); }
  }

  lemma WindowAt(v: seq<int>, j: int, w2: nat, i: nat)
    requires |v| > 0 && i < 2 * w2 + 1
    ensures var p := j - w2 + i;
      Window(v, j, w2)[i] == if p < 0 then v[0] else if p >= |v| then v[|v| - 1] else v[p]
  {
    SamplesAt(v, j - w2, 2 * w2 + 1, i);
  }

  /** The middle element of the sorted window around sample `j`. */
  function MedianAt(v: seq<int>, w2: nat, j: int): int
    requires |v| > 0
  {
    Sort(Window(v, j, w2))[w2]
  }

  /** The first `n` outputs of a median filter. */
  function MedianPrefix(v: seq<int>, w2: nat, n: nat): (out: seq<int>)
    requires |v| > 0
    ensures |out| == n
  {
    if n == 0 then [] else MedianPrefix(v, w2, n - 1) + [MedianAt(v, w2, n - 1)]
  }

  /** What a median filter is for: output j is the middle element of the sorted window around j. */
  function MedianOf(v: seq<int>, windowSize: int): (out: seq<int>)
    requires |v| > 0 && windowSize >= -1
    ensures |out| == |v|
  {
    MedianPrefix(v, TruncDiv(windowSize, 2), |v|)
  }

  lemma {:induction false} MedianPrefixAt(v: seq<int>, w2: nat, n: nat, j: nat)
    requires |v| > 0 && j < n
    ensures MedianPrefix(v, w2, n)[j] == MedianAt(v, w2, j)
  {
    hide MedianAt;
    if j < n - 1 { MedianPrefixAt(v, w2, n - 1, j); }
  }

  /** The histogram holds, for every value of the window, its multiplicity; other entries are zero. */
  ghost predicate Counts(h: map<int, int>, win: seq<int>) {
    && (forall k :: k in h ==> h[k] == multiset(win)[k])
    && (forall x :: x in win ==> x in h)
  }

  /** `median` is on an entry, `dl` samples lie below it, and the `middle`-th sample is there. */
  ghost predicate OnMedian(h: map<int, int>, win: seq<int>, median: Position, dl: int, middle: int) {
    && median.At? && median.key in h
    && dl == Below(win, median.key)
    && dl < middle <= dl + h[median.key]
  }

  /** The state between two outputs: the histogram counts the window around `j` and the iterator is on
      its median. */
  ghost predicate Tracks(h: map<int, int>, median: Position, v: seq<int>, w2: nat, j: int, dl: int)
    requires |v| > 0
  {
    Counts(h, Window(v, j, w2)) && OnMedian(h, Window(v, j, w2), median, dl, w2 + 1)
  }

  /** Sliding by one sample drops the first element of the window and appends a new last one. */
  lemma {:induction false} SamplesSlide(v: seq<int>, lo: int, n: nat)
    requires |v| > 0 && n > 0
    ensures Samples(v, lo, n)[0] == Clamp(v, lo)
    ensures Samples(v, lo + 1, n) == Samples(v, lo, n)[1..] + [Clamp(v, lo + n)]
  {
    if n > 1 {
      SamplesSlide(v, lo, n - 1);
      assert Samples(v, lo, n)[1..] == Samples(v, lo, n - 1)[1..] + [Clamp(v, lo + n - 1)];
    } else {
      assert Samples(v, lo, 0) == [] && Samples(v, lo + 1, 0) == [];
    }
  }

  lemma WindowSlides(v: seq<int>, j: int, w2: nat)
    requires |v| > 0
    ensures Window(v, j - 1, w2)[0] == Clamp(v, j - w2 - 1)
    ensures Window(v, j, w2) == Window(v, j - 1, w2)[1..] + [Clamp(v, j + w2)]
  {
    SamplesSlide(v, j - 1 - w2, 2 * w2 + 1);
  }

  lemma SlideCounts(win: seq<int>, av: int, m: int)
    requires |win| > 0
    ensures multiset(win[1..] + [av]) == multiset(win) - multiset{win[0]} + multiset{av}
    ensures Below(win[1..] + [av], m)
         == Below(win, m) - (if win[0] < m then 1 else 0) + (if av < m then 1 else 0)
  {
    assert win == [win[0]] + win[1..];
    BelowConcat(win[1..], [av], m);
    assert Below([av], m) == if av < m then 1 else 0;
  }

  function Incremented(h: map<int, int>, key: int): map<int, int> {
    h[key := if key in h then h[key] + 1 else 1]
  }

  /** An entry that falls to zero is dropped, unless the median iterator is on it. */
  function Decremented(h: map<int, int>, key: int, median: Position): map<int, int> {
    if key !in h then h
    else if h[key] == 1 && median != At(key) then h - {key}
    else h[key := h[key] - 1]
  }

  /** Exchanging one sample keeps the histogram exact and never erases the median's entry. */
  lemma ExchangeKeepsCounts(h: map<int, int>, win: seq<int>, av: int, median: Position)
    requires |win| > 0 && Counts(h, win) && median.At? && median.key in h
    ensures var h' := Incremented(Decremented(h, win[0], median), av);
      Counts(h', win[1..] + [av]) && median.key in h'
  {
    SlideCounts(win, av, median.key);
    var next := win[1..] + [av];
    var h1 := Decremented(h, win[0], median);
    assert win[0] in win;
    assert forall k :: k in h1 ==> h1[k] == (multiset(win) - multiset{win[0]})[k];
    assert forall x :: x in next ==> x in multiset(next);
    forall x | x in next ensures x in Incremented(h1, av) {
      if x != av {
        assert x in multiset(win) - multiset{win[0]};
        assert x in win;
      }
    }
  }

  lemma NoSamples(v: seq<int>, lo: int)
    requires |v| > 0
    ensures Counts(map[], Samples(v, lo, 0))
  {
  }

  lemma OneMoreSample(v: seq<int>, lo: int, n: nat)
    requires |v| > 0
    ensures Samples(v, lo, n + 1) == Samples(v, lo, n) + [Clamp(v, lo + n)]
  {
  }

  lemma IncrementCounts(h: map<int, int>, s: seq<int>, x: int)
    requires Counts(h, s)
    ensures Counts(Incremented(h, x), s + [x])
  {
    if x !in h { assert x !in s && x !in multiset(s); }
  }

  /** The entry the iterator rests on carries the window's median. */
  lemma OnMedianIsMedian(h: map<int, int>, v: seq<int>, w2: nat, j: int, median: Position, dl: int)
    requires |v| > 0 && Tracks(h, median, v, w2, j, dl)
    ensures median.At? && median.key == MedianAt(v, w2, j)
  {
    SelectByRank(Window(v, j, w2), w2, median.key);
  }

  class Filter {
    var windowSize: int
    var output: seq<int>
    var histogram: map<int, int>
    var median: Position

    constructor ()
      ensures windowSize == 3 && output == []
    {
      windowSize, output, histogram, median := 3, [], map[], End;
    }

    /** Refuses an even window and one narrower than three. */
    method SetWindowSize(size: int) returns (ok: bool)
      modifies this`windowSize
      ensures ok <==> size >= 3 && size % 2 == 1
      ensures windowSize == if ok then size else old(windowSize)
    {
      ok := !(size < 3 || size % 2 == 0);
      if ok { windowSize := size; }
    }

    method Inc(key: int)
      modifies this`histogram
      ensures histogram == Incremented(old(histogram), key)
    {
      if key in histogram {
        histogram := histogram[key := histogram[key] + 1];
      } else {
        histogram := histogram[key := 1];
      }
    }

    /** The entry under the median iterator is kept, with count zero, when its last sample leaves. */
    method Dec(key: int)
      modifies this`histogram
      ensures histogram == Decremented(old(histogram), key, median)
    {
      if key in histogram {
        if histogram[key] == 1 {
          if median != At(key) {
            histogram := histogram - {key};
          } else {
            histogram := histogram[key := 0];
          }
        } else {
          histogram := histogram[key := histogram[key] - 1];
        }
      }
    }

    /** Counts the first window. */
    method FillHistogram(v: seq<int>)
      requires |v| > 0 && windowSize >= 3 && windowSize % 2 == 1
      requires histogram == map[]
      modifies this`histogram
      ensures Counts(histogram, Window(v, 0, windowSize / 2))
    {
      hide Counts, Samples, Incremented;
      var w2 := windowSize / 2;
      var j := TruncDiv(-windowSize, 2);
      NoSamples(v, -w2);
      while j <= w2
        invariant -w2 <= j <= w2 + 1
        invariant Counts(histogram, Samples(v, -w2, j + w2))
      {
        var av := if j < 0 then v[0] else if j > |v| - 1 then v[|v| - 1] else v[j];
        IncrementCounts(histogram, Samples(v, -w2, j + w2), av);
        OneMoreSample(v, -w2, j + w2);
        Inc(av);
        j := j + 1;
      }
    }

    /** Walks from the first entry to the one that holds the median. */
    method FindFirstMedian(ghost win: seq<int>, middle: int) returns (dl: int)
      requires Counts(histogram, win) && 0 < middle <= |win|
      modifies this`median
      ensures OnMedian(histogram, win, median, dl, middle)
    {
      var sum := 0;
      assert exists x :: x in win by { assert win[0] in win; }
      assert histogram != map[];
      median := Begin(histogram);
      assert forall i :: 0 <= i < |win| ==> win[i] in win;
      NoneBelow(win, median.key);
      while median != End
        invariant median.At? && median.key in histogram
        invariant sum == Below(win, median.key) < middle
        decreases set x | x in histogram && x > median.key
      {
        sum := sum + histogram[median.key];
        if sum >= middle { break; }
        var m := median.key;
        SomeAbove(win, m);
        median := Next(histogram, m);
        BelowAcrossGap(win, m, median.key);
        assert median.key in (set x | x in histogram && x > m);
      }
      dl := sum - histogram[median.key];
    }

    /** Walks the iterator back to the median after one sample was exchanged. */
    method Rebalance(ghost win: seq<int>, dl0: int, middle: int) returns (dl: int)
      requires Counts(histogram, win) && 0 < middle <= |win|
      requires median.At? && median.key in histogram && dl0 == Below(win, median.key)
      modifies this`median
      ensures OnMedian(histogram, win, median, dl, middle)
    {
      dl := dl0;
      if dl >= middle {
        while dl >= middle
          invariant median.At? && median.key in histogram && dl == Below(win, median.key)
          invariant dl + histogram[median.key] >= middle
          decreases set x | x in histogram && x < median.key
        {
          var m := median.key;
          SomeBelow(win, m);
          median := Prev(histogram, m);
          BelowAcrossGap(win, median.key, m);
          dl := dl - histogram[median.key];
          assert median.key in (set x | x in histogram && x < m);
        }
      } else {
        while dl + histogram[median.key] < middle
          invariant median.At? && median.key in histogram && dl == Below(win, median.key)
          invariant dl < middle
          decreases set x | x in histogram && x > median.key
        {
          var m := median.key;
          SomeAbove(win, m);
          dl := dl + histogram[m];
          median := Next(histogram, m);
          BelowAcrossGap(win, m, median.key);
          assert median.key in (set x | x in histogram && x > m);
        }
      }
    }

    /** One position further: the sample `dv` leaves the window and `av` enters it. */
    method Slide(ghost win: seq<int>, dv: int, av: int, dl0: int, middle: int) returns (dl: int)
      requires 0 < middle <= |win| && dv == win[0]
      requires Counts(histogram, win) && OnMedian(histogram, win, median, dl0, middle)
      modifies this`histogram, this`median
      ensures Counts(histogram, win[1..] + [av])
      ensures OnMedian(histogram, win[1..] + [av], median, dl, middle)
    {
      dl := dl0;
      ghost var next := win[1..] + [av];
      SlideCounts(win, av, median.key);
      if av != dv {
        ExchangeKeepsCounts(histogram, win, av, median);
        Dec(dv);
        if dv < median.key { dl := dl - 1; }
        Inc(av);
        if av < median.key { dl := dl + 1; }
        dl := Rebalance(next, dl, middle);
      } else {
        assert multiset(next) == multiset(win);
        assert forall x :: x in next ==> x in multiset(win);
      }
    }

    /** Brings histogram and iterator from the window around `j - 1` to the one around `j`. */
    method Advance(v: seq<int>, w2: nat, j: nat, dl0: int) returns (dl: int)
      requires 1 <= j < |v|
      requires Tracks(histogram, median, v, w2, j - 1, dl0)
      modifies this`histogram, this`median
      ensures Tracks(histogram, median, v, w2, j, dl)
    {
      var k := j - w2 - 1;
      var dv := if k < 0 then v[0] else v[k];
      k := j + w2;
      var av := if k > |v| - 1 then v[|v| - 1] else v[k];
      WindowSlides(v, j, w2);
      dl := Slide(Window(v, j - 1, w2), dv, av, dl0, w2 + 1);
    }

    method FilterImpl(v: seq<int>)
      requires |v| > 0 && windowSize >= 3 && windowSize % 2 == 1
      requires histogram == map[] && output == []
      modifies this`histogram, this`median, this`output
      ensures output == MedianOf(v, windowSize)
    {
      var w2, middle := windowSize / 2, windowSize / 2 + 1;
      FillHistogram(v);
      var dl := FindFirstMedian(Window(v, 0, w2), middle);
      OnMedianIsMedian(histogram, v, w2, 0, median, dl);
      output := output + [median.key];
      assert MedianOf(v, windowSize) == MedianPrefix(v, w2, |v|);
      var j := 1;
      while j < |v|
        invariant 1 <= j <= |v|
        invariant Tracks(histogram, median, v, w2, j - 1, dl)
        invariant output == MedianPrefix(v, w2, j)
      {
        dl := Advance(v, w2, j, dl);
        OnMedianIsMedian(histogram, v, w2, j, median, dl);
        output := output + [median.key];
        j := j + 1;
      }
    }

    /** A disabled filter copies its input. */
    method Execute(v: seq<int>, enabled: bool)
      requires enabled ==> |v| > 0
      requires windowSize >= 3 && windowSize % 2 == 1
      modifies this`histogram, this`median, this`output
      ensures output == if enabled then MedianOf(v, windowSize) else v
    {
      output, histogram := [], map[];
      if enabled {
        FilterImpl(v);
      } else {
        output := output + v;
      }
    }
  }

  /** Copies the clamped window around `j` into a fresh vector. */
  method CopyWindow(v: seq<int>, j: nat, w2: nat) returns (window: seq<int>)
    requires j < |v|
    ensures window == Window(v, j, w2)
  {
    window := [];
    var k := j - w2;
    while k <= j + w2
      invariant j - w2 <= k <= j + w2 + 1
      invariant window == Samples(v, j - w2, k - (j - w2))
    {
      if k < 0 {
        window := window + [v[0]];
      } else if k > |v| - 1 {
        window := window + [v[|v| - 1]];
      } else {
        window := window + [v[k]];
      }
      k := k + 1;
    }
  }

  /** Sorts every clamped window and takes its middle element. A window size below -1 has no middle element. */
  method DirectMedian(v: seq<int>, windowSize: int) returns (output: seq<int>)
    requires |v| == 0 || windowSize >= -1
    ensures output == if |v| == 0 then [] else MedianOf(v, windowSize)
  {
    output := [];
    var w2 := TruncDiv(windowSize, 2);
    var j := 0;
    while j < |v|
      invariant 0 <= j <= |v|
      invariant if |v| == 0 then output == [] else output == MedianPrefix(v, w2, j)
    {
      var window := CopyWindow(v, j, w2);
      window := Sort(window);
      output := output + [window[w2]];
      j := j + 1;
    }
  }

  /** The comparison the median filter's own test makes, for every input and every valid window. */
  method CompareFilters(f: Filter, v: seq<int>) returns (diffCount: int)
    requires |v| > 0 && f.windowSize >= 3 && f.windowSize % 2 == 1
    modifies f
    ensures diffCount == 0
  {
    var direct := DirectMedian(v, f.windowSize);
    f.Execute(v, true);
    diffCount := 0;
    var j := 0;
    while j < |f.output|
      invariant diffCount == 0
    {
      diffCount := diffCount + (if f.output[j] != direct[j] then 1 else 0);
      j := j + 1;
    }
  }
}
