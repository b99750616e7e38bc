/** When the wrapping loop of src/tclap/StdOutput.h comes to an end, for every width and offset. */
module WrapEnds {
  import opened Wrappers
  import opened SpacePrint

  /** Where the loop is in the text, and how many characters it allows a line. */
  datatype Place = Place(start: nat, width: int)

  function Min(a: int, b: int): int { if a <= b then a else b }

  /** One pass; `None` if it reads in front of the text. A negative width prints the whole rest and leads back by
      that much, less the spaces that it then finds. */
  function Pass(s: string, offset: int, p: Place): Option<Place>
    requires p.start < |s|
  {
    var width := p.width - Pending(p.start, offset);
    if p.width >= 0 then Some(Place(NextLine(s, p.start, p.width), width))
    else if p.start + p.width < 0 then None
    else Some(Place(p.start + p.width + Min(Spaces(s, p.start + p.width), |s| - p.start), width))
  }

  /** At most `n` passes. */
  function Passes(s: string, offset: int, p: Place, n: nat): Option<Place>
    decreases n
  {
    if n == 0 || p.start >= |s| then Some(p)
    else match Pass(s, offset, p)
      case None => None
      case Some(q) => Passes(s, offset, q, n - 1)
  }

  predicate EndsAfter(s: string, offset: int, p: Place, n: nat) {
    var r := Passes(s, offset, p, n);
    r.Some? && r.value.start >= |s|
  }

  lemma {:induction false} CanWrapEnds(s: string, offset: int, p: Place) returns (n: nat)
    requires p.start <= |s| && CanWrap(s, p.start, p.width, Pending(p.start, offset))
    ensures EndsAfter(s, offset, p, n)
    decreases |s| - p.start, if p.width == 0 then 1 else 0
  {
    hide CanWrap, NextLine;
    if p.start == |s| {
      n := 0;
    } else {
      CanStillWrap(s, p.start, p.width, Pending(p.start, offset));
      var q := Pass(s, offset, p).value;
      var m := CanWrapEnds(s, offset, q);
      n := m + 1;
    }
  }

  /** The loop is lost: without room at a character that is not a space, or with a negative width. */
  predicate Lost(s: string, offset: int, p: Place) {
    && p.start < |s| && (p.start == 0 ==> offset >= 0)
    && ((p.width == 0 && s[p.start] != ' ') || (p.width < 0 && offset >= 0))
  }

  lemma LostStays(s: string, offset: int, p: Place)
    requires Lost(s, offset, p) && (p.width == 0 ==> offset >= 0)
    ensures var q := Pass(s, offset, p); q.Some? ==> Lost(s, offset, q.value)
    ensures var q := Pass(s, offset, p); q.Some? && p.width == 0 ==> q.value.start == p.start
  {
    if p.width == 0 { assert NextLine(s, p.start, 0) == p.start; }
  }

  lemma {:induction false} LostNeverEnds(s: string, offset: int, p: Place, n: nat)
    requires Lost(s, offset, p) && offset >= 0
    ensures !EndsAfter(s, offset, p, n)
    decreases n
  {
    hide Lost, Pass;
    assert p.start < |s| by { LostStarts(s, offset, p); }
    if n > 0 {
      LostStays(s, offset, p);
      var q := Pass(s, offset, p);
      if q.Some? { LostNeverEnds(s, offset, q.value, n - 1); }
    }
  }

  lemma LostStarts(s: string, offset: int, p: Place)
    requires Lost(s, offset, p)
    ensures p.start < |s|
  {
  }

  /** If the loop cannot get to the end, it is lost after its first pass, or reads in front of the text. */
  lemma LostAtOnce(s: string, offset: int, width: int)
    requires !CanWrap(s, 0, width, offset)
    ensures var q := Pass(s, offset, Place(0, width)); q.Some? ==> offset >= 0 && Lost(s, offset, q.value)
  {
    if width == 0 { NextWithoutRoom(s); }
  }

  lemma NeverEnds(s: string, offset: int, width: int, n: nat)
    requires !CanWrap(s, 0, width, offset)
    ensures !EndsAfter(s, offset, Place(0, width), n)
  {
    hide Lost, Pass, CanWrap;
    assert s != "" by { NotEmpty(s, offset, width); }
    LostAtOnce(s, offset, width);
    var q := Pass(s, offset, Place(0, width));
    if n > 0 && q.Some? { LostNeverEnds(s, offset, q.value, n - 1); }
  }

  lemma NotEmpty(s: string, offset: int, width: int)
    requires !CanWrap(s, 0, width, offset)
    ensures s != ""
  {
  }

  /** The wrapping loop gets to the end of the text, within bounds, exactly if it can wrap in the sense of the
      precondition of `SpacePrint`. */
  lemma WrapEndsExactly(s: string, offset: int, width: int)
    ensures (exists n: nat :: EndsAfter(s, offset, Place(0, width), n)) <==> CanWrap(s, 0, width, offset)
  {
    hide CanWrap, EndsAfter;
    if CanWrap(s, 0, width, offset) {
      var n := CanWrapEnds(s, offset, Place(0, width));
    } else {
      forall n: nat ensures !EndsAfter(s, offset, Place(0, width), n) { NeverEnds(s, offset, width, n); }
    }
  }
}
