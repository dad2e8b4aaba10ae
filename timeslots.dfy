/** The arithmetic kernel of date scheduling (dating.controllers.ts):
    "HH:mm" text to minutes and back, the intersection of two slots with a
    minimum overlap of 30 minutes, and the search for the first common slot. */
module TimeSlots {
  import opened Schemas
  import opened Decimal

  /** Two slots must share at least this many minutes to be proposed. */
  const MinOverlap: nat := 30

  /** `s.split(sep)` for a one-character separator. */
  function Split(s: string, sep: char): (parts: seq<string>)
    ensures |parts| >= 1
    ensures forall i :: 0 <= i < |parts| ==> sep !in parts[i]
  {
    if s == [] then [[]]
    else
      var rest := Split(s[1..], sep);
      if s[0] == sep then [[]] + rest
      else [[s[0]] + rest[0]] + rest[1..]
  }

  /** `parts.join(sep)`. */
  function Join(parts: seq<string>, sep: char): string
    requires |parts| >= 1
  {
    if |parts| == 1 then parts[0] else parts[0] + [sep] + Join(parts[1..], sep)
  }

  /** Splitting loses nothing: joining the fields gives the text back. */
  lemma {:induction false} SplitJoin(s: string, sep: char)
    ensures Join(Split(s, sep), sep) == s
  {
    if s != [] {
      var rest := Split(s[1..], sep);
      SplitJoin(s[1..], sep);
      if s[0] != sep {
        if |rest| == 1 {
          assert Split(s, sep) == [[s[0]] + rest[0]];
        } else {
          assert Split(s, sep)[1..] == rest[1..];
          assert Join(rest, sep) == rest[0] + [sep] + Join(rest[1..], sep);
        }
      }
    }
  }

  lemma {:induction false} SplitNoSeparator(s: string, sep: char)
    requires sep !in s
    ensures Split(s, sep) == [s]
  {
    if s != [] {
      SplitNoSeparator(s[1..], sep);
      assert [s[0]] + s[1..] == s;
    }
  }

  lemma {:induction false} SplitTwoFields(a: string, b: string, sep: char)
    requires sep !in a && sep !in b
    ensures Split(a + [sep] + b, sep) == [a, b]
  {
    var s := a + [sep] + b;
    if a == [] {
      assert s[1..] == b;
      SplitNoSeparator(b, sep);
    } else {
      assert s[1..] == a[1..] + [sep] + b;
      SplitTwoFields(a[1..], b, sep);
      assert [a[0]] + a[1..] == a;
    }
  }

  /** `toMinutes`: the first two ':'-separated fields through `Number()`,
      hours * 60 + minutes; None stands for NaN (a field that is not digits,
      or no second field at all). */
  function ToMinutes(timeStr: string): Option<nat>
  {
    var parts := Split(timeStr, ':');
    if |parts| < 2 then None
    else
      match (JsNumber(parts[0]), JsNumber(parts[1]))
      case (Some(h), Some(m)) => Some(h * 60 + m)
      case _ => None
  }

  /** `toTimeStr`: floor(minutes / 60) and minutes % 60, each padded to two digits. */
  function ToTimeStr(minutes: nat): string
  {
    PadStart2(ToDecimal(minutes / 60)) + ":" + PadStart2(ToDecimal(minutes % 60))
  }

  /** Every count of minutes survives printing and re-reading. */
  lemma MinutesRoundTrip(n: nat)
    ensures ToMinutes(ToTimeStr(n)) == Some(n)
  {
    var hh := PadStart2(ToDecimal(n / 60));
    var mm := PadStart2(ToDecimal(n % 60));
    PaddedValue(n / 60);
    PaddedValue(n % 60);
    assert ':' !in hh && ':' !in mm by {
      assert AllDigits(hh) && AllDigits(mm);
    }
    SplitTwoFields(hh, mm, ':');
    assert ToTimeStr(n) == hh + [':'] + mm;
    assert Split(ToTimeStr(n), ':') == [hh, mm];
    assert JsNumber(hh) == Some(n / 60) && JsNumber(mm) == Some(n % 60);
    assert (n / 60) * 60 + n % 60 == n;
  }

  /** A zero-padded clock reading "HH:mm" with HH < 24 and mm < 60. */
  predicate IsClockTime(s: string)
  {
    && |s| == 5 && s[2] == ':'
    && AllDigits(s[..2]) && AllDigits(s[3..])
    && Value(s[..2]) < 24 && Value(s[3..]) < 60
  }

  /** A well-formed clock reading is read as a minute of the day and printed
      back unchanged. */
  lemma ClockRoundTrip(s: string)
    requires IsClockTime(s)
    ensures ToMinutes(s).Some? && ToMinutes(s).value < 24 * 60
    ensures ToTimeStr(ToMinutes(s).value) == s
  {
    var hh, mm := s[..2], s[3..];
    assert s == hh + [':'] + mm;
    assert ':' !in hh && ':' !in mm by {
      assert AllDigits(hh) && AllDigits(mm);
    }
    SplitTwoFields(hh, mm, ':');
    var h, m := Value(hh), Value(mm);
    var n := h * 60 + m;
    assert ToMinutes(s) == Some(n);
    assert n / 60 == h && n % 60 == m;
    TwoDigitsRoundTrip(hh);
    TwoDigitsRoundTrip(mm);
  }

  function Max(a: int, b: int): int { if a >= b then a else b }

  function Min(a: int, b: int): int { if a <= b then a else b }

  /** Start and end of a slot in minutes, when both times are numbers. */
  function SlotMinutes(t: TimeSlot): Option<(nat, nat)>
  {
    match (ToMinutes(t.startTime), ToMinutes(t.endTime))
    case (Some(s), Some(e)) => Some((s, e))
    case _ => None
  }

  /** `getIntersection`: slots on the same date whose common part is at least
      MinOverlap minutes long give that common part; otherwise null. NaN
      anywhere makes the comparison false, hence null. */
  function GetIntersection(a: TimeSlot, b: TimeSlot): (r: Option<TimeSlot>)
    ensures r.Some? ==> r.value.date == a.date && a.date == b.date
  {
    if a.date != b.date then None
    else
      match (SlotMinutes(a), SlotMinutes(b))
      case (Some((sa, ea)), Some((sb, eb))) =>
        var start := Max(sa, sb);
        var end := Min(ea, eb);
        if end - start >= MinOverlap then Some(TimeSlot(a.date, ToTimeStr(start), ToTimeStr(end)))
        else None
      case _ => None
  }

  /** The window [s, e] (in minutes) lies within both slots. */
  predicate CommonWindow(a: TimeSlot, b: TimeSlot, s: int, e: int)
  {
    && SlotMinutes(a).Some? && SlotMinutes(b).Some?
    && SlotMinutes(a).value.0 <= s && e <= SlotMinutes(a).value.1
    && SlotMinutes(b).value.0 <= s && e <= SlotMinutes(b).value.1
  }

  /** What `getIntersection` returns is a window of both slots, on their date,
      at least 30 minutes long, and it holds every other common window. */
  lemma IntersectionSound(a: TimeSlot, b: TimeSlot)
    requires GetIntersection(a, b).Some?
    ensures var r := GetIntersection(a, b).value;
      && r.date == a.date == b.date
      && SlotMinutes(r).Some?
      && CommonWindow(a, b, SlotMinutes(r).value.0, SlotMinutes(r).value.1)
      && SlotMinutes(r).value.1 - SlotMinutes(r).value.0 >= MinOverlap
      && forall s, e :: CommonWindow(a, b, s, e) ==> SlotMinutes(r).value.0 <= s && e <= SlotMinutes(r).value.1
  {
    var (sa, ea) := SlotMinutes(a).value;
    var (sb, eb) := SlotMinutes(b).value;
    MinutesRoundTrip(Max(sa, sb));
    MinutesRoundTrip(Min(ea, eb));
  }

  /** Conversely, two slots on one date that share a window of at least 30
      minutes always intersect. */
  lemma IntersectionComplete(a: TimeSlot, b: TimeSlot, s: int, e: int)
    requires a.date == b.date && CommonWindow(a, b, s, e) && e - s >= MinOverlap
    ensures GetIntersection(a, b).Some?
  {
  }

  /** The first hit of `a` against `theirs`, in order; written over any
      meeting function so that the search order can be reasoned about apart
      from the clock arithmetic. */
  function FirstWith<S>(meet: (S, S) -> Option<S>, a: S, theirs: seq<S>): Option<S>
  {
    if theirs == [] then None
    else
      var x := meet(a, theirs[0]);
      if x.Some? then x else FirstWith(meet, a, theirs[1..])
  }

  /** The first hit of the nested search: `mine` outer, `theirs` inner. */
  function FirstOfPairs<S>(meet: (S, S) -> Option<S>, mine: seq<S>, theirs: seq<S>): Option<S>
  {
    if mine == [] then None
    else
      var x := FirstWith(meet, mine[0], theirs);
      if x.Some? then x else FirstOfPairs(meet, mine[1..], theirs)
  }

  /** The first common slot: my slots in order, and for each of them the
      counterpart's slots in order; the first pair that intersects wins. */
  function FirstCommon(mine: seq<TimeSlot>, theirs: seq<TimeSlot>): Option<TimeSlot>
  {
    FirstOfPairs(GetIntersection, mine, theirs)
  }

  /** Pair (i', j') comes before (i, j) in the search order. */
  predicate Before(i': int, j': int, i: int, j: int)
  {
    i' < i || (i' == i && j' < j)
  }

  lemma {:induction false} FirstWithNone<S>(meet: (S, S) -> Option<S>, a: S, theirs: seq<S>)
    ensures FirstWith(meet, a, theirs).None? <==> forall j :: 0 <= j < |theirs| ==> meet(a, theirs[j]).None?
  {
    if theirs != [] {
      FirstWithNone(meet, a, theirs[1..]);
      assert forall j :: 1 <= j < |theirs| ==> theirs[j] == theirs[1..][j - 1];
    }
  }

  lemma {:induction false} FirstWithIs<S>(meet: (S, S) -> Option<S>, a: S, theirs: seq<S>, j: nat)
    requires j < |theirs| && meet(a, theirs[j]).Some?
    requires forall j' :: 0 <= j' < j ==> meet(a, theirs[j']).None?
    ensures FirstWith(meet, a, theirs) == meet(a, theirs[j])
  {
    if j > 0 {
      assert forall j' :: 0 <= j' < j - 1 ==> theirs[1..][j'] == theirs[j' + 1];
      FirstWithIs(meet, a, theirs[1..], j - 1);
    }
  }

  lemma {:induction false} FirstWithWitness<S>(meet: (S, S) -> Option<S>, a: S, theirs: seq<S>) returns (j: nat)
    requires FirstWith(meet, a, theirs).Some?
    ensures j < |theirs| && FirstWith(meet, a, theirs) == meet(a, theirs[j])
    ensures forall j' :: 0 <= j' < j ==> meet(a, theirs[j']).None?
  {
    if meet(a, theirs[0]).Some? {
      j := 0;
    } else {
      var j1 := FirstWithWitness(meet, a, theirs[1..]);
      j := j1 + 1;
      assert forall j' :: 1 <= j' < j ==> theirs[j'] == theirs[1..][j' - 1];
    }
  }

  /** The nested search finds nothing exactly when no pair meets. */
  lemma {:induction false} FirstOfPairsNone<S>(meet: (S, S) -> Option<S>, mine: seq<S>, theirs: seq<S>)
    ensures FirstOfPairs(meet, mine, theirs).None? <==>
      forall i, j :: 0 <= i < |mine| && 0 <= j < |theirs| ==> meet(mine[i], theirs[j]).None?
  {
    if mine != [] {
      FirstWithNone(meet, mine[0], theirs);
      FirstOfPairsNone(meet, mine[1..], theirs);
      assert forall i :: 1 <= i < |mine| ==> mine[i] == mine[1..][i - 1];
    }
  }

  /** The nested search returns the hit of the first pair, in outer-then-inner
      order, that meets. */
  lemma {:induction false} FirstOfPairsIs<S>(meet: (S, S) -> Option<S>, mine: seq<S>, theirs: seq<S>, i: nat, j: nat)
    requires i < |mine| && j < |theirs| && meet(mine[i], theirs[j]).Some?
    requires forall i', j' :: 0 <= i' < |mine| && 0 <= j' < |theirs| && Before(i', j', i, j) ==>
      meet(mine[i'], theirs[j']).None?
    ensures FirstOfPairs(meet, mine, theirs) == meet(mine[i], theirs[j])
  {
    if i == 0 {
      assert forall j' :: 0 <= j' < j ==> Before(0, j', i, j);
      FirstWithIs(meet, mine[0], theirs, j);
    } else {
      assert forall j' :: 0 <= j' < |theirs| ==> Before(0, j', i, j);
      FirstWithNone(meet, mine[0], theirs);
      forall i', j' | 0 <= i' < |mine[1..]| && 0 <= j' < |theirs| && Before(i', j', i - 1, j)
        ensures meet(mine[1..][i'], theirs[j']).None?
      {
        assert Before(i' + 1, j', i, j);
      }
      FirstOfPairsIs(meet, mine[1..], theirs, i - 1, j);
    }
  }

  /** A hit of the nested search is the hit of some pair with every earlier
      pair missing. */
  lemma {:induction false} FirstOfPairsWitness<S>(meet: (S, S) -> Option<S>, mine: seq<S>, theirs: seq<S>)
    returns (i: nat, j: nat)
    requires FirstOfPairs(meet, mine, theirs).Some?
    ensures i < |mine| && j < |theirs|
    ensures FirstOfPairs(meet, mine, theirs) == meet(mine[i], theirs[j])
    ensures forall i', j' :: 0 <= i' < |mine| && 0 <= j' < |theirs| && Before(i', j', i, j) ==>
      meet(mine[i'], theirs[j']).None?
  {
    FirstWithNone(meet, mine[0], theirs);
    if FirstWith(meet, mine[0], theirs).Some? {
      i := 0;
      j := FirstWithWitness(meet, mine[0], theirs);
    } else {
      var i1, j1 := FirstOfPairsWitness(meet, mine[1..], theirs);
      i, j := i1 + 1, j1;
      forall i', j' | 0 <= i' < |mine| && 0 <= j' < |theirs| && Before(i', j', i, j)
        ensures meet(mine[i'], theirs[j']).None?
      {
        if i' > 0 {
          assert mine[i'] == mine[1..][i' - 1] && Before(i' - 1, j', i1, j1);
        }
      }
    }
  }

  /** A common slot, when one is found, is a window of at least 30 minutes
      inside a slot of mine and a slot of theirs on the same date, and every
      earlier pair in the search order had none. */
  lemma FirstCommonFound(mine: seq<TimeSlot>, theirs: seq<TimeSlot>) returns (i: nat, j: nat)
    requires FirstCommon(mine, theirs).Some?
    ensures i < |mine| && j < |theirs|
    ensures FirstCommon(mine, theirs) == GetIntersection(mine[i], theirs[j])
    ensures var c := FirstCommon(mine, theirs).value;
      && c.date == mine[i].date == theirs[j].date
      && SlotMinutes(c).Some?
      && CommonWindow(mine[i], theirs[j], SlotMinutes(c).value.0, SlotMinutes(c).value.1)
      && SlotMinutes(c).value.1 - SlotMinutes(c).value.0 >= MinOverlap
    ensures forall i', j' :: 0 <= i' < |mine| && 0 <= j' < |theirs| && Before(i', j', i, j) ==>
      GetIntersection(mine[i'], theirs[j']).None?
  {
    i, j := FirstOfPairsWitness(GetIntersection, mine, theirs);
    IntersectionSound(mine[i], theirs[j]);
  }

  /** No common slot is found exactly when no pair of slots intersects. */
  lemma FirstCommonNone(mine: seq<TimeSlot>, theirs: seq<TimeSlot>)
    ensures FirstCommon(mine, theirs).None? <==>
      forall i, j :: 0 <= i < |mine| && 0 <= j < |theirs| ==> GetIntersection(mine[i], theirs[j]).None?
  {
    FirstOfPairsNone(GetIntersection, mine, theirs);
  }

  /** The nested loop with `break` that looks for the first common slot;
      `meet` is the intersection test (GetIntersection at its one call site). */
  method FindFirstCommonSlot<S>(meet: (S, S) -> Option<S>, mine: seq<S>, theirs: seq<S>) returns (first: Option<S>)
    ensures first == FirstOfPairs(meet, mine, theirs)
  {
    first := None;
    var i := 0;
    while i < |mine|
      invariant 0 <= i <= |mine|
      invariant first.None?
      invariant forall i', j' :: 0 <= i' < i && 0 <= j' < |theirs| ==> meet(mine[i'], theirs[j']).None?
    {
      var j := 0;
      while j < |theirs|
        invariant 0 <= j <= |theirs|
        invariant first.None?
        invariant forall j' :: 0 <= j' < j ==> meet(mine[i], theirs[j']).None?
      {
        var intersected := meet(mine[i], theirs[j]);
        if intersected.Some? {
          first := intersected;
          FirstOfPairsIs(meet, mine, theirs, i, j);
          break;
        }
        j := j + 1;
      }
      if first.Some? {
        break;
      }
      i := i + 1;
    }
    if first.None? {
      FirstOfPairsNone(meet, mine, theirs);
    }
  }
}
