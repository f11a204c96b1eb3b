/**
 The serial number of the generated DNS zones: the day of the last change of the
 configuration, followed by a two-digit number kept in a sequence file (the form
 recommended in section 2.2 of RFC 1912).
 */
module ZoneSerial {
  import opened Lists

  /** The sequence file: its number, when it can be read as one, and its modification time. */
  datatype Sequence = Absent | Present(number: Option<int>, mtime: int)

  /** The day of a time as YYYYMMDD; later times are not on earlier days. */
  type Calendar = int -> nat

  ghost predicate Monotone(ymd: Calendar) { forall a, b :: a <= b ==> ymd(a) <= ymd(b) }

  /** What one rendering leaves in the file, and the two-digit number it uses. */
  function Step(file: Sequence, time: int, ymd: Calendar): (Sequence, int) {
    var n := if file.Present? && file.number.Some? then file.number.value else 0;
    var last := if file.Present? then file.mtime else time - 1;
    if time > last then
      var next := (if ymd(time) == ymd(last) then n + 1 else 0) % 100;
      (Present(Some(next), time), next)
    else (file, n)
  }

  /** The serial as a number. */
  function Serial(day: nat, number: int): int { 100 * day + number }

  class Zone {
    var file: Sequence

    /**
     One rendering at which the configuration was last modified at `time`. The serial is that of
     the file exactly when there was no change since, and lower exactly after the day's hundredth.
     */
    method Render(time: int, ymd: Calendar, writable: bool) returns (day: nat, number: int)
      modifies this
      ensures day == ymd(time) && number == Step(old(file), time, ymd).1
      ensures file == if writable then Step(old(file), time, ymd).0 else old(file)
      ensures old(file).Absent? ==> number == (if ymd(time - 1) == day then 1 else 0)
      ensures old(file).Present? && time <= old(file).mtime ==>
        file == old(file) && number == (if old(file).number.Some? then old(file).number.value else 0)
      ensures old(file).Present? && time > old(file).mtime ==>
        number == if ymd(old(file).mtime) != day then 0
                  else ((if old(file).number.Some? then old(file).number.value else 0) + 1) % 100
      ensures old(file).Absent? || time > old(file).mtime ==>
        file == if writable then Present(Some(number), time) else old(file)
      ensures forall n, last :: old(file) == Present(Some(n), last) && 0 <= n < 100 && last <= time && Monotone(ymd) ==>
        0 <= number < 100 && (Serial(day, number) == Serial(ymd(last), n) <==> time == last) &&
        (Serial(day, number) < Serial(ymd(last), n) <==> time > last && day == ymd(last) && n == 99)
    {
      day := ymd(time);
      number := 0;
      var last: int;
      if file.Present? {
        last := file.mtime;
        if file.number.Some? { number := file.number.value; }
      } else {
        last := time - 1;
      }
      if time > last {
        if day == ymd(last) {
          number := number + 1;
        } else {
          number := 0;
        }
        number := number % 100;
        if writable { file := Present(Some(number), time); }
      }
    }
  }

  /**
   One change of the configuration raises the serial unless it is the hundredth of its day;
   rendering again without a change repeats it.
   */
  lemma StepRaises(number: int, last: int, time: int, ymd: Calendar)
    requires Monotone(ymd) && 0 <= number < 100 && last <= time
    ensures var (file, next) := Step(Present(Some(number), last), time, ymd);
      file == Present(Some(next), time) && 0 <= next < 100 &&
      (Serial(ymd(time), next) == Serial(ymd(last), number) <==> time == last) &&
      (Serial(ymd(time), next) < Serial(ymd(last), number) <==>
        time > last && ymd(time) == ymd(last) && number == 99)
  {
    assert ymd(last) <= ymd(time);
  }

  // ---------------------------------------------------------------- renderings that are all written

  /** The file after the first `k` renderings, starting without a file, when each is written. */
  ghost function FileAfter(times: seq<int>, k: nat, ymd: Calendar): Sequence
    requires k <= |times|
  {
    if k == 0 then Absent else Step(FileAfter(times, k - 1, ymd), times[k - 1], ymd).0
  }

  ghost function NumberAt(times: seq<int>, i: nat, ymd: Calendar): int
    requires i < |times|
  {
    Step(FileAfter(times, i, ymd), times[i], ymd).1
  }

  ghost function SerialAt(times: seq<int>, i: nat, ymd: Calendar): int
    requires i < |times|
  {
    Serial(ymd(times[i]), NumberAt(times, i, ymd))
  }

  ghost predicate Nondecreasing(times: seq<int>) {
    forall i, j :: 0 <= i <= j < |times| ==> times[i] <= times[j]
  }

  /** The different times up to rendering `i` that fall on its day. */
  ghost function DayTimes(times: seq<int>, i: nat, ymd: Calendar): set<int>
    requires i < |times|
  {
    set k | 0 <= k <= i && ymd(times[k]) == ymd(times[i]) :: times[k]
  }

  /** The first rendering counts one too many unless it falls on the first second of its day. */
  ghost function Extra(times: seq<int>, i: nat, ymd: Calendar): nat
    requires i < |times|
  {
    if ymd(times[i]) == ymd(times[0]) && ymd(times[0] - 1) == ymd(times[0]) then 1 else 0
  }

  lemma SameDayStep(times: seq<int>, i: nat, ymd: Calendar)
    requires 0 < i < |times| && ymd(times[i]) == ymd(times[i - 1])
    ensures DayTimes(times, i, ymd) == DayTimes(times, i - 1, ymd) + {times[i]}
  {
    var now, before := DayTimes(times, i, ymd), DayTimes(times, i - 1, ymd);
    forall x | x in now ensures x in before || x == times[i] {
      var k :| 0 <= k <= i && ymd(times[k]) == ymd(times[i]) && x == times[k];
    }
    forall x | x in before ensures x in now {
      var k :| 0 <= k <= i - 1 && ymd(times[k]) == ymd(times[i - 1]) && x == times[k];
    }
  }

  lemma DayTimesStep(times: seq<int>, i: nat, ymd: Calendar)
    requires Monotone(ymd) && Nondecreasing(times) && 0 < i < |times|
    ensures times[i] == times[i - 1] ==> DayTimes(times, i, ymd) == DayTimes(times, i - 1, ymd)
    ensures times[i] != times[i - 1] && ymd(times[i]) == ymd(times[i - 1]) ==>
      |DayTimes(times, i, ymd)| == |DayTimes(times, i - 1, ymd)| + 1
    ensures ymd(times[i]) != ymd(times[i - 1]) ==> DayTimes(times, i, ymd) == {times[i]}
  {
    assert times[i - 1] <= times[i];
    if ymd(times[i]) == ymd(times[i - 1]) {
      SameDayStep(times, i, ymd);
      assert times[i - 1] in DayTimes(times, i - 1, ymd);
      if times[i] != times[i - 1] {
        assert times[i] !in DayTimes(times, i - 1, ymd);
      }
    } else {
      forall k | 0 <= k < i ensures ymd(times[k]) != ymd(times[i]) {
        assert times[k] <= times[i - 1];
        assert ymd(times[k]) <= ymd(times[i - 1]) <= ymd(times[i]);
      }
    }
  }

  lemma {:induction false} CountWritten(times: seq<int>, i: nat, ymd: Calendar)
    requires Monotone(ymd) && Nondecreasing(times) && i < |times|
    ensures NumberAt(times, i, ymd) == (|DayTimes(times, i, ymd)| - 1 + Extra(times, i, ymd)) % 100
    ensures FileAfter(times, i + 1, ymd) == Present(Some(NumberAt(times, i, ymd)), times[i])
  {
    if i == 0 {
      assert DayTimes(times, 0, ymd) == {times[0]};
    } else {
      CountWritten(times, i - 1, ymd);
      DayTimesStep(times, i, ymd);
      assert times[i - 1] <= times[i];
      assert ymd(times[0]) <= ymd(times[i - 1]) <= ymd(times[i]);
      var c := |DayTimes(times, i - 1, ymd)| - 1 + Extra(times, i - 1, ymd);
      assert (c % 100 + 1) % 100 == (c + 1) % 100;
    }
  }

  lemma {:induction false} DayGrows(times: seq<int>, i: nat, j: nat, ymd: Calendar)
    requires Monotone(ymd) && Nondecreasing(times) && i <= j < |times|
    requires ymd(times[i]) == ymd(times[j])
    ensures |DayTimes(times, i, ymd)| <= |DayTimes(times, j, ymd)|
    ensures times[i] < times[j] ==> |DayTimes(times, i, ymd)| < |DayTimes(times, j, ymd)|
  {
    if i < j {
      assert ymd(times[i]) <= ymd(times[j - 1]) <= ymd(times[j]);
      DayGrows(times, i, j - 1, ymd);
      DayTimesStep(times, j, ymd);
    }
  }

  /** The day of rendering `i` has had room for all its changes. */
  ghost predicate Roomy(times: seq<int>, i: nat, ymd: Calendar)
    requires i < |times|
  {
    |DayTimes(times, i, ymd)| + Extra(times, i, ymd) <= 100
  }

  /** The first rendering without room follows one whose number was 99. */
  lemma {:induction false} FirstCrowded(times: seq<int>, i: nat, ymd: Calendar) returns (k: nat)
    requires Monotone(ymd) && Nondecreasing(times) && i < |times| && !Roomy(times, i, ymd)
    ensures 0 < k <= i && times[k - 1] < times[k] && SerialAt(times, k, ymd) < SerialAt(times, k - 1, ymd)
  {
    assert Roomy(times, 0, ymd) by {
      assert DayTimes(times, 0, ymd) == {times[0]};
    }
    if !Roomy(times, i - 1, ymd) {
      k := FirstCrowded(times, i - 1, ymd);
    } else {
      DayTimesStep(times, i, ymd);
      assert times[i - 1] <= times[i];
      CountWritten(times, i - 1, ymd);
      CountWritten(times, i, ymd);
      k := i;
    }
  }

  lemma SerialOrder(times: seq<int>, i: nat, j: nat, ymd: Calendar)
    requires Monotone(ymd) && Nondecreasing(times) && i < j < |times|
    requires Roomy(times, i, ymd) && Roomy(times, j, ymd)
    ensures times[i] < times[j] ==> SerialAt(times, i, ymd) < SerialAt(times, j, ymd)
  {
    CountWritten(times, i, ymd);
    CountWritten(times, j, ymd);
    assert ymd(times[i]) <= ymd(times[j]);
    if ymd(times[i]) == ymd(times[j]) {
      DayGrows(times, i, j, ymd);
      assert times[i] in DayTimes(times, i, ymd);
    }
  }

  // ---------------------------------------------------------------- whole runs

  /** A rendering, and whether it can write the sequence file; a failure to write is ignored. */
  datatype Rendering = Rendering(time: int, writable: bool)

  /** The file before rendering `k`, starting without a file. */
  ghost function FileBefore(run: seq<Rendering>, k: nat, ymd: Calendar): Sequence
    requires k <= |run|
  {
    if k == 0 then Absent
    else
      var before := FileBefore(run, k - 1, ymd);
      if run[k - 1].writable then Step(before, run[k - 1].time, ymd).0 else before
  }

  ghost function SerialOf(run: seq<Rendering>, i: nat, ymd: Calendar): int
    requires i < |run|
  {
    Serial(ymd(run[i].time), Step(FileBefore(run, i, ymd), run[i].time, ymd).1)
  }

  ghost predicate InOrder(run: seq<Rendering>) {
    forall i, j :: 0 <= i <= j < |run| ==> run[i].time <= run[j].time
  }

  /** The times of those of the first `k` renderings that were written. */
  ghost function Writes(run: seq<Rendering>, k: nat): (r: seq<int>)
    requires k <= |run|
    ensures |r| <= k
    ensures forall x :: x in r ==> exists j :: 0 <= j < k && run[j].writable && run[j].time == x
  {
    if k == 0 then []
    else Writes(run, k - 1) + if run[k - 1].writable then [run[k - 1].time] else []
  }

  /** What rendering `i` depends on: the written times before it, and its own. */
  ghost function History(run: seq<Rendering>, i: nat): (r: seq<int>)
    requires i < |run|
    ensures |r| == |Writes(run, i)| + 1 && r[|r| - 1] == run[i].time
  {
    Writes(run, i) + [run[i].time]
  }

  lemma {:induction false} FilePrefix(a: seq<int>, b: seq<int>, k: nat, ymd: Calendar)
    requires k <= |a|
    ensures FileAfter(a + b, k, ymd) == FileAfter(a, k, ymd)
  {
    if k != 0 {
      FilePrefix(a, b, k - 1, ymd);
      assert (a + b)[k - 1] == a[k - 1];
    }
  }

  lemma {:induction false} FileIsWritten(run: seq<Rendering>, k: nat, ymd: Calendar)
    requires k <= |run|
    ensures FileBefore(run, k, ymd) == FileAfter(Writes(run, k), |Writes(run, k)|, ymd)
  {
    if k != 0 {
      hide Step;
      FileIsWritten(run, k - 1, ymd);
      var before := Writes(run, k - 1);
      if run[k - 1].writable {
        FilePrefix(before, [run[k - 1].time], |before|, ymd);
        assert Writes(run, k) == before + [run[k - 1].time] && Writes(run, k)[|before|] == run[k - 1].time;
      } else {
        assert Writes(run, k) == before;
      }
    }
  }

  /** Renderings that could not be written leave no trace. */
  lemma SerialIsHistory(run: seq<Rendering>, i: nat, ymd: Calendar)
    requires i < |run|
    ensures SerialOf(run, i, ymd) == SerialAt(History(run, i), |Writes(run, i)|, ymd)
  {
    hide Step;
    FileIsWritten(run, i, ymd);
    FilePrefix(Writes(run, i), [run[i].time], |Writes(run, i)|, ymd);
  }

  lemma {:induction false} WritesGrow(run: seq<Rendering>, k: nat, i: nat)
    requires k < i <= |run| && run[k].writable
    ensures History(run, k) <= Writes(run, i)
  {
    if k < i - 1 {
      WritesGrow(run, k, i - 1);
    }
  }

  /** In the history of a later rendering a written one keeps its serial. */
  lemma SerialInHistory(run: seq<Rendering>, k: nat, i: nat, ymd: Calendar)
    requires k < i < |run| && run[k].writable
    ensures History(run, k) < History(run, i)
    ensures SerialAt(History(run, i), |Writes(run, k)|, ymd) == SerialOf(run, k, ymd)
  {
    hide Step, Writes;
    WritesGrow(run, k, i);
    SerialIsHistory(run, k, ymd);
    var h := History(run, k);
    var rest := History(run, i)[|h|..];
    assert History(run, i) == h + rest;
    FilePrefix(h, rest, |Writes(run, k)|, ymd);
  }

  lemma {:induction false} WriterOf(run: seq<Rendering>, i: nat, p: nat) returns (k: nat)
    requires i <= |run| && p < |Writes(run, i)|
    ensures k < i && run[k].writable && |Writes(run, k)| == p && run[k].time == Writes(run, i)[p]
  {
    if p < |Writes(run, i - 1)| {
      k := WriterOf(run, i - 1, p);
    } else {
      k := i - 1;
    }
  }

  lemma LaterInOrder(run: seq<Rendering>, k: nat)
    requires InOrder(run) && k < |run| && Nondecreasing(Writes(run, k))
    ensures Nondecreasing(History(run, k))
  {
    var h, last := History(run, k), |Writes(run, k)|;
    forall i, j | 0 <= i <= j < |h| ensures h[i] <= h[j] {
      if i < last == j {
        assert h[i] == Writes(run, k)[i] && h[i] in Writes(run, k);
      } else if j < last {
        assert h[i] == Writes(run, k)[i] && h[j] == Writes(run, k)[j];
      }
    }
  }

  lemma {:induction false} HistoryInOrder(run: seq<Rendering>, i: nat)
    requires InOrder(run) && i < |run|
    ensures Nondecreasing(History(run, i))
  {
    if i != 0 {
      HistoryInOrder(run, i - 1);
      assert Writes(run, i) == History(run, i - 1) || Writes(run, i) == History(run, i - 1)[..|Writes(run, i - 1)|];
    }
    LaterInOrder(run, i);
  }

  /** The times that rendering `i` counts: those of its day written before it, and its own. */
  ghost function Counted(run: seq<Rendering>, i: nat, ymd: Calendar): set<int>
    requires i < |run|
  {
    DayTimes(History(run, i), |Writes(run, i)|, ymd)
  }

  ghost function ExtraOf(run: seq<Rendering>, i: nat, ymd: Calendar): nat
    requires i < |run|
  {
    Extra(History(run, i), |Writes(run, i)|, ymd)
  }

  /** The number is how many different times of the day count, from 0 or 1, modulo 100. */
  lemma NumberIsCount(run: seq<Rendering>, i: nat, ymd: Calendar)
    requires Monotone(ymd) && InOrder(run) && i < |run|
    ensures SerialOf(run, i, ymd) ==
      Serial(ymd(run[i].time), (|Counted(run, i, ymd)| - 1 + ExtraOf(run, i, ymd)) % 100)
  {
    HistoryInOrder(run, i);
    SerialIsHistory(run, i, ymd);
    CountWritten(History(run, i), |Writes(run, i)|, ymd);
  }

  ghost predicate RoomFor(run: seq<Rendering>, i: nat, ymd: Calendar)
    requires i < |run|
  {
    |Counted(run, i, ymd)| + ExtraOf(run, i, ymd) <= 100
  }

  ghost predicate SameDay(a: int, b: int, ymd: Calendar) { ymd(a) == ymd(b) }

  /** The same day sees a later time. */
  ghost predicate Outlived(run: seq<Rendering>, i: nat, ymd: Calendar)
    requires i < |run|
  {
    exists j :: 0 <= j < |run| && run[i].time < run[j].time && SameDay(run[i].time, run[j].time, ymd)
  }

  /** Some rendering at the time of rendering `i` was written. */
  ghost predicate Saved(run: seq<Rendering>, i: nat)
    requires i < |run|
  {
    exists k :: 0 <= k < |run| && run[k].writable && run[k].time == run[i].time
  }

  /** The first second of a day, with nothing written up to it: number 0, and the next time has 1. */
  ghost predicate FreshDay(run: seq<Rendering>, i: nat, ymd: Calendar)
    requires i < |run|
  {
    && !SameDay(run[i].time - 1, run[i].time, ymd)
    && forall k :: 0 <= k < |run| && run[k].writable ==> run[i].time < run[k].time
  }

  ghost predicate Remembered(run: seq<Rendering>, i: nat, ymd: Calendar)
    requires i < |run|
  {
    Outlived(run, i, ymd) ==> Saved(run, i) || FreshDay(run, i, ymd)
  }

  ghost predicate Rising(run: seq<Rendering>, ymd: Calendar) {
    forall i, j :: 0 <= i < j < |run| && run[i].time < run[j].time ==> SerialOf(run, i, ymd) < SerialOf(run, j, ymd)
  }

  /** Rendering again at the same time repeats the serial, written or not. */
  lemma {:induction false} SerialRepeats(run: seq<Rendering>, i: nat, j: nat, ymd: Calendar)
    requires InOrder(run) && i <= j < |run| && run[i].time == run[j].time
    ensures SerialOf(run, i, ymd) == SerialOf(run, j, ymd)
  {
    if i < j {
      assert run[i].time <= run[j - 1].time <= run[j].time;
      SerialRepeats(run, i, j - 1, ymd);
    }
  }

  lemma {:induction false} FileUnwritten(run: seq<Rendering>, i: nat, k: nat, ymd: Calendar)
    requires i <= k <= |run| && forall m :: i <= m < k ==> !run[m].writable
    ensures FileBefore(run, k, ymd) == FileBefore(run, i, ymd)
  {
    if i < k {
      FileUnwritten(run, i, k - 1, ymd);
    }
  }

  /** The file is that of the last written rendering. */
  lemma {:induction false} FileFromWrite(run: seq<Rendering>, k: nat, ymd: Calendar)
    requires InOrder(run) && k <= |run|
    ensures var f := FileBefore(run, k, ymd);
      if f.Absent? then forall j :: 0 <= j < k ==> !run[j].writable
      else f.number.Some? && exists j :: 0 <= j < k && run[j].writable && run[j].time == f.mtime
  {
    if k != 0 {
      FileFromWrite(run, k - 1, ymd);
      if run[k - 1].writable {
        var f := FileBefore(run, k - 1, ymd);
        assert f.Present? ==> f.mtime <= run[k - 1].time;
        assert FileBefore(run, k, ymd).mtime == run[k - 1].time;
      }
    }
  }

  /** A change that is not remembered is given to the next change of the day again. */
  lemma ForgottenRepeats(run: seq<Rendering>, i: nat, ymd: Calendar) returns (k: nat)
    requires Monotone(ymd) && InOrder(run) && i < |run| && !Remembered(run, i, ymd)
    ensures i < k < |run| && run[i].time < run[k].time && SerialOf(run, i, ymd) == SerialOf(run, k, ymd)
  {
    var t := run[i].time;
    var j :| 0 <= j < |run| && t < run[j].time && SameDay(t, run[j].time, ymd);
    assert i < j;
    k := i + 1;
    while run[k].time == t
      invariant i < k <= j && forall m :: i <= m < k ==> run[m].time == t
      decreases j - k
    {
      k := k + 1;
    }
    assert ymd(t) <= ymd(run[k].time) <= ymd(run[j].time);
    FileUnwritten(run, i, k, ymd);
    FileFromWrite(run, i, ymd);
    var f := FileBefore(run, i, ymd);
    if f.Present? {
      var w :| 0 <= w < i && run[w].writable && run[w].time == f.mtime;
      assert f.mtime < t;
    } else {
      forall w | 0 <= w < |run| && run[w].writable ensures t < run[w].time {
        assert i <= w;
      }
      assert SameDay(t - 1, t, ymd);
      assert ymd(t) <= ymd(run[k].time - 1) <= ymd(run[k].time);
    }
  }

  /** A rendering without room lies behind one whose number was 99. */
  lemma CrowdedFalls(run: seq<Rendering>, i: nat, ymd: Calendar)
    requires Monotone(ymd) && InOrder(run) && i < |run| && !RoomFor(run, i, ymd)
    ensures !Rising(run, ymd)
  {
    hide SerialAt, History, Writes, SerialOf, Step;
    var h, last := History(run, i), |Writes(run, i)|;
    HistoryInOrder(run, i);
    var p := FirstCrowded(h, last, ymd);
    var a := InHistory(run, i, p - 1, ymd);
    var b := InHistory(run, i, p, ymd);
    assert run[a].time < run[b].time;
    assert a < b;
  }

  lemma InHistory(run: seq<Rendering>, i: nat, p: nat, ymd: Calendar) returns (k: nat)
    requires i < |run| && p <= |Writes(run, i)|
    ensures k <= i && History(run, i)[p] == run[k].time && SerialAt(History(run, i), p, ymd) == SerialOf(run, k, ymd)
  {
    hide SerialAt, SerialOf;
    if p == |Writes(run, i)| {
      k := i;
      SerialIsHistory(run, i, ymd);
    } else {
      k := WriterOf(run, i, p);
      SerialInHistory(run, k, i, ymd);
    }
  }

  lemma SavedRises(run: seq<Rendering>, i: nat, j: nat, ymd: Calendar)
    requires Monotone(ymd) && InOrder(run) && i < j < |run| && run[i].time < run[j].time && Saved(run, i)
    requires forall k :: 0 <= k < |run| ==> RoomFor(run, k, ymd)
    ensures SerialOf(run, i, ymd) < SerialOf(run, j, ymd)
  {
    hide SerialAt, SerialOf, Writes, History, Extra, DayTimes;
    var k :| 0 <= k < |run| && run[k].writable && run[k].time == run[i].time;
    assert k < j;
    if i <= k { SerialRepeats(run, i, k, ymd); } else { SerialRepeats(run, k, i, ymd); }
    SerialInHistory(run, k, j, ymd);
    SerialIsHistory(run, j, ymd);
    HistoryInOrder(run, j);
    var h, p := History(run, j), |Writes(run, k)|;
    assert h[p] == History(run, k)[p] == run[k].time;
    assert RoomFor(run, k, ymd) && RoomFor(run, j, ymd);
    RoomyPrefix(History(run, k), h, p, ymd);
    SerialOrder(h, p, |Writes(run, j)|, ymd);
  }

  lemma RoomyPrefix(g: seq<int>, h: seq<int>, p: nat, ymd: Calendar)
    requires g <= h && p < |g|
    ensures Roomy(g, p, ymd) <==> Roomy(h, p, ymd)
  {
    assert forall k :: 0 <= k <= p ==> g[k] == h[k];
    assert DayTimes(g, p, ymd) == DayTimes(h, p, ymd);
  }

  lemma FreshRises(run: seq<Rendering>, i: nat, j: nat, ymd: Calendar)
    requires Monotone(ymd) && InOrder(run) && i < j < |run| && run[i].time < run[j].time && FreshDay(run, i, ymd)
    requires SameDay(run[i].time, run[j].time, ymd) && RoomFor(run, j, ymd)
    ensures SerialOf(run, i, ymd) < SerialOf(run, j, ymd)
  {
    FileFromWrite(run, i, ymd);
    assert FileBefore(run, i, ymd).Absent?;
    var h := History(run, j);
    NumberIsCount(run, j, ymd);
    HistoryInOrder(run, j);
    assert h[0] <= h[|h| - 1];
    assert run[i].time < h[0] by {
      if |h| > 1 { assert h[0] == Writes(run, j)[0] && h[0] in Writes(run, j); }
    }
    assert ymd(run[i].time) <= ymd(h[0] - 1) <= ymd(h[0]) <= ymd(run[j].time);
    assert run[j].time in Counted(run, j, ymd);
  }

  /**
   Over a whole run from no file, with renderings of which any may fail to write the file:
   every change of the configuration raises the serial exactly when no rendering counts more
   than 100 different times of its day, or 99 on the day of the first written one, and every
   time followed by a later one of its day was written by some rendering, or was the first
   second of its day with nothing written before. Renderings without a change always repeat it.
   */
  lemma SerialsRiseIff(run: seq<Rendering>, ymd: Calendar)
    requires Monotone(ymd) && InOrder(run)
    ensures Rising(run, ymd) <==>
      forall i :: 0 <= i < |run| ==> RoomFor(run, i, ymd) && Remembered(run, i, ymd)
    ensures forall i, j :: 0 <= i < j < |run| && run[i].time == run[j].time ==>
      SerialOf(run, i, ymd) == SerialOf(run, j, ymd)
  {
    hide RoomFor, Saved, FreshDay, SerialOf;
    forall i, j | 0 <= i < j < |run| && run[i].time == run[j].time
      ensures SerialOf(run, i, ymd) == SerialOf(run, j, ymd)
    {
      SerialRepeats(run, i, j, ymd);
    }
    if forall i :: 0 <= i < |run| ==> RoomFor(run, i, ymd) && Remembered(run, i, ymd) {
      forall i, j | 0 <= i < j < |run| && run[i].time < run[j].time
        ensures SerialOf(run, i, ymd) < SerialOf(run, j, ymd)
      {
        ChangeRises(run, i, j, ymd);
      }
    } else {
      var i :| 0 <= i < |run| && !(RoomFor(run, i, ymd) && Remembered(run, i, ymd));
      if !RoomFor(run, i, ymd) {
        CrowdedFalls(run, i, ymd);
      } else {
        var k := ForgottenRepeats(run, i, ymd);
      }
    }
  }

  lemma ChangeRises(run: seq<Rendering>, i: nat, j: nat, ymd: Calendar)
    requires Monotone(ymd) && InOrder(run) && i < j < |run| && run[i].time < run[j].time
    requires forall k :: 0 <= k < |run| ==> RoomFor(run, k, ymd)
    requires Remembered(run, i, ymd)
    ensures SerialOf(run, i, ymd) < SerialOf(run, j, ymd)
  {
    hide RoomFor, Saved, FreshDay, SerialOf, Counted, ExtraOf;
    if !SameDay(run[i].time, run[j].time, ymd) {
      NumberIsCount(run, i, ymd);
      NumberIsCount(run, j, ymd);
      assert ymd(run[i].time) <= ymd(run[j].time);
    } else if Saved(run, i) {
      SavedRises(run, i, j, ymd);
    } else {
      assert Outlived(run, i, ymd);
      FreshRises(run, i, j, ymd);
    }
  }

  /** Two changes on one day, neither of which can be written, get the same serial. */
  lemma LostWriteRepeats(t: int, ymd: Calendar)
    requires Monotone(ymd) && ymd(t) == ymd(t + 2)
    ensures var run := [Rendering(t, true), Rendering(t + 1, false), Rendering(t + 2, false)];
      InOrder(run) && !Remembered(run, 1, ymd) && SerialOf(run, 1, ymd) == SerialOf(run, 2, ymd)
  {
    var run := [Rendering(t, true), Rendering(t + 1, false), Rendering(t + 2, false)];
    assert ymd(t) <= ymd(t + 1) <= ymd(t + 2);
    assert FileBefore(run, 1, ymd) == FileBefore(run, 2, ymd) == FileBefore(run, 1, ymd);
    assert Outlived(run, 1, ymd) by { assert SameDay(run[1].time, run[2].time, ymd); }
    assert run[0].writable;
  }
}
