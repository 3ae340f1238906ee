/**
 `Iterator.zip`: stepping several iterators in parallel, row by row, and closing those left open
 when it ends, in whichever way.
 */
module IteratorZip {
  import opened Options

  /** An iterator: the values it has, whether it then throws instead of ending, and whether closing it throws. */
  datatype Source<V> = Source(values: seq<V>, throws: bool, closeThrows: bool)

  datatype Mode = Shortest | Longest | Strict

  datatype Config<V> = Config(sources: seq<Source<V>>, mode: Mode, padding: seq<V>)

  /** The padding has been read in mode "longest" only. */
  predicate Configured<V>(c: Config<V>) {
    c.mode.Longest? ==> |c.padding| == |c.sources|
  }

  /** What has been done with the iterators: stepping one gave a value, ended it or threw; or it was closed. */
  datatype Event = GaveValue(i: nat) | Ended(i: nat) | Threw(i: nat) | Closed(i: nat)

  datatype State = SuspendedStart | SuspendedYield | Executing | Completed

  /** The helper: how far each iterator is, which have neither ended nor thrown, and all that has been done. */
  datatype Helper = Helper(state: State, pos: seq<nat>, open: seq<bool>, trace: seq<Event>)

  datatype Failure = FromIterator(i: nat) | FromClosing(i: nat) | DifferentLengths | AlreadyRunning

  datatype Outcome<V> = Row(values: seq<V>) | Done | Throws(failure: Failure)

  datatype Result<V> = Result(helper: Helper, outcome: Outcome<V>)

  // ---------------------------------------------------------------------------------------
  // Closing

  /** Closing the open iterators, last first. */
  function CloseAll(open: seq<bool>): (r: seq<Event>) {
    if open == [] then []
    else
      var n := |open| - 1;
      (if open[n] then [Closed(n)] else []) + CloseAll(open[..n])
  }

  /** The first failure of closing, in that order. */
  function CloseFailure<V>(c: Config<V>, open: seq<bool>): Option<Failure>
    requires |open| <= |c.sources|
  {
    if open == [] then None
    else
      var n := |open| - 1;
      if open[n] && c.sources[n].closeThrows then Some(FromClosing(n)) else CloseFailure(c, open[..n])
  }

  function Shut<V>(c: Config<V>, h: Helper, failure: Option<Failure>): Result<V>
    requires |h.open| == |c.sources|
  {
    var f := if failure.Some? then failure else CloseFailure(c, h.open);
    Result(h.(state := Completed, trace := h.trace + CloseAll(h.open)), if f.Some? then Throws(f.value) else Done)
  }

  // ---------------------------------------------------------------------------------------
  // Stepping

  predicate Fits<V>(c: Config<V>, h: Helper) {
    |h.pos| == |h.open| == |c.sources|
  }

  function Gave(h: Helper, i: nat): Helper
    requires i < |h.pos|
  {
    h.(pos := h.pos[i := h.pos[i] + 1], trace := h.trace + [GaveValue(i)])
  }

  function Stopped(h: Helper, i: nat, e: Event): Helper
    requires i < |h.open|
  {
    h.(open := h.open[i := false], trace := h.trace + [e])
  }

  predicate Ready<V>(c: Config<V>, h: Helper) {
    && Configured(c) && Fits(c, h) && !h.state.Executing?
    && (!h.state.Completed? && !c.mode.Longest? ==> forall j :: 0 <= j < |h.open| ==> h.open[j])
  }

  function StepFrom<V>(c: Config<V>, h: Helper, i: nat, results: seq<V>): (r: Result<V>)
    requires Configured(c) && Fits(c, h) && i <= |c.sources|
    requires !c.mode.Longest? ==> forall j :: 0 <= j < |h.open| ==> h.open[j]
    ensures Ready(c, r.helper)
    decreases |c.sources| - i
  {
    if i == |c.sources| then Result(h.(state := SuspendedYield), Row(results))
    else if !h.open[i] then StepFrom(c, h, i + 1, results + [c.padding[i]])
    else if h.pos[i] < |c.sources[i].values|
      then StepFrom(c, Gave(h, i), i + 1, results + [c.sources[i].values[h.pos[i]]])
    else if c.sources[i].throws then Shut(c, Stopped(h, i, Threw(i)), Some(FromIterator(i)))
    else
      var ended := Stopped(h, i, Ended(i));
      match c.mode
      case Shortest => Shut(c, ended, None)
      case Strict => if i != 0 then Shut(c, ended, Some(DifferentLengths)) else CheckRest(c, ended, 1)
      case Longest =>
        if forall j :: 0 <= j < |ended.open| ==> !ended.open[j] then Result(ended.(state := Completed), Done)
        else StepFrom(c, ended, i + 1, results + [c.padding[i]])
  }

  /** In mode "strict", once the first iterator has ended all the others must. */
  function CheckRest<V>(c: Config<V>, h: Helper, k: nat): (r: Result<V>)
    requires Configured(c) && Fits(c, h) && k <= |c.sources|
    ensures r.helper.state.Completed? && Ready(c, r.helper)
    decreases |c.sources| - k
  {
    if k == |c.sources| then Result(h.(state := Completed), Done)
    else if h.pos[k] < |c.sources[k].values| then Shut(c, Gave(h, k), Some(DifferentLengths))
    else if c.sources[k].throws then Shut(c, Stopped(h, k, Threw(k)), Some(FromIterator(k)))
    else CheckRest(c, Stopped(h, k, Ended(k)), k + 1)
  }

  function Next<V>(c: Config<V>, h: Helper): (r: Result<V>)
    requires Ready(c, h)
    ensures Ready(c, r.helper)
  {
    if h.state.Completed? then Result(h, Done)
    else if |c.sources| == 0 then Result(h.(state := Completed), Done)
    else StepFrom(c, h.(state := Executing), 0, [])
  }

  function Return<V>(c: Config<V>, h: Helper): (r: Result<V>)
    requires Ready(c, h)
    ensures Ready(c, r.helper)
  {
    if h.state.Completed? then Result(h, Done) else Shut(c, h, None)
  }

  function Initial<V>(c: Config<V>): Helper {
    Helper(SuspendedStart, seq(|c.sources|, i => 0), seq(|c.sources|, i => true), [])
  }

  // ---------------------------------------------------------------------------------------
  // The rows

  /** Row `k`, with padding for the iterators that have ended. */
  function RowAt<V>(c: Config<V>, k: nat, n: nat): (r: seq<V>)
    requires n <= |c.sources| && Configured(c)
    requires (!c.mode.Longest? ==> forall i :: 0 <= i < n ==> k < |c.sources[i].values|)
    ensures |r| == n
  {
    seq(n, i requires 0 <= i < n => if k < |c.sources[i].values| then c.sources[i].values[k] else c.padding[i])
  }

  /** The helper after `k` rows and the first `i` steps of another. */
  ghost predicate AtRow<V>(c: Config<V>, h: Helper, k: nat, i: nat) {
    && Configured(c) && Fits(c, h) && !h.state.Completed?
    && (forall j :: 0 <= j < |c.sources| ==>
      h.pos[j] == (var at := if j < i then k + 1 else k; if at < |c.sources[j].values| then at
        else |c.sources[j].values|))
    && (forall j :: 0 <= j < |c.sources| ==> h.open[j] == (|c.sources[j].values| >= if j < i then k + 1 else k))
    && (!c.mode.Longest? ==> forall j :: 0 <= j < |c.sources| ==> |c.sources[j].values| >= if j < i then k + 1 else k)
  }

  /** Whether row `k` is to be had. */
  ghost predicate HasRow<V>(c: Config<V>, k: nat) {
    if c.mode.Longest? then
      && (exists j :: 0 <= j < |c.sources| && |c.sources[j].values| > k)
      && (forall j :: 0 <= j < |c.sources| && |c.sources[j].values| == k ==> !c.sources[j].throws)
    else |c.sources| > 0 && forall j :: 0 <= j < |c.sources| ==> |c.sources[j].values| > k
  }

  lemma AtRowTells<V>(c: Config<V>, h: Helper, k: nat, i: nat)
    requires AtRow(c, h, k, i)
    ensures Configured(c) && Fits(c, h) && !h.state.Completed? && AtRow(c, h.(state := Executing), k, i)
    ensures !c.mode.Longest? ==> forall j :: 0 <= j < |h.open| ==> h.open[j]
    ensures i < |c.sources| && |c.sources[i].values| < k ==> c.mode.Longest? && !h.open[i] && AtRow(c, h, k, i + 1)
    ensures i < |c.sources| && |c.sources[i].values| >= k ==> h.open[i] && h.pos[i] == k
    ensures i > 0 && !c.mode.Longest? && |c.sources| > 0 ==> |c.sources[0].values| > k
    ensures i == |c.sources| ==> AtRow(c, h.(state := SuspendedYield), k + 1, 0)
  {
  }

  lemma GaveAtRow<V>(c: Config<V>, h: Helper, k: nat, i: nat)
    requires AtRow(c, h, k, i) && i < |c.sources| && |c.sources[i].values| > k
    ensures AtRow(c, Gave(h, i), k, i + 1)
  {
  }

  lemma EndedAtRow<V>(c: Config<V>, h: Helper, k: nat, i: nat)
    requires AtRow(c, h, k, i) && i < |c.sources| && |c.sources[i].values| == k && c.mode.Longest?
    ensures AtRow(c, Stopped(h, i, Ended(i)), k, i + 1)
  {
  }

  lemma OneOpen<V>(c: Config<V>, h: Helper, k: nat, i: nat)
    requires AtRow(c, h, k, i) && c.mode.Longest? && HasRow(c, k)
    ensures exists j :: 0 <= j < |h.open| && h.open[j]
  {
    var j :| 0 <= j < |c.sources| && |c.sources[j].values| > k;
    assert h.open[j];
  }

  lemma RowGrows<V>(c: Config<V>, k: nat, i: nat)
    requires Configured(c) && HasRow(c, k) && i < |c.sources|
    ensures RowAt(c, k, i + 1) ==
      RowAt(c, k, i) + [if k < |c.sources[i].values| then c.sources[i].values[k] else c.padding[i]]
  {
  }

  /** An iterator that ends in a row to be had does so in mode "longest", and does not throw. */
  lemma RowEnds<V>(c: Config<V>, k: nat, i: nat)
    requires HasRow(c, k) && i < |c.sources| && |c.sources[i].values| <= k
    ensures c.mode.Longest? && (|c.sources[i].values| == k ==> !c.sources[i].throws)
  {
  }

  lemma {:induction false} RowIsYielded<V>(c: Config<V>, h: Helper, k: nat, i: nat)
    requires AtRow(c, h, k, i) && HasRow(c, k) && i <= |c.sources|
    ensures var r := StepFrom(c, h, i, RowAt(c, k, i));
      && r.outcome == Row(RowAt(c, k, |c.sources|))
      && AtRow(c, r.helper, k + 1, 0)
    decreases |c.sources| - i
  {
    AtRowTells(c, h, k, i);
    hide AtRow, Ready, Shut, CheckRest;
    if i < |c.sources| {
      RowGrows(c, k, i);
      if |c.sources[i].values| <= k { RowEnds(c, k, i); }
      hide RowAt, HasRow;
      if |c.sources[i].values| < k {
        RowIsYielded(c, h, k, i + 1);
      } else if |c.sources[i].values| > k {
        GaveAtRow(c, h, k, i);
        RowIsYielded(c, Gave(h, i), k, i + 1);
      } else {
        EndedAtRow(c, h, k, i);
        OneOpen(c, Stopped(h, i, Ended(i)), k, i + 1);
        RowIsYielded(c, Stopped(h, i, Ended(i)), k, i + 1);
      }
    }
  }

  /** No row is left: an iterator from `i` on ends the row, or all have ended. */
  ghost predicate Blocked<V>(c: Config<V>, k: nat, i: nat) {
    if c.mode.Longest? then
      || (exists j :: i <= j < |c.sources| && |c.sources[j].values| == k && c.sources[j].throws)
      || ((forall j :: 0 <= j < |c.sources| ==> |c.sources[j].values| <= k) && exists j ::
        i <= j < |c.sources| && |c.sources[j].values| == k)
    else exists j :: i <= j < |c.sources| && |c.sources[j].values| == k
  }

  /** No iterator throws, and none when closed. */
  predicate Quiet<V>(c: Config<V>) {
    forall j :: 0 <= j < |c.sources| ==> !c.sources[j].throws && !c.sources[j].closeThrows
  }

  predicate SameLengths<V>(c: Config<V>, k: nat) {
    forall j :: 0 <= j < |c.sources| ==> |c.sources[j].values| == k
  }

  /** The helper has ended without a row. */
  ghost predicate Refused<V>(c: Config<V>, k: nat, r: Result<V>) {
    && r.helper.state.Completed? && !r.outcome.Row?
    && (Quiet(c) ==> r.outcome == if c.mode.Strict? && !SameLengths(c, k) then Throws(DifferentLengths) else Done)
  }

  lemma BlockedOn<V>(c: Config<V>, k: nat, i: nat)
    requires Blocked(c, k, i)
    ensures i < |c.sources| && (|c.sources[i].values| != k ==> Blocked(c, k, i + 1))
  {
  }

  lemma {:induction false} RowIsRefused<V>(c: Config<V>, h: Helper, k: nat, i: nat, results: seq<V>)
    requires AtRow(c, h, k, i) && Blocked(c, k, i) && i <= |c.sources|
    ensures Refused(c, k, StepFrom(c, h, i, results))
    decreases |c.sources| - i
  {
    AtRowTells(c, h, k, i);
    BlockedOn(c, k, i);
    hide Quiet, AtRow, Ready, CloseAll, Blocked, SameLengths, CheckRest, CloseFailure;
    if |c.sources[i].values| < k {
      RowIsRefused(c, h, k, i + 1, results + [c.padding[i]]);
    } else if |c.sources[i].values| > k {
      GaveAtRow(c, h, k, i);
      RowIsRefused(c, Gave(h, i), k, i + 1, results + [c.sources[i].values[h.pos[i]]]);
    } else if c.mode.Longest? && !c.sources[i].throws && exists j ::
      0 <= j < |h.open| && Stopped(h, i, Ended(i)).open[j] {
      var ended := Stopped(h, i, Ended(i));
      EndedAtRow(c, h, k, i);
      StillBlocked(c, ended, k, i);
      RowIsRefused(c, ended, k, i + 1, results + [c.padding[i]]);
    } else {
      EndsHere(c, h, k, i, results);
    }
  }

  lemma EndsHere<V>(c: Config<V>, h: Helper, k: nat, i: nat, results: seq<V>)
    requires AtRow(c, h, k, i) && i < |c.sources| && |c.sources[i].values| == k
    requires c.mode.Longest? && !c.sources[i].throws ==> forall j :: 0 <= j < |h.open| ==>
      !Stopped(h, i, Ended(i)).open[j]
    ensures Refused(c, k, StepFrom(c, h, i, results))
  {
    AtRowTells(c, h, k, i);
    QuietCloses(c, Stopped(h, i, Ended(i)).open, i);
    if c.mode.Strict? { StrictRefuses(c, h, k, i); }
    hide Quiet, AtRow, Ready, CloseAll, SameLengths, CheckRest, CloseFailure;
  }

  lemma StrictRefuses<V>(c: Config<V>, h: Helper, k: nat, i: nat)
    requires AtRow(c, h, k, i) && c.mode.Strict? && i < |c.sources| && |c.sources[i].values| == k
    ensures i > 0 ==> !SameLengths(c, k)
    ensures i == 0 ==> Refused(c, k, CheckRest(c, Stopped(h, 0, Ended(0)), 1))
  {
    if i == 0 {
      OthersMustEnd(c, Stopped(h, 0, Ended(0)), k, 1);
    } else {
      assert |c.sources[0].values| > k;
    }
  }

  lemma StillBlocked<V>(c: Config<V>, h: Helper, k: nat, i: nat)
    requires AtRow(c, h, k, i + 1) && c.mode.Longest? && Blocked(c, k, i) && i < |c.sources| && !c.sources[i].throws
    requires exists j :: 0 <= j < |h.open| && h.open[j]
    ensures Blocked(c, k, i + 1)
  {
    var j :| 0 <= j < |h.open| && h.open[j];
    assert |c.sources[j].values| >= if j < i + 1 then k + 1 else k;
  }

  lemma {:induction false} NoCloseFailure<V>(c: Config<V>, open: seq<bool>)
    requires Quiet(c) && |open| <= |c.sources|
    ensures CloseFailure(c, open) == None
    decreases |open|
  {
    if open != [] { NoCloseFailure(c, open[..|open| - 1]); }
  }

  lemma QuietCloses<V>(c: Config<V>, open: seq<bool>, i: nat)
    requires |open| == |c.sources| && i < |c.sources|
    ensures Quiet(c) ==> CloseFailure(c, open) == None && !c.sources[i].throws
  {
    if Quiet(c) { NoCloseFailure(c, open); }
  }

  lemma {:induction false} OthersMustEnd<V>(c: Config<V>, h: Helper, k: nat, m: nat)
    requires Configured(c) && Fits(c, h) && m <= |c.sources|
    requires forall j :: m <= j < |c.sources| ==> h.pos[j] == k <= |c.sources[j].values|
    requires forall j :: 0 <= j < m ==> |c.sources[j].values| == k
    ensures var r := CheckRest(c, h, m);
      && r.helper.state.Completed? && !r.outcome.Row?
      && (Quiet(c) ==> r.outcome == if !SameLengths(c, k) then Throws(DifferentLengths) else Done)
    decreases |c.sources| - m
  {
    if m < |c.sources| && |c.sources[m].values| == k && !c.sources[m].throws {
      OthersMustEnd(c, Stopped(h, m, Ended(m)), k, m + 1);
    }
  }

  /** The helper after a number of calls of `next`. */
  function After<V>(c: Config<V>, n: nat): (h: Helper)
    requires Configured(c)
    ensures Ready(c, h)
  {
    if n == 0 then Initial(c) else Next(c, After(c, n - 1)).helper
  }

  lemma {:induction false} AfterRows<V>(c: Config<V>, k: nat)
    requires Configured(c) && forall j :: 0 <= j < k ==> HasRow(c, j)
    ensures AtRow(c, After(c, k), k, 0)
    decreases k
  {
    if k > 0 {
      AfterRows(c, k - 1);
      assert HasRow(c, k - 1);
      assert RowAt(c, k - 1, 0) == [];
      AtRowTells(c, After(c, k - 1), k - 1, 0);
      RowIsYielded(c, After(c, k - 1).(state := Executing), k - 1, 0);
    }
  }

  /**
   Row after row as long as there is one: every iterator has a value left, or in mode "longest" some
   has.  After that the helper ends; in mode "strict" with an error unless the lengths are equal.
   */
  lemma Rows<V>(c: Config<V>, k: nat)
    requires Configured(c) && forall j :: 0 <= j < k ==> HasRow(c, j)
    ensures HasRow(c, k) ==> Next(c, After(c, k)).outcome == Row(RowAt(c, k, |c.sources|))
    ensures !HasRow(c, k) ==> Next(c, After(c, k)).helper.state.Completed? && !Next(c, After(c, k)).outcome.Row?
    ensures !HasRow(c, k) && Quiet(c) ==>
      Next(c, After(c, k)).outcome == if c.mode.Strict? && !SameLengths(c, k) then Throws(DifferentLengths) else Done
  {
    AfterRows(c, k);
    var h := After(c, k);
    AtRowTells(c, h, k, 0);
    hide After, StepFrom;
    if HasRow(c, k) {
      assert RowAt(c, k, 0) == [];
      RowIsYielded(c, h.(state := Executing), k, 0);
    } else if |c.sources| > 0 {
      if k > 0 { assert HasRow(c, k - 1); }
      BlockedThen(c, k);
      RowIsRefused(c, h.(state := Executing), k, 0, []);
    }
  }

  lemma BlockedThen<V>(c: Config<V>, k: nat)
    requires |c.sources| > 0 && !HasRow(c, k) && (k > 0 ==> HasRow(c, k - 1))
    ensures Blocked(c, k, 0)
  {
    if k == 0 {
      assert |c.sources[0].values| >= 0;
    }
  }

  // ---------------------------------------------------------------------------------------
  // What is thrown

  /** Of the open iterators, `m` is the last that throws when it is closed. */
  ghost predicate LastToThrow<V>(c: Config<V>, open: seq<bool>, m: nat) {
    && m < |open| <= |c.sources| && open[m] && c.sources[m].closeThrows
    && forall j :: m < j < |open| && open[j] ==> !c.sources[j].closeThrows
  }

  ghost predicate ClosesQuietly<V>(c: Config<V>, open: seq<bool>) {
    |open| <= |c.sources| && forall j :: 0 <= j < |open| && open[j] ==> !c.sources[j].closeThrows
  }

  /** Closing fails with the last iterator that throws, which is the first closed that does. */
  lemma {:induction false} CloseFailureTells<V>(c: Config<V>, open: seq<bool>)
    requires |open| <= |c.sources|
    ensures forall m: nat :: LastToThrow(c, open, m) ==> CloseFailure(c, open) == Some(FromClosing(m))
    ensures ClosesQuietly(c, open) ==> CloseFailure(c, open) == None
    decreases |open|
  {
    if open != [] {
      var n := |open| - 1;
      CloseFailureTells(c, open[..n]);
      forall m: nat | LastToThrow(c, open, m) && m < n && !(open[n] && c.sources[n].closeThrows)
        ensures LastToThrow(c, open[..n], m)
      {
      }
    }
  }

  /** `return` throws just what closing does. */
  lemma ReturnThrows<V>(c: Config<V>, h: Helper)
    requires Ready(c, h) && !h.state.Completed?
    ensures forall m: nat :: LastToThrow(c, h.open, m) ==> Return(c, h).outcome == Throws(FromClosing(m))
    ensures ClosesQuietly(c, h.open) ==> Return(c, h).outcome == Done
  {
    CloseFailureTells(c, h.open);
    hide LastToThrow, ClosesQuietly, CloseFailure;
  }

  /** Iterator `j` has nothing for row `k` and ends the helper: in mode "longest" only by throwing. */
  predicate EndsRow<V>(c: Config<V>, k: nat, j: nat) {
    j < |c.sources| && |c.sources[j].values| == k && (c.mode.Longest? ==> c.sources[j].throws)
  }

  ghost predicate FirstToEnd<V>(c: Config<V>, k: nat, i: nat) {
    EndsRow(c, k, i) && forall j: nat :: j < i ==> !EndsRow(c, k, j)
  }

  /** After the first iterator has ended at row `k`, iterator `m` has a value or throws. */
  predicate IsOdd<V>(c: Config<V>, k: nat, m: nat) {
    1 <= m < |c.sources| && (|c.sources[m].values| > k || c.sources[m].throws)
  }

  ghost predicate FirstOdd<V>(c: Config<V>, k: nat, m: nat) {
    IsOdd(c, k, m) && forall j: nat :: j < m ==> !IsOdd(c, k, j)
  }

  ghost function AllBut<V>(c: Config<V>, i: nat): (r: seq<bool>)
    ensures |r| == |c.sources|
  {
    seq(|c.sources|, j => j != i)
  }

  /**
   The failure when row `k` is not to be had, by the first iterator to end it: what it throws; else in
   mode "shortest" what closing the others does, and in mode "strict" the difference in length or what
   another throws before that is seen.
   */
  ghost predicate FailsAs<V>(c: Config<V>, k: nat, o: Outcome<V>) {
    && (forall i: nat :: FirstToEnd(c, k, i) ==> EndedBy(c, k, i, o))
    && ((forall i: nat :: !FirstToEnd(c, k, i)) ==> o == Done)
  }

  ghost predicate EndedBy<V>(c: Config<V>, k: nat, i: nat, o: Outcome<V>)
    requires i < |c.sources|
  {
    if c.sources[i].throws then o == Throws(FromIterator(i))
    else if c.mode.Shortest? then
      && (forall m: nat :: LastToThrow(c, AllBut(c, i), m) ==> o == Throws(FromClosing(m)))
      && (ClosesQuietly(c, AllBut(c, i)) ==> o == Done)
    else if i > 0 then o == Throws(DifferentLengths)
    else
      && (forall m: nat :: FirstOdd(c, k, m) ==>
          o == if |c.sources[m].values| > k then Throws(DifferentLengths) else Throws(FromIterator(m)))
      && ((forall m: nat :: !FirstOdd(c, k, m)) ==> o == Done)
  }

  /** Once `i` is known to be the first, it alone counts. */
  lemma FirstIsOnly<V>(c: Config<V>, k: nat, i: nat, o: Outcome<V>)
    requires FirstToEnd(c, k, i) && EndedBy(c, k, i, o)
    ensures FailsAs(c, k, o)
  {
    hide EndedBy;
    forall j: nat | FirstToEnd(c, k, j) ensures j == i {
    }
  }

  lemma {:induction false} CheckRestFails<V>(c: Config<V>, h: Helper, k: nat, m: nat)
    requires Configured(c) && Fits(c, h) && 1 <= m <= |c.sources|
    requires forall j :: m <= j < |c.sources| ==> h.pos[j] == k <= |c.sources[j].values|
    requires forall j: nat :: j < m ==> !IsOdd(c, k, j)
    ensures var o := CheckRest(c, h, m).outcome;
      && (forall j: nat :: FirstOdd(c, k, j) ==>
          o == if |c.sources[j].values| > k then Throws(DifferentLengths) else Throws(FromIterator(j)))
      && ((forall j: nat :: !FirstOdd(c, k, j)) ==> o == Done)
    decreases |c.sources| - m
  {
    hide Ready, CloseAll, CloseFailure;
    if m < |c.sources| {
      if IsOdd(c, k, m) {
        assert FirstOdd(c, k, m);
        assert forall j: nat :: FirstOdd(c, k, j) ==> j == m;
      } else {
        CheckRestFails(c, Stopped(h, m, Ended(m)), k, m + 1);
      }
    }
  }

  /** The helper where iterator `i` is the first to end the row. */
  lemma EndFails<V>(c: Config<V>, h: Helper, k: nat, i: nat, results: seq<V>)
    requires AtRow(c, h, k, i) && i < |c.sources| && FirstToEnd(c, k, i)
    ensures Configured(c) && Fits(c, h) && (!c.mode.Longest? ==> forall j :: 0 <= j < |h.open| ==> h.open[j])
    ensures EndedBy(c, k, i, StepFrom(c, h, i, results).outcome)
  {
    AtRowTells(c, h, k, i);
    if !c.sources[i].throws {
      var ended := Stopped(h, i, Ended(i));
      if c.mode.Shortest? {
        assert ended.open == AllBut(c, i);
        CloseFailureTells(c, ended.open);
      } else if i == 0 {
        CheckRestFails(c, ended, k, 1);
      }
    }
    hide AtRow, FirstToEnd, FirstOdd, LastToThrow, ClosesQuietly, CheckRest, CloseFailure, CloseAll, Ready, AllBut;
  }

  /** In mode "longest" the last open iterator has ended without throwing: no other throws. */
  lemma NoneEnds<V>(c: Config<V>, h: Helper, k: nat, i: nat)
    requires AtRow(c, h, k, i) && i < |c.sources| && c.mode.Longest? && |c.sources[i].values| == k
    requires !c.sources[i].throws && forall j: nat :: j < i ==> !EndsRow(c, k, j)
    requires forall j :: 0 <= j < |h.open| ==> !Stopped(h, i, Ended(i)).open[j]
    ensures forall j: nat :: !FirstToEnd(c, k, j)
  {
    forall j: nat ensures !EndsRow(c, k, j) {
      if i < j < |c.sources| { assert h.open[j] == Stopped(h, i, Ended(i)).open[j]; }
    }
  }

  lemma {:induction false} RowFails<V>(c: Config<V>, h: Helper, k: nat, i: nat, results: seq<V>)
    requires AtRow(c, h, k, i) && Blocked(c, k, i) && i <= |c.sources|
    requires forall j: nat :: j < i ==> !EndsRow(c, k, j)
    ensures FailsAs(c, k, StepFrom(c, h, i, results).outcome)
    decreases |c.sources| - i
  {
    AtRowTells(c, h, k, i);
    BlockedOn(c, k, i);
    hide AtRow, Ready, Blocked, CheckRest, FailsAs, Shut;
    if EndsRow(c, k, i) {
      assert FirstToEnd(c, k, i);
      EndFails(c, h, k, i, results);
      FirstIsOnly(c, k, i, StepFrom(c, h, i, results).outcome);
    } else if |c.sources[i].values| < k {
      RowFails(c, h, k, i + 1, results + [c.padding[i]]);
    } else if |c.sources[i].values| > k {
      GaveAtRow(c, h, k, i);
      RowFails(c, Gave(h, i), k, i + 1, results + [c.sources[i].values[h.pos[i]]]);
    } else {
      LongestGoesOn(c, h, k, i, results);
    }
  }

  lemma LongestGoesOn<V>(c: Config<V>, h: Helper, k: nat, i: nat, results: seq<V>)
    requires AtRow(c, h, k, i) && Blocked(c, k, i) && i < |c.sources| && |c.sources[i].values| == k
    requires !EndsRow(c, k, i) && forall j: nat :: j < i ==> !EndsRow(c, k, j)
    ensures Configured(c) && Fits(c, h) && c.mode.Longest?
    ensures FailsAs(c, k, StepFrom(c, h, i, results).outcome)
    decreases |c.sources| - i, 0
  {
    AtRowTells(c, h, k, i);
    var ended := Stopped(h, i, Ended(i));
    if exists j :: 0 <= j < |ended.open| && ended.open[j] {
      EndedAtRow(c, h, k, i);
      StillBlocked(c, ended, k, i);
      hide AtRow, Ready, Blocked, CheckRest, FailsAs, Shut;
      RowFails(c, ended, k, i + 1, results + [c.padding[i]]);
    } else {
      NoneEnds(c, h, k, i);
      hide AtRow, Ready, Blocked, CheckRest, Shut;
    }
  }

  /** What `next` throws, or that it throws nothing, when there is no further row. */
  lemma NextThrows<V>(c: Config<V>, k: nat)
    requires Configured(c) && (forall j :: 0 <= j < k ==> HasRow(c, j)) && !HasRow(c, k)
    ensures FailsAs(c, k, Next(c, After(c, k)).outcome)
  {
    AfterRows(c, k);
    var h := After(c, k);
    AtRowTells(c, h, k, 0);
    hide After, StepFrom, AtRow;
    if |c.sources| > 0 {
      if k > 0 { assert HasRow(c, k - 1); }
      BlockedThen(c, k);
      RowFails(c, h.(state := Executing), k, 0, []);
    }
  }

  // ---------------------------------------------------------------------------------------
  // What is done with the iterators

  predicate Stops(e: Event) {
    e.Ended? || e.Threw?
  }

  /** Iterators are only stepped, none again once it has ended or thrown, and those that have not are open. */
  ghost predicate Stepped(trace: seq<Event>, open: seq<bool>) {
    && (forall p :: 0 <= p < |trace| ==> !trace[p].Closed? && trace[p].i < |open|)
    && (forall p, q :: 0 <= p < q < |trace| && Stops(trace[p]) ==> trace[q].i != trace[p].i)
    && (forall p :: 0 <= p < |trace| && Stops(trace[p]) ==> !open[trace[p].i])
    && (forall i :: 0 <= i < |open| && !open[i] ==> exists p :: 0 <= p < |trace| && Stops(trace[p]) && trace[p].i == i)
  }

  /** Until the helper has completed nothing is closed; then, those still open are closed and nothing more is done. */
  ghost predicate Kept<V>(c: Config<V>, h: Helper) {
    && Ready(c, h)
    && if h.state.Completed? then |h.trace| >= |CloseAll(h.open)| && h.trace == StepsOf(h) + CloseAll(h.open)
      && Stepped(StepsOf(h), h.open)
       else Stepped(h.trace, h.open)
  }

  /** The part of the trace before anything is closed. */
  ghost function StepsOf(h: Helper): seq<Event>
    requires |h.trace| >= |CloseAll(h.open)|
  {
    h.trace[..|h.trace| - |CloseAll(h.open)|]
  }

  lemma GaveIsStepped(h: Helper, i: nat)
    requires |h.pos| == |h.open| && i < |h.open| && h.open[i] && Stepped(h.trace, h.open)
    ensures Stepped(Gave(h, i).trace, h.open)
  {
    var t := Gave(h, i).trace;
    assert forall p :: 0 <= p < |h.trace| ==> t[p] == h.trace[p];
    forall j | 0 <= j < |h.open| && !h.open[j] ensures exists p :: 0 <= p < |t| && Stops(t[p]) && t[p].i == j {
      var p :| 0 <= p < |h.trace| && Stops(h.trace[p]) && h.trace[p].i == j;
      assert Stops(t[p]);
    }
  }

  lemma StoppedIsStepped(h: Helper, i: nat, e: Event)
    requires i < |h.open| && h.open[i] && Stepped(h.trace, h.open) && Stops(e) && e.i == i
    ensures Stepped(Stopped(h, i, e).trace, Stopped(h, i, e).open)
  {
    var t, open := Stopped(h, i, e).trace, Stopped(h, i, e).open;
    assert forall p :: 0 <= p < |h.trace| ==> t[p] == h.trace[p];
    assert t[|h.trace|] == e;
    forall j | 0 <= j < |open| && !open[j] ensures exists p :: 0 <= p < |t| && Stops(t[p]) && t[p].i == j {
      if j != i {
        var p :| 0 <= p < |h.trace| && Stops(h.trace[p]) && h.trace[p].i == j;
        assert Stops(t[p]);
      }
    }
  }

  lemma ShutKeeps<V>(c: Config<V>, h: Helper, failure: Option<Failure>)
    requires Configured(c) && Fits(c, h) && Stepped(h.trace, h.open)
    ensures Kept(c, Shut(c, h, failure).helper)
  {
    hide Stepped;
    var r := Shut(c, h, failure).helper;
    assert StepsOf(r) == h.trace;
  }

  lemma NothingOpen(open: seq<bool>)
    requires forall j :: 0 <= j < |open| ==> !open[j]
    ensures CloseAll(open) == []
    decreases |open|
  {
    if open != [] { NothingOpen(open[..|open| - 1]); }
  }

  lemma DoneKeeps<V>(c: Config<V>, h: Helper)
    requires Configured(c) && Fits(c, h) && Stepped(h.trace, h.open) && forall j :: 0 <= j < |h.open| ==> !h.open[j]
    ensures Kept(c, h.(state := Completed))
  {
    hide Stepped;
    NothingOpen(h.open);
    assert StepsOf(h.(state := Completed)) == h.trace;
  }

  lemma {:induction false} CheckRestKeeps<V>(c: Config<V>, h: Helper, k: nat)
    requires Configured(c) && Fits(c, h) && k <= |c.sources| && Stepped(h.trace, h.open)
    requires forall j :: 0 <= j < |h.open| ==> h.open[j] == (j >= k)
    ensures Kept(c, CheckRest(c, h, k).helper)
    decreases |c.sources| - k
  {
    hide Stepped, Kept, Shut;
    if k == |c.sources| {
      DoneKeeps(c, h);
    } else if h.pos[k] < |c.sources[k].values| {
      GaveIsStepped(h, k);
      ShutKeeps(c, Gave(h, k), Some(DifferentLengths));
    } else if c.sources[k].throws {
      StoppedIsStepped(h, k, Threw(k));
      ShutKeeps(c, Stopped(h, k, Threw(k)), Some(FromIterator(k)));
    } else {
      StoppedIsStepped(h, k, Ended(k));
      CheckRestKeeps(c, Stopped(h, k, Ended(k)), k + 1);
    }
  }

  lemma {:induction false} StepFromKeeps<V>(c: Config<V>, h: Helper, i: nat, results: seq<V>)
    requires Configured(c) && Fits(c, h) && i <= |c.sources| && Stepped(h.trace, h.open)
    requires !c.mode.Longest? ==> forall j :: 0 <= j < |h.open| ==> h.open[j]
    ensures Kept(c, StepFrom(c, h, i, results).helper)
    decreases |c.sources| - i
  {
    hide Stepped, Shut, CloseAll;
    if i < |c.sources| {
      hide Kept;
      if !h.open[i] {
        StepFromKeeps(c, h, i + 1, results + [c.padding[i]]);
      } else if h.pos[i] < |c.sources[i].values| {
        GaveIsStepped(h, i);
        StepFromKeeps(c, Gave(h, i), i + 1, results + [c.sources[i].values[h.pos[i]]]);
      } else if c.sources[i].throws {
        StoppedIsStepped(h, i, Threw(i));
        ShutKeeps(c, Stopped(h, i, Threw(i)), Some(FromIterator(i)));
      } else {
        var ended := Stopped(h, i, Ended(i));
        StoppedIsStepped(h, i, Ended(i));
        match c.mode {
          case Shortest => ShutKeeps(c, ended, None);
          case Strict =>
            if i != 0 { ShutKeeps(c, ended, Some(DifferentLengths)); } else { CheckRestKeeps(c, ended, 1); }
          case Longest =>
            if forall j :: 0 <= j < |ended.open| ==> !ended.open[j] {
              DoneKeeps(c, ended);
            } else {
              StepFromKeeps(c, ended, i + 1, results + [c.padding[i]]);
            }
        }
      }
    }
  }

  datatype Call = NextCall | ReturnCall

  function Called<V>(c: Config<V>, h: Helper, call: Call): (r: Result<V>)
    requires Ready(c, h)
    ensures Ready(c, r.helper)
  {
    if call.NextCall? then Next(c, h) else Return(c, h)
  }

  function RunCalls<V>(c: Config<V>, calls: seq<Call>): (h: Helper)
    requires Configured(c)
    ensures Ready(c, h)
  {
    if calls == [] then Initial(c) else Called(c, RunCalls(c, calls[..|calls| - 1]), calls[|calls| - 1]).helper
  }

  lemma CallKeeps<V>(c: Config<V>, h: Helper, call: Call)
    requires Kept(c, h)
    ensures Kept(c, Called(c, h, call).helper)
    ensures h.state.Completed? ==> Called(c, h, call) == Result(h, Done)
  {
    hide Stepped, StepFrom;
    if !h.state.Completed? {
      if call.ReturnCall? {
        ShutKeeps(c, h, None);
      } else if |c.sources| == 0 {
        DoneKeeps(c, h);
      } else {
        StepFromKeeps(c, h.(state := Executing), 0, []);
      }
    }
  }

  lemma {:induction false} EveryRunKeeps<V>(c: Config<V>, calls: seq<Call>)
    requires Configured(c)
    ensures Kept(c, RunCalls(c, calls))
    decreases |calls|
  {
    if calls != [] {
      EveryRunKeeps(c, calls[..|calls| - 1]);
      CallKeeps(c, RunCalls(c, calls[..|calls| - 1]), calls[|calls| - 1]);
    }
  }

  /** The events close the open iterators, each once and the last first. */
  ghost predicate InReverse(open: seq<bool>, t: seq<Event>) {
    && (forall p :: 0 <= p < |t| ==> t[p].Closed? && t[p].i < |open| && open[t[p].i])
    && (forall i :: 0 <= i < |open| && open[i] ==> Closed(i) in t)
    && (forall p, q :: 0 <= p < q < |t| ==> t[q].i < t[p].i)
  }

  lemma {:induction false} CloseAllTells(open: seq<bool>)
    ensures InReverse(open, CloseAll(open))
    decreases |open|
  {
    if open != [] {
      var n := |open| - 1;
      CloseAllTells(open[..n]);
      OneMoreClosed(open, CloseAll(open[..n]));
    }
  }

  lemma OneMoreClosed(open: seq<bool>, rest: seq<Event>)
    requires open != [] && InReverse(open[..|open| - 1], rest)
    ensures InReverse(open, (if open[|open| - 1] then [Closed(|open| - 1)] else []) + rest)
  {
    var n := |open| - 1;
    forall i | 0 <= i < n && open[i] ensures Closed(i) in rest {
      assert open[..n][i];
    }
    if open[n] {
      ClosedFirst(open, n, rest);
    } else {
      assert [] + rest == rest;
      NotOpenLast(open, n, rest);
    }
    hide InReverse;
  }

  lemma NotOpenLast(open: seq<bool>, n: nat, rest: seq<Event>)
    requires n == |open| - 1 && !open[n] && InReverse(open[..n], rest)
    requires forall i :: 0 <= i < n && open[i] ==> Closed(i) in rest
    ensures InReverse(open, rest)
  {
    assert forall p :: 0 <= p < |rest| ==> open[..n][rest[p].i] == open[rest[p].i];
  }

  lemma ClosedFirst(open: seq<bool>, n: nat, rest: seq<Event>)
    requires n == |open| - 1 && open[n] && InReverse(open[..n], rest) && forall i :: 0 <= i < n && open[i] ==>
      Closed(i) in rest
    ensures InReverse(open, [Closed(n)] + rest)
  {
    var t := [Closed(n)] + rest;
    assert t[0] == Closed(n);
    assert forall p :: 0 < p < |t| ==> t[p] == rest[p - 1];
    forall i | 0 <= i < |open| && open[i] ensures Closed(i) in t {
      if i < n { assert Closed(i) in rest; }
    }
  }

  ghost predicate HasStopped(h: Helper, i: nat) {
    Ended(i) in h.trace || Threw(i) in h.trace
  }

  /**
   In every run of `next` and `return` that has completed, each iterator has ended, or thrown, or been
   closed, just one of these and just once; they were closed in reverse order, after all stepping.
   */
  lemma ClosedOnce<V>(c: Config<V>, calls: seq<Call>)
    requires Configured(c) && RunCalls(c, calls).state.Completed?
    ensures var h := RunCalls(c, calls);
      && (forall i :: 0 <= i < |c.sources| ==> (Closed(i) in h.trace <==> !HasStopped(h, i)))
      && (forall p, q :: 0 <= p < q < |h.trace| && (Stops(h.trace[p]) || h.trace[p].Closed?) ==>
        h.trace[q].i != h.trace[p].i)
      && (forall p, q :: 0 <= p < q < |h.trace| && h.trace[p].Closed? ==>
        h.trace[q].Closed? && h.trace[q].i < h.trace[p].i)
  {
    var h := RunCalls(c, calls);
    EveryRunKeeps(c, calls);
    hide RunCalls;
    CloseAllTells(h.open);
    hide Stepped, InReverse;
    SplitTrace(h, StepsOf(h), CloseAll(h.open));
  }

  lemma SplitTrace(h: Helper, a: seq<Event>, b: seq<Event>)
    requires h.trace == a + b && Stepped(a, h.open)
    requires InReverse(h.open, b)
    ensures forall i :: 0 <= i < |h.open| ==> (Closed(i) in h.trace <==> !HasStopped(h, i))
    ensures forall p, q :: 0 <= p < q < |h.trace| && (Stops(h.trace[p]) || h.trace[p].Closed?) ==>
      h.trace[q].i != h.trace[p].i
    ensures forall p, q :: 0 <= p < q < |h.trace| && h.trace[p].Closed? ==>
      h.trace[q].Closed? && h.trace[q].i < h.trace[p].i
  {
    var t := h.trace;
    forall p | 0 <= p < |t| ensures t[p] == if p < |a| then a[p] else b[p - |a|] {
    }
    forall i | 0 <= i < |h.open| ensures Closed(i) in t <==> !HasStopped(h, i) {
      if h.open[i] {
        assert forall p :: 0 <= p < |a| && Stops(a[p]) ==> a[p].i != i;
      } else {
        var p :| 0 <= p < |a| && Stops(a[p]) && a[p].i == i;
        assert t[p] == a[p] && HasStopped(h, i);
      }
    }
  }

  // ---------------------------------------------------------------------------------------
  // The implementation

  class ZipHelper<V> {
    const config: Config<V>
    var state: State
    var pos: seq<nat>
    /** Which of the iterators the helper still has. */
    var open: seq<bool>
    var trace: seq<Event>

    ghost function Now(): Helper
      reads this
    {
      Helper(state, pos, open, trace)
    }

    constructor (config: Config<V>)
      ensures this.config == config && Now() == Initial(config)
    {
      this.config := config;
      state := SuspendedStart;
      pos := seq(|config.sources|, i => 0);
      open := seq(|config.sources|, i => true);
      trace := [];
    }

    /** Closes the iterators from the last to the first; a failure given goes before one of closing. */
    method CloseIterators(failure: Option<Failure>) returns (f: Option<Failure>)
      requires |open| == |config.sources|
      modifies this`trace
      ensures trace == old(trace) + CloseAll(open)
      ensures f == if failure.Some? then failure else CloseFailure(config, open)
    {
      f := failure;
      var i := |open|;
      assert open[..i] == open;
      while i > 0
        invariant 0 <= i <= |open|
        invariant trace + CloseAll(open[..i]) == old(trace) + CloseAll(open)
        invariant (if f.Some? then f else CloseFailure(config, open[..i])) == if failure.Some? then failure
          else CloseFailure(config, open)
      {
        i := i - 1;
        assert open[..i + 1][..i] == open[..i];
        if open[i] {
          trace := trace + [Closed(i)];
          if f.None? && config.sources[i].closeThrows { f := Some(FromClosing(i)); }
        }
      }
    }

    /** Closes what is open and completes. */
    method Finish(failure: Option<Failure>) returns (r: Outcome<V>)
      requires Fits(config, Now())
      modifies this`trace, this`state
      ensures Result(Now(), r) == Shut(config, old(Now()), failure)
    {
      hide CloseAll, CloseFailure;
      var f := CloseIterators(failure);
      state := Completed;
      r := if f.Some? then Throws(f.value) else Done;
    }

    /** Steps the iterators after the first, which must all end. */
    method CheckOthers() returns (r: Outcome<V>)
      requires Configured(config) && Fits(config, Now()) && |config.sources| > 0
      modifies this`state, this`pos, this`open, this`trace
      ensures Result(Now(), r) == CheckRest(config, old(Now()), 1)
    {
      hide Shut;
      for k := 1 to |config.sources|
        invariant Fits(config, Now()) && CheckRest(config, Now(), k) == CheckRest(config, old(Now()), 1)
      {
        if pos[k] < |config.sources[k].values| {
          pos, trace := pos[k := pos[k] + 1], trace + [GaveValue(k)];
          r := Finish(Some(DifferentLengths));
          return;
        }
        if config.sources[k].throws {
          open, trace := open[k := false], trace + [Threw(k)];
          r := Finish(Some(FromIterator(k)));
          return;
        }
        open, trace := open[k := false], trace + [Ended(k)];
      }
      state := Completed;
      return Done;
    }

    method AnyOpen() returns (r: bool)
      ensures r <==> exists j :: 0 <= j < |open| && open[j]
    {
      for j := 0 to |open|
        invariant forall i :: 0 <= i < j ==> !open[i]
      {
        if open[j] { return true; }
      }
      return false;
    }

    method Step() returns (r: Outcome<V>)
      requires Configured(config) && Fits(config, Now()) && |config.sources| > 0
      requires !config.mode.Longest? ==> forall j :: 0 <= j < |open| ==> open[j]
      modifies this`state, this`pos, this`open, this`trace
      ensures Result(Now(), r) == StepFrom(config, old(Now()), 0, [])
    {
      hide Shut, CheckRest, Ready;
      var results := [];
      for i := 0 to |config.sources|
        invariant Fits(config, Now())
        invariant !config.mode.Longest? ==> forall j :: 0 <= j < |open| ==> open[j]
        invariant StepFrom(config, Now(), i, results) == StepFrom(config, old(Now()), 0, [])
      {
        var value;
        if !open[i] {
          value := config.padding[i];
        } else if pos[i] < |config.sources[i].values| {
          value := config.sources[i].values[pos[i]];
          pos, trace := pos[i := pos[i] + 1], trace + [GaveValue(i)];
        } else if config.sources[i].throws {
          open, trace := open[i := false], trace + [Threw(i)];
          r := Finish(Some(FromIterator(i)));
          return;
        } else {
          open, trace := open[i := false], trace + [Ended(i)];
          if config.mode.Shortest? {
            r := Finish(None);
            return;
          }
          if config.mode.Strict? {
            if i != 0 { r := Finish(Some(DifferentLengths)); } else { r := CheckOthers(); }
            return;
          }
          var more := AnyOpen();
          if !more {
            state := Completed;
            return Done;
          }
          value := config.padding[i];
        }
        results := results + [value];
      }
      state := SuspendedYield;
      return Row(results);
    }

    method NextResult() returns (r: Outcome<V>)
      requires Configured(config) && Fits(config, Now()) && (state.Executing? || Ready(config, Now()))
      modifies this`state, this`pos, this`open, this`trace
      ensures old(state).Executing? ==> r == Throws(AlreadyRunning) && Now() == old(Now())
      ensures !old(state).Executing? ==> Result(Now(), r) == Next(config, old(Now()))
    {
      hide StepFrom;
      if state.Executing? { return Throws(AlreadyRunning); }
      if state.Completed? { return Done; }
      state := Executing;
      if |config.sources| == 0 {
        state := Completed;
        return Done;
      }
      r := Step();
    }

    method ReturnResult() returns (r: Outcome<V>)
      requires Configured(config) && Fits(config, Now()) && (state.Executing? || Ready(config, Now()))
      modifies this`state, this`pos, this`open, this`trace
      ensures old(state).Executing? ==> r == Throws(AlreadyRunning) && Now() == old(Now())
      ensures !old(state).Executing? ==> Result(Now(), r) == Return(config, old(Now()))
    {
      if state.Executing? { return Throws(AlreadyRunning); }
      if state.Completed? { return Done; }
      if state.SuspendedStart? { state := Completed; } else { state := Executing; }
      r := Finish(None);
    }
  }
}
