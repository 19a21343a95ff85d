/**
 * The scroll-until-stable loop of `crawl_data` (commits_automation.py:127-150).
 *
 * The commit list grows as the page is scrolled. The loop polls the list,
 * compares the key of its last row with the key seen at the previous poll,
 * and stops when the list is empty or when five consecutive polls saw no
 * change. The browser is replaced by the sequence of observations the loop
 * would make, one per poll; scrolling and the two-second wait between polls
 * are what separates one observation from the next.
 */
module ScrollLoader {
  import opened Text
  import opened Page

  /** Consecutive unchanged polls after which loading is considered done. */
  const StableThreshold := 5

  /**
   * One poll: the `tr` rows found in the commits container, and whether
   * reading the cells of the last row raises (a stale element, say).
   */
  datatype Poll = Poll(rows: seq<Row>, lastRowReadFails: bool)

  datatype StopReason = NoRows | Stable

  /** Where the loop ends: at which poll and why, or not within the polls. */
  datatype LoadOutcome = Settled(poll: nat, reason: StopReason) | StillLoading

  /**
   * `current_last`: the stripped text of the first cell of the last row; a
   * last row without cells, or one whose cells cannot be read, gives "".
   */
  function LastKey(p: Poll): (k: string)
    ensures p.rows == [] || p.lastRowReadFails || p.rows[|p.rows| - 1].cells == [] ==> k == ""
    ensures p.rows != [] && !p.lastRowReadFails && p.rows[|p.rows| - 1].cells != [] ==>
              k == Strip(p.rows[|p.rows| - 1].cells[0].text)
  {
    if p.rows == [] || p.lastRowReadFails then ""
    else
      var last := p.rows[|p.rows| - 1];
      if last.cells == [] then "" else Strip(last.cells[0].text)
  }

  /** The key each poll sees, in poll order. */
  function Keys(polls: seq<Poll>): (keys: seq<string>)
    ensures |keys| == |polls|
  {
    if polls == [] then [] else Keys(polls[..|polls| - 1]) + [LastKey(polls[|polls| - 1])]
  }

  /** The key at position `i` is the key poll `i` sees. */
  lemma {:induction false} KeyAt(polls: seq<Poll>, i: nat)
    requires i < |polls|
    ensures Keys(polls)[i] == LastKey(polls[i])
  {
    if i < |polls| - 1 {
      KeyAt(polls[..|polls| - 1], i);
    }
  }

  /** `previous_last` when poll `i` is checked: "" before the first poll. */
  function PrevKey(keys: seq<string>, i: nat): string
    requires i <= |keys|
  {
    if i == 0 then "" else keys[i - 1]
  }

  /** Poll `i` saw the same last-row key as the poll before it. */
  predicate Unchanged(keys: seq<string>, i: nat)
    requires i < |keys|
  {
    keys[i] == PrevKey(keys, i)
  }

  /** `scroll_attempts` after poll `i` is checked. */
  function Attempts(keys: seq<string>, i: nat): nat
    requires i < |keys|
  {
    if !Unchanged(keys, i) then 0
    else if i == 0 then 1
    else Attempts(keys, i - 1) + 1
  }

  /** One check of the loop: the counter grows on an unchanged key and resets otherwise. */
  lemma AttemptsNext(keys: seq<string>, i: nat, before: nat)
    requires i < |keys| && before == (if i == 0 then 0 else Attempts(keys, i - 1))
    ensures Attempts(keys, i) == if keys[i] == PrevKey(keys, i) then before + 1 else 0
  {
  }

  /** The loop leaves at poll `i`. */
  predicate StopsAt(polls: seq<Poll>, i: nat)
    requires i < |polls|
  {
    polls[i].rows == [] || Attempts(Keys(polls), i) >= StableThreshold
  }

  /**
   * The `while True` loop run over `polls`. It ends at the first poll where
   * the list is empty or the counter reaches the threshold; every poll it
   * continues past left the counter below the threshold.
   */
  method LoadUntilStable(polls: seq<Poll>) returns (outcome: LoadOutcome)
    ensures outcome.Settled? ==> outcome.poll < |polls| && StopsAt(polls, outcome.poll)
    ensures outcome.Settled? ==> (outcome.reason == NoRows <==> polls[outcome.poll].rows == [])
    ensures outcome.Settled? && outcome.reason == Stable ==>
              Attempts(Keys(polls), outcome.poll) == StableThreshold
    ensures outcome.Settled? ==> forall j :: 0 <= j < outcome.poll ==> !StopsAt(polls, j)
    ensures outcome.StillLoading? ==> forall j :: 0 <= j < |polls| ==> !StopsAt(polls, j)
  {
    ghost var keys := Keys(polls);
    var scrollAttempts := 0;
    var previousLast := "";
    var i := 0;
    while i < |polls|
      invariant 0 <= i <= |polls|
      invariant previousLast == PrevKey(keys, i)
      invariant scrollAttempts == if i == 0 then 0 else Attempts(keys, i - 1)
      invariant scrollAttempts < StableThreshold
      invariant forall j :: 0 <= j < i ==> !StopsAt(polls, j)
    {
      if polls[i].rows == [] {
        return Settled(i, NoRows);
      }
      var currentLast := LastKey(polls[i]);
      KeyAt(polls, i);
      AttemptsNext(keys, i, scrollAttempts);
      if currentLast == previousLast {
        scrollAttempts := scrollAttempts + 1;
      } else {
        scrollAttempts := 0;
      }
      assert scrollAttempts == Attempts(keys, i);
      if scrollAttempts >= StableThreshold {
        return Settled(i, Stable);
      }
      assert !StopsAt(polls, i);
      previousLast := currentLast;
      i := i + 1;
    }
    return StillLoading;
  }

  /**
   * The counter is the length of the run of unchanged polls ending at `i`:
   * it has reached `n` exactly when the last `n` polls up to `i` each saw
   * the key of the poll before them.
   */
  lemma {:induction false} AttemptsCountQuietRun(keys: seq<string>, i: nat, n: nat)
    requires i < |keys| && n >= 1
    ensures Attempts(keys, i) >= n <==>
              (n <= i + 1 && forall j :: i + 1 - n <= j <= i ==> Unchanged(keys, j))
    decreases n
  {
    if n == 1 || !Unchanged(keys, i) || i == 0 {
      assert i + 1 - n <= i;
    } else {
      AttemptsCountQuietRun(keys, i - 1, n - 1);
      if Attempts(keys, i - 1) >= n - 1 {
        forall j | i + 1 - n <= j <= i ensures Unchanged(keys, j) {
          if j < i {
            assert i - 1 + 1 - (n - 1) <= j <= i - 1;
          }
        }
      }
    }
  }

  /**
   * The stability stop, stated without the counter: loading ends on
   * stability at poll `i` exactly when polls i-4 .. i all saw no change.
   */
  lemma StableIffFiveQuietPolls(polls: seq<Poll>, i: nat)
    requires i < |polls|
    ensures Attempts(Keys(polls), i) >= StableThreshold <==>
              (i >= StableThreshold - 1 &&
               forall j :: i + 1 - StableThreshold <= j <= i ==> Unchanged(Keys(polls), j))
  {
    AttemptsCountQuietRun(Keys(polls), i, StableThreshold);
  }

  /**
   * Polls that keep seeing the same key: with a non-empty key the first
   * poll is a change (against the initial "") and each later poll adds one,
   * so the counter is `i` at poll `i`; with the key "" the first poll
   * already counts as unchanged and the counter is `i + 1`.
   */
  lemma {:induction false} SameKeyCounts(keys: seq<string>, i: nat)
    requires i < |keys|
    requires forall j :: 0 <= j <= i ==> keys[j] == keys[0]
    ensures Attempts(keys, i) == if keys[0] == "" then i + 1 else i
  {
    if i > 0 {
      SameKeyCounts(keys, i - 1);
    }
  }

  /**
   * A list that does not grow is settled at the sixth poll (the fifth poll
   * after the first), or at the fifth when its last row gives the key "".
   */
  lemma SameListSettles(polls: seq<Poll>)
    requires |polls| >= StableThreshold + 1
    requires polls[0].rows != []
    requires forall j :: 0 <= j < |polls| ==> polls[j] == polls[0]
    ensures var stop := if LastKey(polls[0]) == "" then StableThreshold - 1 else StableThreshold;
            StopsAt(polls, stop) && forall j :: 0 <= j < stop ==> !StopsAt(polls, j)
  {
    var keys := Keys(polls);
    KeyAt(polls, 0);
    var stop := if keys[0] == "" then StableThreshold - 1 else StableThreshold;
    forall j | 0 <= j < |polls| ensures keys[j] == keys[0] {
      KeyAt(polls, j);
      KeyAt(polls, 0);
    }
    SameKeyCounts(keys, stop);
    forall j | 0 <= j < stop ensures !StopsAt(polls, j) {
      SameKeyCounts(keys, j);
    }
  }
}
