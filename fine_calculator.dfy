/**
 * The fine policy of `backend/utils/fine_calculator.py`: days overdue and
 * `min(days * FINE_PER_DAY, MAX_FINE_AMOUNT)`, a severity banding, and the
 * pending-only total over a list of fine dictionaries. Money is in cents.
 */
module FineCalculator {
  import opened Common
  import opened Dates
  import opened LibraryConfig

  /**
   * The policy on ordinals, as `(amount, days_overdue)`. On time or early
   * gives `(0, 0)`; late gives the whole days late and the daily rate times
   * those days, capped. This is also the computation `return_book` does.
   */
  function FineFor(due: int, returned: int, cfg: Settings): (r: (int, int))
    ensures returned <= due ==> r == (0, 0)
    ensures returned > due ==> r.1 == returned - due > 0
    ensures returned > due ==> r.0 <= cfg.maxFineAmount && r.0 <= r.1 * cfg.finePerDay
    ensures returned > due ==> r.0 == cfg.maxFineAmount || r.0 == r.1 * cfg.finePerDay
  {
    if returned <= due then (0, 0)
    else
      var days := returned - due;
      (Min(days * cfg.finePerDay, cfg.maxFineAmount), days)
  }

  /** With a non-negative rate and cap the amount is between 0 and the cap. */
  lemma FineBounded(due: int, returned: int, cfg: Settings)
    requires cfg.finePerDay >= 0 && cfg.maxFineAmount >= 0
    ensures 0 <= FineFor(due, returned, cfg).0 <= cfg.maxFineAmount
  {
    if returned > due {
      var days := returned - due;
      assert days * cfg.finePerDay >= 0;
    }
  }

  /** Returning later never costs less. */
  lemma FineMonotone(due: int, r1: int, r2: int, cfg: Settings)
    requires r1 <= r2
    requires cfg.finePerDay >= 0 && cfg.maxFineAmount >= 0
    ensures FineFor(due, r1, cfg).0 <= FineFor(due, r2, cfg).0
  {
    if r1 <= due {
      FineBounded(due, r2, cfg);
    } else {
      ScaleMonotone(r1 - due, r2 - due, cfg.finePerDay);
    }
  }

  lemma ScaleMonotone(a: int, b: int, k: int)
    requires a <= b && k >= 0
    ensures a * k <= b * k
  {
    assert b * k - a * k == (b - a) * k;
  }

  /** Once the cap is reached, further days cost nothing more. */
  lemma FineCapped(due: int, returned: int, cfg: Settings)
    requires returned > due && (returned - due) * cfg.finePerDay >= cfg.maxFineAmount
    ensures FineFor(due, returned, cfg).0 == cfg.maxFineAmount
  {
  }

  /**
   * `calculate_fine(due_date_str, return_date_str)`: a missing or empty
   * return date means today; a due date that is `None` or does not parse,
   * or a return date that does not parse, gives `(0, 0)`.
   */
  function CalculateFine(dueText: Option<string>, returnText: Option<string>, today: int, cfg: Settings): (r: (int, int))
    ensures dueText.None? || ParseDate(dueText.value).None? ==> r == (0, 0)
    ensures Given(returnText) && ParseDate(returnText.value).None? ==> r == (0, 0)
    ensures dueText.Some? && ParseDate(dueText.value).Some? ==>
              var due := Ordinal(ParseDate(dueText.value).value);
              if !Given(returnText) then r == FineFor(due, today, cfg)
              else ParseDate(returnText.value).Some? ==> r == FineFor(due, Ordinal(ParseDate(returnText.value).value), cfg)
  {
    match dueText
    case None => (0, 0)
    case Some(text) =>
      match ParseDate(text)
      case None => (0, 0)
      case Some(due) =>
        if !Given(returnText) then FineFor(Ordinal(due), today, cfg)
        else
          match ParseDate(returnText.value)
          case None => (0, 0)
          case Some(ret) => FineFor(Ordinal(due), Ordinal(ret), cfg)
  }

  /** The worked examples of the fine policy at the default settings. */
  lemma FineExamples()
    ensures FineFor(Ordinal(Date(2024, 1, 1)), Ordinal(Date(2024, 1, 1)), Defaults) == (0, 0)
    ensures FineFor(Ordinal(Date(2024, 1, 1)), Ordinal(Date(2024, 1, 11)), Defaults) == (5000, 10)
    ensures FineFor(Ordinal(Date(2024, 1, 1)), Ordinal(Date(2025, 1, 1)), Defaults) == (50000, 366)
  {
  }

  /** `calculate_fine` on stored ISO dates is the policy on their ordinals. */
  lemma CalculateFineOnStoredDates(due: Date, ret: Date, today: int, cfg: Settings)
    requires ValidDate(due) && ValidDate(ret)
    ensures CalculateFine(Some(IsoFormat(due)), Some(IsoFormat(ret)), today, cfg) == FineFor(Ordinal(due), Ordinal(ret), cfg)
  {
    ParseIsoFormat(due);
    ParseIsoFormat(ret);
  }

  // ---------------------------------------------------------------------------
  // get_fine_status
  // ---------------------------------------------------------------------------

  /** `get_fine_status`: the severity label for a number of days overdue. */
  function GetFineStatus(days: int): (r: string)
    ensures r == "No fine" <==> days == 0
    ensures r == "Minor overdue" <==> days != 0 && days <= 7
    ensures r == "Moderate overdue" <==> 8 <= days <= 30
    ensures r == "Severe overdue" <==> days > 30
  {
    if days == 0 then "No fine"
    else if days <= 7 then "Minor overdue"
    else if days <= 30 then "Moderate overdue"
    else "Severe overdue"
  }

  // ---------------------------------------------------------------------------
  // calculate_total_fines
  // ---------------------------------------------------------------------------

  /** A fine dictionary as far as the total reads it: `amount` and `status`, each possibly missing. */
  datatype FineEntry = FineEntry(amount: Option<int>, status: Option<string>)

  predicate IsPendingEntry(e: FineEntry) {
    e.status == Some("pending")
  }

  function AmountOrZero(e: FineEntry): int {
    match e.amount
    case None => 0
    case Some(a) => a
  }

  /** `calculate_total_fines`: the generator sum, one entry at a time. */
  function CalculateTotalFines(fines: seq<FineEntry>): int {
    if fines == [] then 0
    else (if IsPendingEntry(fines[0]) then AmountOrZero(fines[0]) else 0) + CalculateTotalFines(fines[1..])
  }

  /** The total is the sum of the amounts of exactly the pending entries. */
  lemma {:induction false} TotalIsPendingSum(fines: seq<FineEntry>)
    ensures CalculateTotalFines(fines) == SumOf(Filter(fines, IsPendingEntry), AmountOrZero)
  {
    if fines != [] {
      TotalIsPendingSum(fines[1..]);
      var rest := Filter(fines[1..], IsPendingEntry);
      if IsPendingEntry(fines[0]) {
        assert Filter(fines, IsPendingEntry) == [fines[0]] + rest;
        assert ([fines[0]] + rest)[1..] == rest;
      } else {
        assert Filter(fines, IsPendingEntry) == [] + rest == rest;
      }
    }
  }

  /** Totals of two lists add up; paid, waived or status-less entries contribute nothing. */
  lemma {:induction false} TotalAdditive(a: seq<FineEntry>, b: seq<FineEntry>)
    ensures CalculateTotalFines(a + b) == CalculateTotalFines(a) + CalculateTotalFines(b)
  {
    if a == [] {
      assert a + b == b;
    } else {
      assert (a + b)[1..] == a[1..] + b;
      TotalAdditive(a[1..], b);
    }
  }

  lemma {:induction false} TotalIgnoresSettled(fines: seq<FineEntry>)
    requires forall i :: 0 <= i < |fines| ==> !IsPendingEntry(fines[i])
    ensures CalculateTotalFines(fines) == 0
  {
    if fines != [] {
      TotalIgnoresSettled(fines[1..]);
    }
  }
}
