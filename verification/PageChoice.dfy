/**
 Which pages slob_alloc tries, as a function of the free units of the pages on a list.

 The scan for each page looks for a smaller roomy page among the first positions of the
 list.  A record is a roomy page with no strictly smaller roomy page among the first
 SCAN_LIMIT positions before it.  The pages tried are exactly the records.
 */
module PageChoice {

  const SCAN_LIMIT: int := 50

  predicate Roomy(us: seq<int>, need: int, i: int)
    requires 0 <= i < |us|
  {
    us[i] >= need
  }

  /** The best page after i steps of the scan made for page j. */
  ghost function Scan(us: seq<int>, need: int, j: int, i: int): int
    requires 0 <= j < |us| && 0 <= i <= |us|
    ensures 0 <= Scan(us, need, j, i) < |us|
    decreases i
  {
    if i == 0 then j else
      var best := Scan(us, need, j, i - 1);
      if Roomy(us, need, i - 1) && us[i - 1] < us[best] then i - 1 else best
  }

  ghost function Steps(j: int): int {
    if j + 1 < SCAN_LIMIT then j + 1 else SCAN_LIMIT
  }

  /** The page that is tried when the search has reached the roomy page j. */
  ghost function BestFor(us: seq<int>, need: int, j: int): (best: int)
    requires 0 <= j < |us|
    ensures 0 <= best < |us|
  {
    Scan(us, need, j, Steps(j))
  }

  ghost predicate Record(us: seq<int>, need: int, j: int) {
    && 0 <= j < |us| && Roomy(us, need, j)
    && forall k :: 0 <= k < j && k < SCAN_LIMIT ==> Roomy(us, need, k) ==> us[j] <= us[k]
  }

  lemma {:induction false} ScanIsFirstMinimum(us: seq<int>, need: int, j: int, i: int)
    requires 0 <= j < |us| && Roomy(us, need, j) && 0 <= i <= j + 1
    ensures var best := Scan(us, need, j, i);
            && best <= j && Roomy(us, need, best) && us[best] <= us[j]
            && (forall k :: 0 <= k < i && Roomy(us, need, k) ==> us[best] <= us[k])
            && (best == j || (best < i && us[best] < us[j] &&
                              forall k :: 0 <= k < best && Roomy(us, need, k) ==> us[best] < us[k]))
    decreases i
  {
    if i > 0 {
      ScanIsFirstMinimum(us, need, j, i - 1);
    }
  }

  /** Whatever the scan settles on is a record at or before the current page, and no larger. */
  lemma BestIsRecord(us: seq<int>, need: int, j: int)
    requires 0 <= j < |us| && Roomy(us, need, j)
    ensures Record(us, need, BestFor(us, need, j)) && BestFor(us, need, j) <= j
    ensures us[BestFor(us, need, j)] <= us[j]
  {
    ScanIsFirstMinimum(us, need, j, Steps(j));
  }

  /** The scan looks at the first 50 pages, or as far as the current one, and takes the first of the smallest. */
  lemma BestOfFirstFifty(us: seq<int>, need: int, j: int)
    requires 0 <= j < |us| && us[j] >= need
    ensures var best := BestFor(us, need, j);
            && best <= j && (best < 50 || best == j) && us[best] >= need
            && (forall k :: 0 <= k <= j && k < 50 && us[k] >= need ==> us[best] <= us[k])
            && (best != j ==> us[best] < us[j] && forall k :: 0 <= k < best && us[k] >= need ==> us[best] < us[k])
  {
    ScanIsFirstMinimum(us, need, j, Steps(j));
  }

  lemma BestOfRecordIsItself(us: seq<int>, need: int, j: int)
    requires Record(us, need, j)
    ensures BestFor(us, need, j) == j
  {
    ScanIsFirstMinimum(us, need, j, Steps(j));
  }

  /** The pages tried, in order, while the search passes the first j pages. */
  ghost function Attempts(us: seq<int>, need: int, j: int): seq<int>
    requires 0 <= j <= |us|
  {
    if j == 0 then [] else
      Attempts(us, need, j - 1) + if Roomy(us, need, j - 1) then [BestFor(us, need, j - 1)] else []
  }

  /** A search that passes j pages without success has tried exactly the records among them. */
  lemma {:induction false} AttemptsAreRecords(us: seq<int>, need: int, j: int, i: int)
    requires 0 <= j <= |us|
    ensures i in Attempts(us, need, j) <==> i < j && Record(us, need, i)
    decreases j
  {
    if j > 0 {
      AttemptsAreRecords(us, need, j - 1, i);
      if Roomy(us, need, j - 1) {
        BestIsRecord(us, need, j - 1);
        var best := BestFor(us, need, j - 1);
        if best < j - 1 {
          AttemptsAreRecords(us, need, j - 1, best);
        }
        if Record(us, need, j - 1) {
          BestOfRecordIsItself(us, need, j - 1);
        }
      }
    }
  }

  /** The first attempt goes to the first roomy page. */
  lemma FirstAttemptIsFirstRoomy(us: seq<int>, need: int, j: int)
    requires 0 <= j < |us| && Roomy(us, need, j)
    requires forall k :: 0 <= k < j ==> !Roomy(us, need, k)
    ensures Attempts(us, need, j + 1) == [j]
  {
    NothingTriedBefore(us, need, j);
    BestOfRecordIsItself(us, need, j);
  }

  lemma {:induction false} NothingTriedBefore(us: seq<int>, need: int, j: int)
    requires 0 <= j <= |us| && forall k :: 0 <= k < j ==> !Roomy(us, need, k)
    ensures Attempts(us, need, j) == []
    decreases j
  {
    if j > 0 {
      NothingTriedBefore(us, need, j - 1);
    }
  }

  /** The roomy page with the fewest free units (the first of them) is always among those tried. */
  lemma FewestUnitsIsTried(us: seq<int>, need: int, m: int)
    requires 0 <= m < |us| && Roomy(us, need, m)
    requires forall k :: 0 <= k < |us| && Roomy(us, need, k) ==> us[m] <= us[k]
    ensures m in Attempts(us, need, |us|)
  {
    AttemptsAreRecords(us, need, |us|, m);
  }

  /** No record among the first j pages fits. */
  ghost predicate FailsUpTo(us: seq<int>, need: int, fits: seq<bool>, j: int)
    requires |fits| == |us|
  {
    forall k :: k < j && Record(us, need, k) ==> !fits[k]
  }

  /** The page a search succeeds on: the first record that fits. */
  ghost predicate Chosen(us: seq<int>, need: int, fits: seq<bool>, c: int)
    requires |fits| == |us|
  {
    Record(us, need, c) && fits[c] && FailsUpTo(us, need, fits, c)
  }

  /** No page is chosen although pages fit: the search gives up on this list. */
  ghost predicate GivesUp(us: seq<int>, need: int, fits: seq<bool>)
    requires |fits| == |us|
  {
    FailsUpTo(us, need, fits, |us|)
  }

  /** If the records before j do not fit, a try made from page j succeeds only on j itself. */
  lemma SuccessIsAtCurrentPage(us: seq<int>, need: int, fits: seq<bool>, j: int)
    requires |fits| == |us| && 0 <= j < |us| && Roomy(us, need, j)
    requires FailsUpTo(us, need, fits, j)
    ensures fits[BestFor(us, need, j)] <==> Chosen(us, need, fits, j)
    ensures fits[BestFor(us, need, j)] ==> BestFor(us, need, j) == j
    ensures !fits[BestFor(us, need, j)] ==> FailsUpTo(us, need, fits, j + 1)
  {
    BestIsRecord(us, need, j);
    if Record(us, need, j) {
      BestOfRecordIsItself(us, need, j);
    }
  }

  /** Page c is a best fit: it fits, and no page that fits has fewer free units. */
  ghost predicate BestFit(us: seq<int>, need: int, fits: seq<bool>, c: int)
    requires |fits| == |us|
  {
    && 0 <= c < |us| && Roomy(us, need, c) && fits[c]
    && forall p :: 0 <= p < |us| && Roomy(us, need, p) && fits[p] ==> us[c] <= us[p]
  }

  /** Some roomy page fits. */
  ghost predicate SomeFits(us: seq<int>, need: int, fits: seq<bool>)
    requires |fits| == |us|
  {
    exists p :: 0 <= p < |us| && Roomy(us, need, p) && fits[p]
  }

  /** Pages before the chosen one never spoil the choice; later ones do if they fit and are smaller. */
  lemma BestFitIff(us: seq<int>, need: int, fits: seq<bool>, c: int)
    requires |fits| == |us| && Chosen(us, need, fits, c)
    ensures BestFit(us, need, fits, c) <==>
            forall p :: c < p < |us| && Roomy(us, need, p) && fits[p] ==> us[c] <= us[p]
  {
    forall p | 0 <= p < c && Roomy(us, need, p) && fits[p] ensures us[c] <= us[p] {
      assert !Record(us, need, p);
    }
  }

  /** The search gives up exactly when every page that fits is hidden by an earlier smaller roomy one. */
  lemma GivesUpIff(us: seq<int>, need: int, fits: seq<bool>)
    requires |fits| == |us|
    ensures GivesUp(us, need, fits) <==>
            forall p :: 0 <= p < |us| && Roomy(us, need, p) && fits[p] ==>
              exists k :: 0 <= k < p && k < 50 && Roomy(us, need, k) && us[k] < us[p]
  {
  }

  /** The page chosen fits and is not hidden, and every earlier page that fits is hidden. */
  lemma ChosenIff(us: seq<int>, need: int, fits: seq<bool>, c: int)
    requires |fits| == |us|
    ensures Chosen(us, need, fits, c) <==>
              && 0 <= c < |us| && us[c] >= need && fits[c]
              && (forall k :: 0 <= k < c && k < 50 && us[k] >= need ==> us[c] <= us[k])
              && (forall p :: 0 <= p < c && us[p] >= need && fits[p] ==>
                    exists k :: 0 <= k < p && k < 50 && us[k] >= need && us[k] < us[p])
  {
    if Chosen(us, need, fits, c) {
      forall p | 0 <= p < c && us[p] >= need && fits[p]
        ensures exists k :: 0 <= k < p && k < 50 && us[k] >= need && us[k] < us[p]
      {
        assert !Record(us, need, p);
      }
    }
  }
}
