/** Stage 1 of the scraper (`stage1_collect_links` in backend/fb_scraper.py):
    the member list is scrolled batch by batch; every new member link with a
    usable name is recorded once, and the ones the industry filter accepts
    become candidates for the deep scrape. The browser is abstracted as
    `harvest(k)`, the items read from the page on iteration `k`, and the
    industry filter as the predicate `qualifies`. */
module Collector {
  import opened Text

  const MaxScrolls: nat := 50000
  const StallLimit: nat := 20
  const SegmentSize: nat := 50
  const TopSegment: nat := 10
  const StopNames: seq<string> := ["see more", "view profile", "message", "add friend"]

  /** One member card read from the page. */
  datatype Item = Item(href: string, name: string, context: string)

  /** A member the industry filter accepted. */
  datatype Candidate = Candidate(url: string, text: string, context: string)

  /** The collector's data: every link seen so far and the accepted members. */
  datatype Harvest = Harvest(scanned: set<string>, matches: seq<Candidate>)

  /** The collector's state between iterations. */
  datatype Scan = Scan(harvest: Harvest, noNew: nat)

  /** What is reported after each iteration. */
  datatype Progress = Progress(membersScanned: nat, matchesFound: nat, segment: nat, caption: string)

  /** Names shorter than two characters and the button captions are not members. */
  predicate ValidName(name: string) {
    |name| >= 2 && Lower(name) !in StopNames
  }

  /** The text the industry filter is asked about. */
  function FullText(it: Item): string {
    it.name + " " + it.context
  }

  /** The links a batch contributes: those of its items with a valid name. */
  function ValidHrefs(batch: seq<Item>): set<string> {
    set i | 0 <= i < |batch| && ValidName(batch[i].name) :: batch[i].href
  }

  /** One pass of the inner loop over a batch. */
  function AbsorbItem(h: Harvest, it: Item, qualifies: string -> bool): Harvest {
    if it.href in h.scanned || !ValidName(it.name) then h
    else
      var matches := if qualifies(FullText(it)) then h.matches + [Candidate(it.href, it.name, it.context)]
                     else h.matches;
      Harvest(h.scanned + {it.href}, matches)
  }

  function AbsorbBatch(h: Harvest, batch: seq<Item>, qualifies: string -> bool): Harvest
    decreases |batch|
  {
    if batch == [] then h
    else AbsorbItem(AbsorbBatch(h, batch[..|batch| - 1], qualifies), batch[|batch| - 1], qualifies)
  }

  /** Every accepted member has been scanned, and no member is accepted twice. */
  predicate Consistent(h: Harvest) {
    && (forall i :: 0 <= i < |h.matches| ==> h.matches[i].url in h.scanned)
    && (forall i, j :: 0 <= i < j < |h.matches| ==> h.matches[i].url != h.matches[j].url)
  }

  /** A candidate that the filters let through. */
  predicate Accepted(c: Candidate, qualifies: string -> bool) {
    ValidName(c.text) && qualifies(c.text + " " + c.context)
  }

  /** What a batch does to the collector's data: the links it adds are exactly
      the valid ones (each once, however often it occurs), earlier matches are
      kept in order, every new match is a newly scanned link the filters let
      through, and consistency is preserved. */
  lemma {:induction false} AbsorbBatchEffect(h: Harvest, batch: seq<Item>, qualifies: string -> bool)
    requires Consistent(h)
    ensures var h' := AbsorbBatch(h, batch, qualifies);
            && h'.scanned == h.scanned + ValidHrefs(batch)
            && h.matches <= h'.matches
            && (forall i :: |h.matches| <= i < |h'.matches| ==>
                  h'.matches[i].url !in h.scanned && Accepted(h'.matches[i], qualifies))
            && Consistent(h')
    decreases |batch|
  {
    if batch != [] {
      var init := batch[..|batch| - 1];
      var it := batch[|batch| - 1];
      AbsorbBatchEffect(h, init, qualifies);
      var m := AbsorbBatch(h, init, qualifies);
      ValidHrefsSnoc(batch);
      AbsorbItemEffect(m, it, qualifies);
    }
  }

  /** The links a batch adds to the scanned set are exactly its valid links. */
  lemma {:induction false} AbsorbBatchScanned(h: Harvest, batch: seq<Item>, qualifies: string -> bool)
    ensures AbsorbBatch(h, batch, qualifies).scanned == h.scanned + ValidHrefs(batch)
    decreases |batch|
  {
    if batch != [] {
      AbsorbBatchScanned(h, batch[..|batch| - 1], qualifies);
      ValidHrefsSnoc(batch);
    }
  }

  /** Item `i` is the first item of the batch with a valid name and its link,
      and that link had not been scanned before the batch. */
  predicate FirstNewAt(scanned: set<string>, batch: seq<Item>, i: nat)
    requires i < |batch|
  {
    && ValidName(batch[i].name)
    && batch[i].href !in scanned
    && forall j :: 0 <= j < i && ValidName(batch[j].name) ==> batch[j].href != batch[i].href
  }

  /** The candidates a batch should yield: its items that are the first valid
      occurrence of a link not scanned before and that the filter accepts, in
      batch order. */
  function Fresh(scanned: set<string>, batch: seq<Item>, qualifies: string -> bool): seq<Candidate>
    decreases |batch|
  {
    if batch == [] then []
    else
      var it := batch[|batch| - 1];
      Fresh(scanned, batch[..|batch| - 1], qualifies)
        + (if FirstNewAt(scanned, batch, |batch| - 1) && qualifies(FullText(it))
           then [Candidate(it.href, it.name, it.context)] else [])
  }

  /** The matches a batch appends are exactly the candidates `Fresh` selects,
      in batch order: every newly scanned member the filter accepts becomes a
      match, and nothing else does. */
  lemma {:induction false} AbsorbBatchMatches(h: Harvest, batch: seq<Item>, qualifies: string -> bool)
    ensures AbsorbBatch(h, batch, qualifies).matches == h.matches + Fresh(h.scanned, batch, qualifies)
    ensures forall i: nat :: i < |batch| && FirstNewAt(h.scanned, batch, i) && qualifies(FullText(batch[i])) ==>
              Candidate(batch[i].href, batch[i].name, batch[i].context) in
                AbsorbBatch(h, batch, qualifies).matches[|h.matches|..]
    decreases |batch|
  {
    if batch != [] {
      var init := batch[..|batch| - 1];
      var it := batch[|batch| - 1];
      var last := |batch| - 1;
      AbsorbBatchMatches(h, init, qualifies);
      AbsorbBatchScanned(h, init, qualifies);
      var m := AbsorbBatch(h, init, qualifies);
      LastIsNew(h.scanned, batch);
      assert (it.href !in m.scanned && ValidName(it.name)) <==> FirstNewAt(h.scanned, batch, last);
    }
    FreshContains(h.scanned, batch, qualifies);
  }

  /** The last item of a batch adds a new link exactly when it is the first
      valid occurrence of a link not scanned before. */
  lemma LastIsNew(scanned: set<string>, batch: seq<Item>)
    requires batch != []
    ensures var it := batch[|batch| - 1];
            (it.href !in scanned + ValidHrefs(batch[..|batch| - 1]) && ValidName(it.name))
              <==> FirstNewAt(scanned, batch, |batch| - 1)
  {
    var init := batch[..|batch| - 1];
    var it := batch[|batch| - 1];
    var last := |batch| - 1;
    if it.href in ValidHrefs(init) {
      var j :| 0 <= j < |init| && ValidName(init[j].name) && init[j].href == it.href;
      assert batch[j] == init[j];
    }
    if exists j :: 0 <= j < last && ValidName(batch[j].name) && batch[j].href == it.href {
      var j :| 0 <= j < last && ValidName(batch[j].name) && batch[j].href == it.href;
      assert init[j] == batch[j];
    }
  }

  lemma {:induction false} FreshContains(scanned: set<string>, batch: seq<Item>, qualifies: string -> bool)
    ensures forall i: nat :: i < |batch| && FirstNewAt(scanned, batch, i) && qualifies(FullText(batch[i])) ==>
              Candidate(batch[i].href, batch[i].name, batch[i].context) in Fresh(scanned, batch, qualifies)
    decreases |batch|
  {
    if batch != [] {
      var init := batch[..|batch| - 1];
      FreshContains(scanned, init, qualifies);
      forall i: nat | i < |batch| - 1 && FirstNewAt(scanned, batch, i)
        ensures FirstNewAt(scanned, init, i)
      {
        assert forall j :: 0 <= j <= i ==> init[j] == batch[j];
      }
    }
  }

  /** The valid links of a batch are those of all but its last item, plus the
      last item's link when its name is valid. */
  lemma ValidHrefsSnoc(batch: seq<Item>)
    requires batch != []
    ensures var it := batch[|batch| - 1];
            ValidHrefs(batch) == ValidHrefs(batch[..|batch| - 1]) + (if ValidName(it.name) then {it.href} else {})
  {
    var init := batch[..|batch| - 1];
    var it := batch[|batch| - 1];
    forall x | x in ValidHrefs(batch)
      ensures x in ValidHrefs(init) + (if ValidName(it.name) then {it.href} else {})
    {
      var i :| 0 <= i < |batch| && ValidName(batch[i].name) && batch[i].href == x;
      if i < |init| {
        assert init[i] == batch[i];
      }
    }
    forall x | x in ValidHrefs(init)
      ensures x in ValidHrefs(batch)
    {
      var i :| 0 <= i < |init| && ValidName(init[i].name) && init[i].href == x;
      assert batch[i] == init[i];
    }
  }

  /** One item adds its link when its name is valid, appends it to the
      matches when it is new and the filters let it through, and keeps the
      harvest consistent. */
  lemma AbsorbItemEffect(h: Harvest, it: Item, qualifies: string -> bool)
    requires Consistent(h)
    ensures var h' := AbsorbItem(h, it, qualifies);
            && h'.scanned == h.scanned + (if ValidName(it.name) then {it.href} else {})
            && h.matches <= h'.matches
            && (forall i :: |h.matches| <= i < |h'.matches| ==>
                  h'.matches[i].url !in h.scanned && Accepted(h'.matches[i], qualifies))
            && Consistent(h')
  {
    if it.href !in h.scanned && ValidName(it.name) && qualifies(FullText(it)) {
      var h' := AbsorbItem(h, it, qualifies);
      assert h'.matches == h.matches + [Candidate(it.href, it.name, it.context)];
      assert Consistent(h') by {
        forall i, j | 0 <= i < j < |h'.matches|
          ensures h'.matches[i].url != h'.matches[j].url
        {
          if j == |h.matches| {
            assert h'.matches[i] == h.matches[i];
          }
        }
      }
    }
  }

  /** The number of links a batch adds is the number of its distinct valid
      links not seen before. */
  lemma AbsorbBatchGrowth(h: Harvest, batch: seq<Item>, qualifies: string -> bool)
    requires Consistent(h)
    ensures |AbsorbBatch(h, batch, qualifies).scanned| == |h.scanned| + |ValidHrefs(batch) - h.scanned|
  {
    AbsorbBatchEffect(h, batch, qualifies);
    var added := ValidHrefs(batch) - h.scanned;
    assert h.scanned + ValidHrefs(batch) == h.scanned + added;
    assert h.scanned !! added;
  }

  /** A set that grows without changing its size does not change. */
  lemma SameSizeSuperset(a: set<string>, b: set<string>)
    requires a <= b
    ensures |b| - |a| >= 0
    ensures |a| == |b| <==> a == b
  {
    var added := b - a;
    assert b == a + added;
    assert a !! added;
    if a != b {
      var x :| x in b && x !in a;
      assert x in added;
    }
  }

  /** The inner `for` loop over one batch: returns the new data and `new_found`. */
  method ScanBatch(scanned: set<string>, matches: seq<Candidate>, batch: seq<Item>, qualifies: string -> bool)
    returns (scanned': set<string>, matches': seq<Candidate>, newFound: nat)
    ensures Harvest(scanned', matches') == AbsorbBatch(Harvest(scanned, matches), batch, qualifies)
    ensures newFound == |scanned'| - |scanned|
  {
    scanned', matches', newFound := scanned, matches, 0;
    for i := 0 to |batch|
      invariant Harvest(scanned', matches') == AbsorbBatch(Harvest(scanned, matches), batch[..i], qualifies)
      invariant newFound == |scanned'| - |scanned|
    {
      assert batch[..i + 1][..i] == batch[..i];
      var item := batch[i];
      if item.href in scanned' {
        continue;
      }
      if |item.name| < 2 || Lower(item.name) in StopNames {
        continue;
      }
      scanned' := scanned' + {item.href};
      newFound := newFound + 1;
      var fullText := item.name + " " + item.context;
      if qualifies(fullText) {
        matches' := matches' + [Candidate(item.href, item.name, item.context)];
      }
    }
    assert batch[..|batch|] == batch;
  }

  /** One iteration of the outer loop. */
  function Step(s: Scan, batch: seq<Item>, qualifies: string -> bool): Scan {
    var h := AbsorbBatch(s.harvest, batch, qualifies);
    Scan(h, if h.scanned == s.harvest.scanned then s.noNew + 1 else 0)
  }

  /** The state after `k` iterations. */
  function After(harvest: nat -> seq<Item>, qualifies: string -> bool, k: nat): Scan {
    if k == 0 then Scan(Harvest({}, []), 0)
    else Step(After(harvest, qualifies, k - 1), harvest(k - 1), qualifies)
  }

  /** The loop condition fails after `k` iterations. */
  predicate Stops(harvest: nat -> seq<Item>, qualifies: string -> bool, k: nat) {
    k >= MaxScrolls || After(harvest, qualifies, k).noNew >= StallLimit
  }

  /** The number of iterations the loop runs, counting from `k`. */
  function StopAt(harvest: nat -> seq<Item>, qualifies: string -> bool, k: nat): (n: nat)
    ensures k <= n && Stops(harvest, qualifies, n)
    ensures forall j :: k <= j < n ==> !Stops(harvest, qualifies, j)
    decreases MaxScrolls - k
  {
    if Stops(harvest, qualifies, k) then k else StopAt(harvest, qualifies, k + 1)
  }

  /** The progress label: the segment number, or `100+` at the top segment. */
  function SegmentLabel(segment: nat): (r: string)
    requires segment <= TopSegment
    ensures segment == TopSegment <==> r == "100+"
    ensures segment < TopSegment ==> |r| == 1 && IsDigit(r[0]) && r[0] as int - '0' as int == segment
  {
    if segment >= TopSegment then "100+" else [('0' as int + segment) as char]
  }

  function Report(s: Scan): (p: Progress)
    ensures p.segment <= TopSegment
  {
    var segment := Min(|s.harvest.scanned| / SegmentSize, TopSegment);
    Progress(|s.harvest.scanned|, |s.harvest.matches|, segment, SegmentLabel(segment))
  }

  /** The progress reports of the first `n` iterations. */
  function Reports(harvest: nat -> seq<Item>, qualifies: string -> bool, n: nat): (r: seq<Progress>)
    ensures |r| == n
  {
    if n == 0 then [] else Reports(harvest, qualifies, n - 1) + [Report(After(harvest, qualifies, n))]
  }

  /** Report `i` describes the state after iteration `i`. */
  lemma {:induction false} ReportsDescribeStates(harvest: nat -> seq<Item>, qualifies: string -> bool, n: nat)
    ensures forall i :: 0 <= i < n ==> Reports(harvest, qualifies, n)[i] == Report(After(harvest, qualifies, i + 1))
  {
    if n > 0 {
      ReportsDescribeStates(harvest, qualifies, n - 1);
    }
  }

  /** The collector: scrolls until 50000 iterations have run or 20 iterations
      in a row found nothing new, and returns every scanned link and the
      accepted members in discovery order, with one progress report per
      iteration. */
  method CollectLinks(harvest: nat -> seq<Item>, qualifies: string -> bool)
    returns (allScanned: set<string>, matches: seq<Candidate>, reports: seq<Progress>)
    ensures |reports| == StopAt(harvest, qualifies, 0) <= MaxScrolls
    ensures Harvest(allScanned, matches) == After(harvest, qualifies, |reports|).harvest
    ensures forall i :: 0 <= i < |reports| ==> reports[i] == Report(After(harvest, qualifies, i + 1))
    ensures forall i :: 0 <= i < |reports| ==> reports[i].segment <= TopSegment
    ensures Consistent(Harvest(allScanned, matches))
  {
    allScanned, matches, reports := {}, [], [];
    var noNewCount: nat := 0;
    var scrollCount: nat := 0;
    while scrollCount < MaxScrolls && noNewCount < StallLimit
      invariant scrollCount <= MaxScrolls
      invariant After(harvest, qualifies, scrollCount) == Scan(Harvest(allScanned, matches), noNewCount)
      invariant StopAt(harvest, qualifies, 0) == StopAt(harvest, qualifies, scrollCount)
      invariant reports == Reports(harvest, qualifies, scrollCount)
      decreases MaxScrolls - scrollCount
    {
      assert !Stops(harvest, qualifies, scrollCount);
      var membersData := harvest(scrollCount);
      StepFacts(harvest, qualifies, scrollCount);
      var newFound;
      allScanned, matches, newFound := ScanBatch(allScanned, matches, membersData, qualifies);
      if newFound == 0 {
        noNewCount := noNewCount + 1;
      } else {
        noNewCount := 0;
      }
      assert After(harvest, qualifies, scrollCount + 1) == Scan(Harvest(allScanned, matches), noNewCount);
      var segment := Min(|allScanned| / SegmentSize, TopSegment);
      reports := reports + [Progress(|allScanned|, |matches|, segment, SegmentLabel(segment))];
      scrollCount := scrollCount + 1;
    }
    ReportsDescribeStates(harvest, qualifies, scrollCount);
    AfterConsistent(harvest, qualifies, scrollCount);
  }

  /** One iteration in terms of the link counts the loop sees. */
  lemma StepFacts(harvest: nat -> seq<Item>, qualifies: string -> bool, k: nat)
    ensures var before := After(harvest, qualifies, k);
            var after := After(harvest, qualifies, k + 1);
            && after.harvest == AbsorbBatch(before.harvest, harvest(k), qualifies)
            && |after.harvest.scanned| >= |before.harvest.scanned|
            && after.noNew == if |after.harvest.scanned| == |before.harvest.scanned| then before.noNew + 1 else 0
  {
    var before := After(harvest, qualifies, k);
    AfterConsistent(harvest, qualifies, k);
    AbsorbBatchEffect(before.harvest, harvest(k), qualifies);
    var after := After(harvest, qualifies, k + 1);
    assert after == Step(before, harvest(k), qualifies);
    SameSizeSuperset(before.harvest.scanned, after.harvest.scanned);
  }

  /** The loop runs to the first iteration count at which its condition fails. */
  lemma StopAtFirst(harvest: nat -> seq<Item>, qualifies: string -> bool, k: nat, n: nat)
    requires k <= n && Stops(harvest, qualifies, n)
    requires forall j :: k <= j < n ==> !Stops(harvest, qualifies, j)
    ensures StopAt(harvest, qualifies, k) == n
    decreases n - k
  {
    if k < n {
      StopAtFirst(harvest, qualifies, k + 1, n);
    }
  }

  /** The stall counter resets when an iteration adds a link and grows by one
      otherwise. */
  lemma StallCounterStep(harvest: nat -> seq<Item>, qualifies: string -> bool, k: nat)
    ensures var before := After(harvest, qualifies, k);
            var after := After(harvest, qualifies, k + 1);
            && before.harvest.scanned <= after.harvest.scanned
            && (after.harvest.scanned == before.harvest.scanned ==> after.noNew == before.noNew + 1)
            && (after.harvest.scanned != before.harvest.scanned ==> after.noNew == 0)
  {
    var before := After(harvest, qualifies, k);
    AfterConsistent(harvest, qualifies, k);
    AbsorbBatchEffect(before.harvest, harvest(k), qualifies);
    assert After(harvest, qualifies, k + 1) == Step(before, harvest(k), qualifies);
  }

  /** Every state the collector passes through is consistent. */
  lemma {:induction false} AfterConsistent(harvest: nat -> seq<Item>, qualifies: string -> bool, k: nat)
    ensures Consistent(After(harvest, qualifies, k).harvest)
  {
    if k > 0 {
      AfterConsistent(harvest, qualifies, k - 1);
      AbsorbBatchEffect(After(harvest, qualifies, k - 1).harvest, harvest(k - 1), qualifies);
    }
  }

  /** Matches keep their discovery order: earlier matches stay at their places. */
  lemma {:induction false} MatchesGrow(harvest: nat -> seq<Item>, qualifies: string -> bool, j: nat, k: nat)
    requires j <= k
    ensures After(harvest, qualifies, j).harvest.matches <= After(harvest, qualifies, k).harvest.matches
    ensures After(harvest, qualifies, j).harvest.scanned <= After(harvest, qualifies, k).harvest.scanned
    decreases k - j
  {
    if j < k {
      MatchesGrow(harvest, qualifies, j, k - 1);
      AfterConsistent(harvest, qualifies, k - 1);
      AbsorbBatchEffect(After(harvest, qualifies, k - 1).harvest, harvest(k - 1), qualifies);
    }
  }

  /** A stall count of `n` means the last `n` iterations added no link. */
  lemma {:induction false} StallMeansNothingNew(harvest: nat -> seq<Item>, qualifies: string -> bool, k: nat, n: nat)
    requires n <= After(harvest, qualifies, k).noNew
    ensures n <= k
    ensures After(harvest, qualifies, k - n).harvest.scanned == After(harvest, qualifies, k).harvest.scanned
    decreases n
  {
    if n > 0 && k > 0 {
      StallCounterStep(harvest, qualifies, k - 1);
      var after := After(harvest, qualifies, k);
      var before := After(harvest, qualifies, k - 1);
      assert after.harvest.scanned == before.harvest.scanned && n - 1 <= before.noNew;
      StallMeansNothingNew(harvest, qualifies, k - 1, n - 1);
    }
  }

  /** When the loop condition fails before the iteration limit (in
      particular at `StopAt(harvest, qualifies, 0)`, where the collector
      stops), the last 20 batches brought no new member. */
  lemma StoppedByStall(harvest: nat -> seq<Item>, qualifies: string -> bool, n: nat)
    requires Stops(harvest, qualifies, n) && n < MaxScrolls
    ensures StallLimit <= n
    ensures After(harvest, qualifies, n - StallLimit).harvest.scanned == After(harvest, qualifies, n).harvest.scanned
  {
    StallMeansNothingNew(harvest, qualifies, n, StallLimit);
  }
}
