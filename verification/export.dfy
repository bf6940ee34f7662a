/** The export (`save_to_csv` in backend/fb_scraper.py): leads are ranked so
    that members with a phone and no website come first, each lead is
    labelled with its prospect quality, and the records are projected onto the
    CSV columns. The file itself is not modelled: the result is the header and
    the rows that would be written. */
module Export {
  import opened Text
  import opened Profile

  const Hot := "HOT"
  const Warm := "WARM"
  const Cold := "COLD"
  const Low := "LOW"

  const Fieldnames: seq<string> :=
    ["prospect_quality", "name", "phone", "website", "has_website", "about", "work", "url"]

  /** `prospect_score`: (has phone + has no website, has phone). */
  datatype Score = Score(primary: nat, secondary: nat)

  function ProspectScore(r: LeadRecord): Score {
    var hasPhone := if r.phone != "" then 1 else 0;
    var noWebsite := if r.website == "" then 1 else 0;
    Score(hasPhone + noWebsite, hasPhone)
  }

  /** Python's tuple order: `a >= b`. */
  predicate AtLeast(a: Score, b: Score) {
    a.primary > b.primary || (a.primary == b.primary && a.secondary >= b.secondary)
  }

  /** Inserts `x` in front of the first record scoring no higher than it, so
      that `x` stays ahead of the records with its score. */
  function Insert(x: LeadRecord, s: seq<LeadRecord>): (r: seq<LeadRecord>)
    ensures |r| == |s| + 1
  {
    if s == [] || AtLeast(ProspectScore(x), ProspectScore(s[0])) then [x] + s
    else [s[0]] + Insert(x, s[1..])
  }

  /** `sorted(data, key=prospect_score, reverse=True)`. */
  function SortByScore(s: seq<LeadRecord>): (r: seq<LeadRecord>)
    ensures |r| == |s|
  {
    if s == [] then [] else Insert(s[0], SortByScore(s[1..]))
  }

  predicate Descending(s: seq<LeadRecord>) {
    forall i, j :: 0 <= i < j < |s| ==> AtLeast(ProspectScore(s[i]), ProspectScore(s[j]))
  }

  lemma {:induction false} InsertPermutes(x: LeadRecord, s: seq<LeadRecord>)
    ensures multiset(Insert(x, s)) == multiset([x] + s)
  {
    if s != [] && !AtLeast(ProspectScore(x), ProspectScore(s[0])) {
      InsertPermutes(x, s[1..]);
      assert s == [s[0]] + s[1..];
    }
  }

  lemma {:induction false} InsertOrdered(x: LeadRecord, s: seq<LeadRecord>)
    requires Descending(s)
    ensures Descending(Insert(x, s))
  {
    if s != [] && !AtLeast(ProspectScore(x), ProspectScore(s[0])) {
      InsertOrdered(x, s[1..]);
      InsertPermutes(x, s[1..]);
      var r := Insert(x, s[1..]);
      forall k | 0 <= k < |r|
        ensures AtLeast(ProspectScore(s[0]), ProspectScore(r[k]))
      {
        assert r[k] in multiset([x] + s[1..]);
        if r[k] != x {
          var m :| 0 <= m < |s[1..]| && s[1..][m] == r[k];
          assert s[m + 1] == r[k];
        }
      }
    }
  }

  /** The ranking is a permutation of the input. */
  lemma {:induction false} SortPermutes(s: seq<LeadRecord>)
    ensures multiset(SortByScore(s)) == multiset(s)
  {
    if s != [] {
      SortPermutes(s[1..]);
      InsertPermutes(s[0], SortByScore(s[1..]));
      assert s == [s[0]] + s[1..];
    }
  }

  /** The ranking has non-increasing scores. */
  lemma {:induction false} SortOrdered(s: seq<LeadRecord>)
    ensures Descending(SortByScore(s))
  {
    if s != [] {
      SortOrdered(s[1..]);
      InsertOrdered(s[0], SortByScore(s[1..]));
    }
  }

  /** The records with score `k`, in order. */
  function WithScore(s: seq<LeadRecord>, k: Score): seq<LeadRecord> {
    if s == [] then []
    else (if ProspectScore(s[0]) == k then [s[0]] else []) + WithScore(s[1..], k)
  }

  lemma {:induction false} InsertStable(x: LeadRecord, s: seq<LeadRecord>, k: Score)
    ensures WithScore(Insert(x, s), k) == (if ProspectScore(x) == k then [x] else []) + WithScore(s, k)
  {
    if s != [] && !AtLeast(ProspectScore(x), ProspectScore(s[0])) {
      InsertStable(x, s[1..], k);
      assert ([s[0]] + Insert(x, s[1..]))[1..] == Insert(x, s[1..]);
    } else {
      assert ([x] + s)[1..] == s;
    }
  }

  /** The ranking is stable: records with equal scores keep their input order. */
  lemma {:induction false} SortStable(s: seq<LeadRecord>, k: Score)
    ensures WithScore(SortByScore(s), k) == WithScore(s, k)
  {
    if s != [] {
      SortStable(s[1..], k);
      InsertStable(s[0], SortByScore(s[1..]), k);
    }
  }

  /** The prospect quality of a lead, from whether it has a phone and a website. */
  function QualityLabel(hasPhone: bool, hasWebsite: bool): string {
    if hasPhone && !hasWebsite then Hot
    else if hasPhone then Warm
    else if !hasWebsite then Cold
    else Low
  }

  function Quality(r: LeadRecord): string {
    QualityLabel(r.phone != "", r.website != "")
  }

  /** The position of a label in the order HOT, WARM, COLD, LOW. */
  function QualityRank(q: string): nat {
    if q == Hot then 0 else if q == Warm then 1 else if q == Cold then 2 else 3
  }

  /** The four labels correspond one to one to the four combinations of phone
      and website. */
  lemma QualityLabels(hasPhone: bool, hasWebsite: bool)
    ensures var q := QualityLabel(hasPhone, hasWebsite);
            && (q == Hot <==> hasPhone && !hasWebsite)
            && (q == Warm <==> hasPhone && hasWebsite)
            && (q == Cold <==> !hasPhone && !hasWebsite)
            && (q == Low <==> !hasPhone && hasWebsite)
  {
  }

  /** The label order agrees with the score order: a better label means a
      strictly higher score, and the same label the same score. */
  lemma QualityFollowsScore(a: LeadRecord, b: LeadRecord)
    ensures QualityRank(Quality(a)) < QualityRank(Quality(b)) <==> !AtLeast(ProspectScore(b), ProspectScore(a))
    ensures Quality(a) == Quality(b) <==> ProspectScore(a) == ProspectScore(b)
  {
  }

  /** A lead with its quality written in. */
  function Labelled(r: LeadRecord): LeadRecord {
    r.(quality := Some(Quality(r)))
  }

  /** The value `csv.DictWriter` writes under a column: the record's field of
      that name, with a missing quality written as ''. */
  function Field(r: LeadRecord, column: string): string {
    match column
    case "prospect_quality" => GetOr(r.quality, "")
    case "name" => r.name
    case "phone" => r.phone
    case "website" => r.website
    case "has_website" => r.hasWebsite
    case "about" => r.about
    case "work" => r.work
    case "url" => r.url
    case _ => ""
  }

  /** The CSV row of a record: one value per column, each the field named by
      that column's header. */
  function Row(r: LeadRecord): (row: seq<string>)
    ensures |row| == |Fieldnames|
    ensures forall i :: 0 <= i < |row| ==> row[i] == Field(r, Fieldnames[i])
  {
    [GetOr(r.quality, ""), r.name, r.phone, r.website, r.hasWebsite, r.about, r.work, r.url]
  }

  /** What would be written to the file. */
  datatype CsvTable = CsvTable(header: seq<string>, rows: seq<seq<string>>)

  /** The export: nothing for no leads; otherwise the header and one row per
      lead, ranked by score and labelled, so that every HOT lead precedes
      every WARM one, which precedes every COLD one, which precedes every LOW
      one. */
  method SaveToCsv(data: seq<LeadRecord>) returns (table: Option<CsvTable>)
    ensures table.None? <==> data == []
    ensures table.Some? ==> table.value.header == Fieldnames && |table.value.rows| == |data|
    ensures table.Some? ==> forall i :: 0 <= i < |data| ==>
              table.value.rows[i] == Row(Labelled(SortByScore(data)[i]))
    ensures table.Some? ==> forall i, j :: 0 <= i < j < |data| ==>
              QualityRank(Quality(SortByScore(data)[i])) <= QualityRank(Quality(SortByScore(data)[j]))
  {
    if data == [] {
      return None;
    }
    var sortedData := SortByScore(data);
    var items := new LeadRecord[|sortedData|](i requires 0 <= i < |sortedData| => sortedData[i]);
    for i := 0 to items.Length
      invariant forall j :: 0 <= j < i ==> items[j] == Labelled(sortedData[j])
      invariant forall j :: i <= j < items.Length ==> items[j] == sortedData[j]
    {
      var item := items[i];
      var hasPhone := item.phone != "";
      var hasWebsite := item.website != "";
      if hasPhone && !hasWebsite {
        items[i] := item.(quality := Some(Hot));
      } else if hasPhone {
        items[i] := item.(quality := Some(Warm));
      } else if !hasWebsite {
        items[i] := item.(quality := Some(Cold));
      } else {
        items[i] := item.(quality := Some(Low));
      }
    }
    var rows: seq<seq<string>> := [];
    for i := 0 to items.Length
      invariant |rows| == i
      invariant forall j :: 0 <= j < i ==> rows[j] == Row(Labelled(sortedData[j]))
    {
      rows := rows + [Row(items[i])];
    }
    SortOrdered(data);
    forall i, j | 0 <= i < j < |data|
      ensures QualityRank(Quality(sortedData[i])) <= QualityRank(Quality(sortedData[j]))
    {
      QualityFollowsScore(sortedData[i], sortedData[j]);
    }
    table := Some(CsvTable(Fieldnames, rows));
  }
}
