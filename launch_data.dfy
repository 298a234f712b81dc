/**
 * The launch table as the dashboard loads it at start-up: raw rows whose
 * cells may be missing, the in-place removal of incomplete rows, and the
 * summary values computed once from the cleaned table (payload bounds for the
 * range slider, the distinct launch sites and the site drop-down options).
 */
module LaunchData {
  import opened Wrappers
  import opened Selection

  /** One row of the CSV file; a missing (NaN) cell is `None`. */
  datatype Row = Row(
    site: Option<string>,     // column "Launch Site"
    payload: Option<real>,    // column "Payload Mass (kg)"
    outcome: Option<int>,     // column "class": 0 = failure, 1 = success
    booster: Option<string>)  // column "Booster Version Category"

  /** One row of the cleaned table: the three required cells are present. */
  datatype LaunchRecord = LaunchRecord(site: string, payload: real, outcome: int, booster: Option<string>)

  /** The columns `dropna` is asked to look at are all present. */
  predicate HasRequired(r: Row)
  {
    r.payload.Some? && r.site.Some? && r.outcome.Some?
  }

  /** `dropna(subset=['Payload Mass (kg)', 'Launch Site', 'class'])` on a list of rows. */
  function DropMissing(rows: seq<Row>): (kept: seq<Row>)
    ensures forall r :: r in kept ==> HasRequired(r)
  {
    Filter(rows, HasRequired)
  }

  /** A complete row read as a record. */
  function ToRecord(r: Row): (rec: LaunchRecord)
    requires HasRequired(r)
    ensures Some(rec.site) == r.site && Some(rec.payload) == r.payload
    ensures Some(rec.outcome) == r.outcome && rec.booster == r.booster
  {
    LaunchRecord(r.site.value, r.payload.value, r.outcome.value, r.booster)
  }

  /** A table of complete rows read as records, row by row. */
  function ToRecords(rows: seq<Row>): (ds: seq<LaunchRecord>)
    requires forall r :: r in rows ==> HasRequired(r)
    ensures |ds| == |rows|
    ensures forall k :: 0 <= k < |rows| ==> ds[k] == ToRecord(rows[k])
  {
    seq(|rows|, k requires 0 <= k < |rows| => ToRecord(rows[k]))
  }

  /** The cleaned data set that the rest of the dashboard reads. */
  function Clean(rows: seq<Row>): (ds: seq<LaunchRecord>)
    ensures |ds| <= |rows|
  {
    ToRecords(DropMissing(rows))
  }

  /**
   * Cleaning keeps exactly the complete rows, each once and in their original
   * order, and converts each of them to a record.
   */
  lemma CleanSelectsCompleteRows(rows: seq<Row>)
    ensures IsOrderedSelection(DropMissing(rows), rows, HasRequired)
    ensures |Clean(rows)| == |DropMissing(rows)|
    ensures forall k :: 0 <= k < |Clean(rows)| ==> Clean(rows)[k] == ToRecord(DropMissing(rows)[k])
  {
    FilterIsOrderedSelection(rows, HasRequired);
  }

  /** Every complete input row survives cleaning; every record comes from a complete row. */
  lemma CleanSoundAndComplete(rows: seq<Row>)
    ensures forall r :: r in rows && HasRequired(r) ==> ToRecord(r) in Clean(rows)
    ensures forall rec :: rec in Clean(rows) ==> exists r :: r in rows && HasRequired(r) && ToRecord(r) == rec
  {
    var kept := DropMissing(rows);
    FilterMembership(rows, HasRequired);
    forall r | r in rows && HasRequired(r)
      ensures ToRecord(r) in Clean(rows)
    {
      var k :| 0 <= k < |kept| && kept[k] == r;
      assert Clean(rows)[k] == ToRecord(r);
    }
    forall rec | rec in Clean(rows)
      ensures exists r :: r in rows && HasRequired(r) && ToRecord(r) == rec
    {
      var k :| 0 <= k < |Clean(rows)| && Clean(rows)[k] == rec;
      assert kept[k] in kept;
    }
  }

  /**
   * The module-level data frame `spacex_df`, whose rows are replaced in place
   * when incomplete rows are dropped.
   */
  class LaunchFrame {
    var rows: seq<Row>

    constructor (csvRows: seq<Row>)
      ensures rows == csvRows
    {
      rows := csvRows;
    }

    /** `dropna(..., inplace=True)`: the frame now holds only its complete rows. */
    method DropNa()
      modifies this
      ensures rows == DropMissing(old(rows))
      ensures forall r :: r in rows ==> HasRequired(r)
    {
      rows := DropMissing(rows);
    }

    /** The frame's rows as records, once every row is complete. */
    function Records(): (ds: seq<LaunchRecord>)
      reads this
      requires forall r :: r in rows ==> HasRequired(r)
      ensures |ds| == |rows|
    {
      ToRecords(rows)
    }
  }

  /** Loading: build the frame from the parsed CSV rows and clean it in place. */
  method Load(csvRows: seq<Row>) returns (ds: seq<LaunchRecord>)
    ensures ds == Clean(csvRows)
    ensures forall r :: r in csvRows && HasRequired(r) ==> ToRecord(r) in ds
  {
    var frame := new LaunchFrame(csvRows);
    frame.DropNa();
    ds := frame.Records();
    CleanSoundAndComplete(csvRows);
  }

  /** The "Payload Mass (kg)" column. */
  function PayloadColumn(ds: seq<LaunchRecord>): (ps: seq<real>)
    ensures |ps| == |ds| && forall k :: 0 <= k < |ds| ==> ps[k] == ds[k].payload
  {
    seq(|ds|, k requires 0 <= k < |ds| => ds[k].payload)
  }

  /** The "Launch Site" column. */
  function SiteColumn(ds: seq<LaunchRecord>): (ss: seq<string>)
    ensures |ss| == |ds| && forall k :: 0 <= k < |ds| ==> ss[k] == ds[k].site
  {
    seq(|ds|, k requires 0 <= k < |ds| => ds[k].site)
  }

  /** The "class" column. */
  function OutcomeColumn(ds: seq<LaunchRecord>): (cs: seq<int>)
    ensures |cs| == |ds| && forall k :: 0 <= k < |ds| ==> cs[k] == ds[k].outcome
  {
    seq(|ds|, k requires 0 <= k < |ds| => ds[k].outcome)
  }

  /** The largest value of a non-empty column. */
  function Largest(ps: seq<real>): (m: real)
    requires ps != []
    ensures m in ps
    ensures forall k :: 0 <= k < |ps| ==> ps[k] <= m
  {
    if |ps| == 1 then ps[0]
    else
      var m := Largest(ps[..|ps| - 1]);
      if m < ps[|ps| - 1] then ps[|ps| - 1] else m
  }

  /** The smallest value of a non-empty column. */
  function Smallest(ps: seq<real>): (m: real)
    requires ps != []
    ensures m in ps
    ensures forall k :: 0 <= k < |ps| ==> m <= ps[k]
  {
    if |ps| == 1 then ps[0]
    else
      var m := Smallest(ps[..|ps| - 1]);
      if ps[|ps| - 1] < m then ps[|ps| - 1] else m
  }

  /**
   * `max_payload`: the largest payload; pandas yields NaN (here `None`) for an
   * empty table.
   */
  function MaxPayload(ds: seq<LaunchRecord>): (m: Option<real>)
    ensures m.None? <==> ds == []
    ensures m.Some? ==> forall r :: r in ds ==> r.payload <= m.value
    ensures m.Some? ==> exists r :: r in ds && r.payload == m.value
  {
    if ds == [] then None
    else
      var ps := PayloadColumn(ds);
      var k :| 0 <= k < |ps| && ps[k] == Largest(ps);
      assert ds[k] in ds;
      Some(Largest(ps))
  }

  /**
   * `min_payload`: the smallest payload; pandas yields NaN (here `None`) for
   * an empty table.
   */
  function MinPayload(ds: seq<LaunchRecord>): (m: Option<real>)
    ensures m.None? <==> ds == []
    ensures m.Some? ==> forall r :: r in ds ==> m.value <= r.payload
    ensures m.Some? ==> exists r :: r in ds && r.payload == m.value
  {
    if ds == [] then None
    else
      var ps := PayloadColumn(ds);
      var k :| 0 <= k < |ps| && ps[k] == Smallest(ps);
      assert ds[k] in ds;
      Some(Smallest(ps))
  }

  /** Both bounds exist together, and the minimum never exceeds the maximum. */
  lemma PayloadBoundsOrdered(ds: seq<LaunchRecord>)
    ensures MinPayload(ds).Some? <==> MaxPayload(ds).Some?
    ensures ds != [] ==> MinPayload(ds).value <= MaxPayload(ds).value
  {
    if ds != [] {
      assert ds[0] in ds;
    }
  }

  /** `launch_sites`: the distinct launch sites in order of first appearance. */
  function LaunchSites(ds: seq<LaunchRecord>): (sites: seq<string>)
    ensures |sites| <= |ds|
    ensures forall i, j :: 0 <= i < j < |sites| ==> sites[i] != sites[j]
  {
    Unique(SiteColumn(ds))
  }

  /**
   * The site list has no repetitions, holds exactly the sites that occur in
   * the table, and orders them by the row where each first occurs.
   */
  lemma LaunchSitesSpec(ds: seq<LaunchRecord>)
    ensures forall i, j :: 0 <= i < j < |LaunchSites(ds)| ==> LaunchSites(ds)[i] != LaunchSites(ds)[j]
    ensures forall s :: s in LaunchSites(ds) <==> exists r :: r in ds && r.site == s
    ensures forall i, j :: 0 <= i < j < |LaunchSites(ds)| ==>
      FirstIndex(SiteColumn(ds), LaunchSites(ds)[i]) < FirstIndex(SiteColumn(ds), LaunchSites(ds)[j])
  {
    var col := SiteColumn(ds);
    UniqueFirstSeenOrder(col);
    forall s
      ensures s in LaunchSites(ds) <==> exists r :: r in ds && r.site == s
    {
      if s in LaunchSites(ds) {
        var k :| 0 <= k < |col| && col[k] == s;
        assert ds[k] in ds;
      }
      if exists r :: r in ds && r.site == s {
        var r :| r in ds && r.site == s;
        var k :| 0 <= k < |ds| && ds[k] == r;
        assert col[k] == s;
      }
    }
  }

  /** The sentinel site value that selects the whole table. */
  const AllSites: string := "ALL"

  /** One entry of the site drop-down. */
  datatype DropdownOption = DropdownOption(caption: string, value: string)

  /** `dropdown_options`: the "All Sites" entry, then one entry per site. */
  function DropdownOptions(sites: seq<string>): (opts: seq<DropdownOption>)
    ensures |opts| == 1 + |sites|
    ensures opts[0] == DropdownOption("All Sites", AllSites)
    ensures forall k :: 0 <= k < |sites| ==> opts[k + 1] == DropdownOption(sites[k], sites[k])
  {
    [DropdownOption("All Sites", AllSites)] + seq(|sites|, k requires 0 <= k < |sites| => DropdownOption(sites[k], sites[k]))
  }

  /** Option values are pairwise distinct exactly when no site repeats the sentinel. */
  lemma DropdownValuesDistinct(sites: seq<string>)
    requires forall i, j :: 0 <= i < j < |sites| ==> sites[i] != sites[j]
    ensures (forall i, j :: 0 <= i < j < |DropdownOptions(sites)| ==>
              DropdownOptions(sites)[i].value != DropdownOptions(sites)[j].value)
            <==> AllSites !in sites
  {
    var opts := DropdownOptions(sites);
    if AllSites !in sites {
      forall i, j | 0 <= i < j < |opts|
        ensures opts[i].value != opts[j].value
      {
        if i > 0 {
          assert opts[i].value == sites[i - 1] && opts[j].value == sites[j - 1];
        } else {
          assert sites[j - 1] in sites;
        }
      }
    } else {
      var k :| 0 <= k < |sites| && sites[k] == AllSites;
      assert opts[0].value == opts[k + 1].value;
    }
  }

  /**
   * Over the table's own site list, every option value is the sentinel or a
   * site of the table, and every site of the table is offered.
   */
  lemma DropdownOffersEverySite(ds: seq<LaunchRecord>)
    ensures forall o :: o in DropdownOptions(LaunchSites(ds)) ==>
      o.value == AllSites || exists r :: r in ds && r.site == o.value
    ensures forall r :: r in ds ==> exists o :: o in DropdownOptions(LaunchSites(ds)) && o.value == r.site
  {
    var sites := LaunchSites(ds);
    var opts := DropdownOptions(sites);
    LaunchSitesSpec(ds);
    forall o | o in opts
      ensures o.value == AllSites || exists r :: r in ds && r.site == o.value
    {
      var k :| 0 <= k < |opts| && opts[k] == o;
      if k > 0 {
        assert sites[k - 1] in sites;
      }
    }
    forall r | r in ds
      ensures exists o :: o in opts && o.value == r.site
    {
      assert r.site in sites;
      var k :| 0 <= k < |sites| && sites[k] == r.site;
      assert opts[k + 1] in opts;
    }
  }

  /**
   * The drop-down for the table offers each value once exactly when no launch
   * site is literally named "ALL"; otherwise that site is shadowed by the sentinel.
   */
  lemma DropdownUnambiguous(ds: seq<LaunchRecord>)
    ensures (forall i, j :: 0 <= i < j < |DropdownOptions(LaunchSites(ds))| ==>
              DropdownOptions(LaunchSites(ds))[i].value != DropdownOptions(LaunchSites(ds))[j].value)
            <==> (forall r :: r in ds ==> r.site != AllSites)
  {
    LaunchSitesSpec(ds);
    DropdownValuesDistinct(LaunchSites(ds));
  }
}
