/**
 * The two chart callbacks.  Each is a pure function of the cleaned table and
 * the current control values; what is modelled is the set of records handed
 * to the charting library and, for the pie, the grouping of those records by
 * outcome class.
 */
module Charts {
  import opened Selection
  import opened Wrappers
  import opened LaunchData

  /** The mask `df['Launch Site'] == site`. */
  function AtSite(site: string): LaunchRecord -> bool
  {
    (r: LaunchRecord) => r.site == site
  }

  /** The mask `(df['Payload Mass (kg)'] >= low) & (df['Payload Mass (kg)'] <= high)`. */
  function PayloadWithin(low: real, high: real): LaunchRecord -> bool
  {
    (r: LaunchRecord) => low <= r.payload && r.payload <= high
  }

  /** The records whose outcome class is `c`. */
  function HasOutcome(c: int): LaunchRecord -> bool
  {
    (r: LaunchRecord) => r.outcome == c
  }

  // ---------------------------------------------------------------------------
  // Pie chart: get_pie_chart(entered_site)
  // ---------------------------------------------------------------------------

  /** The frame passed to the pie: all rows for "ALL", otherwise the rows of that site. */
  function PieRecords(ds: seq<LaunchRecord>, enteredSite: string): (sel: seq<LaunchRecord>)
    ensures |sel| <= |ds|
    ensures forall r :: r in sel ==> r in ds && (enteredSite == AllSites || r.site == enteredSite)
  {
    if enteredSite == AllSites then ds else Filter(ds, AtSite(enteredSite))
  }

  /** One pie slice: an outcome class and the number of records that have it. */
  datatype Slice = Slice(outcome: int, count: nat)

  /** One slice per key, sized by the key's number of occurrences in `col`. */
  function SlicesFor(col: seq<int>, keys: seq<int>): (slices: seq<Slice>)
    ensures |slices| == |keys|
    ensures forall k :: 0 <= k < |keys| ==> slices[k] == Slice(keys[k], Count(col, keys[k]))
  {
    if keys == [] then []
    else SlicesFor(col, keys[..|keys| - 1]) + [Slice(keys[|keys| - 1], Count(col, keys[|keys| - 1]))]
  }

  /**
   * `px.pie(frame, names='class')`: the rows grouped by their class value, one
   * slice per value that occurs.  Listing the slices by first occurrence is
   * this model's choice; the order in which plotly draws them is not modelled.
   */
  function PieSlices(sel: seq<LaunchRecord>): (slices: seq<Slice>)
    ensures |slices| <= |sel|
    ensures forall k :: 0 <= k < |slices| ==> slices[k].count > 0
  {
    var col := OutcomeColumn(sel);
    SlicesFor(col, Unique(col))
  }

  /** The grouping drawn by the pie chart for the selected site. */
  function PieChart(ds: seq<LaunchRecord>, enteredSite: string): (slices: seq<Slice>)
    ensures |slices| <= |ds|
  {
    PieSlices(PieRecords(ds, enteredSite))
  }

  /** The sum of the slice sizes. */
  function Total(slices: seq<Slice>): nat
  {
    if slices == [] then 0 else Total(slices[..|slices| - 1]) + slices[|slices| - 1].count
  }

  /**
   * With "ALL" the pie reads the whole table; with any other value it reads
   * exactly the rows of that site, each once and in table order.
   */
  lemma PieRecordsSelection(ds: seq<LaunchRecord>, enteredSite: string)
    ensures enteredSite == AllSites ==> PieRecords(ds, enteredSite) == ds
    ensures enteredSite != AllSites ==> IsOrderedSelection(PieRecords(ds, enteredSite), ds, AtSite(enteredSite))
    ensures enteredSite != AllSites ==>
      forall r :: r in PieRecords(ds, enteredSite) <==> r in ds && r.site == enteredSite
  {
    if enteredSite != AllSites {
      FilterIsOrderedSelection(ds, AtSite(enteredSite));
      FilterMembership(ds, AtSite(enteredSite));
    }
  }

  /** A site that no row has yields an empty selection and an empty pie. */
  lemma PieUnknownSite(ds: seq<LaunchRecord>, enteredSite: string)
    requires enteredSite != AllSites
    requires forall r :: r in ds ==> r.site != enteredSite
    ensures PieRecords(ds, enteredSite) == []
    ensures PieChart(ds, enteredSite) == []
  {
    FilterKeepsNone(ds, AtSite(enteredSite));
  }

  /** The `count` of an outcome value is the number of records having it. */
  lemma {:induction false} CountIsOutcomeRecords(sel: seq<LaunchRecord>, c: int)
    ensures Count(OutcomeColumn(sel), c) == |Filter(sel, HasOutcome(c))|
    decreases |sel|
  {
    if sel != [] {
      var init := sel[..|sel| - 1];
      CountIsOutcomeRecords(init, c);
      assert OutcomeColumn(sel)[..|sel| - 1] == OutcomeColumn(init);
    }
  }

  /** No outcome value has two slices. */
  lemma PieSlicesDistinct(sel: seq<LaunchRecord>)
    ensures forall i, j :: 0 <= i < j < |PieSlices(sel)| ==> PieSlices(sel)[i].outcome != PieSlices(sel)[j].outcome
  {
    var col := OutcomeColumn(sel);
    assert PieSlices(sel) == SlicesFor(col, Unique(col));
  }

  /** Every slice is for an outcome value that some selected record has. */
  lemma PieSlicesArePresentOutcomes(sel: seq<LaunchRecord>)
    ensures forall k :: 0 <= k < |PieSlices(sel)| ==> exists r :: r in sel && r.outcome == PieSlices(sel)[k].outcome
  {
    var col := OutcomeColumn(sel);
    var u := Unique(col);
    var slices := PieSlices(sel);
    assert slices == SlicesFor(col, u);
    forall k | 0 <= k < |slices|
      ensures exists r :: r in sel && r.outcome == slices[k].outcome
    {
      assert u[k] in u;
      var i :| 0 <= i < |col| && col[i] == u[k];
      assert sel[i] in sel;
    }
  }

  /** Every outcome value that some selected record has gets a slice. */
  lemma PieSliceForEveryOutcome(sel: seq<LaunchRecord>)
    ensures forall r :: r in sel ==> exists k :: 0 <= k < |PieSlices(sel)| && PieSlices(sel)[k].outcome == r.outcome
  {
    var col := OutcomeColumn(sel);
    var u := Unique(col);
    var slices := PieSlices(sel);
    assert slices == SlicesFor(col, u);
    forall r | r in sel
      ensures exists k :: 0 <= k < |slices| && slices[k].outcome == r.outcome
    {
      var i :| 0 <= i < |sel| && sel[i] == r;
      assert col[i] in col;
      var k :| 0 <= k < |u| && u[k] == r.outcome;
      assert slices[k].outcome == r.outcome;
    }
  }

  /** Each slice counts exactly the selected records with its value, and is never empty. */
  lemma PieSliceCounts(sel: seq<LaunchRecord>)
    ensures forall k :: 0 <= k < |PieSlices(sel)| ==>
      PieSlices(sel)[k].count == |Filter(sel, HasOutcome(PieSlices(sel)[k].outcome))| > 0
  {
    var col := OutcomeColumn(sel);
    var u := Unique(col);
    var slices := PieSlices(sel);
    assert slices == SlicesFor(col, u);
    forall k | 0 <= k < |slices|
      ensures slices[k].count == |Filter(sel, HasOutcome(slices[k].outcome))| > 0
    {
      assert u[k] in u;
      CountIsOutcomeRecords(sel, u[k]);
    }
  }

  lemma {:induction false} TotalOfSlices(col: seq<int>, keys: seq<int>)
    ensures Total(SlicesFor(col, keys)) == SumCounts(col, keys)
    decreases |keys|
  {
    if keys != [] {
      var slices := SlicesFor(col, keys);
      TotalOfSlices(col, keys[..|keys| - 1]);
      assert slices[..|slices| - 1] == SlicesFor(col, keys[..|keys| - 1]);
    }
  }

  /**
   * The slice sizes add up to the number of records in the selection: the
   * whole table for "ALL", otherwise the number of rows of the entered site.
   */
  lemma PieTotalIsSelectionSize(ds: seq<LaunchRecord>, enteredSite: string)
    ensures Total(PieChart(ds, enteredSite)) == |PieRecords(ds, enteredSite)|
    ensures enteredSite == AllSites ==> Total(PieChart(ds, enteredSite)) == |ds|
    ensures enteredSite != AllSites ==> Total(PieChart(ds, enteredSite)) == |Filter(ds, AtSite(enteredSite))|
  {
    var col := OutcomeColumn(PieRecords(ds, enteredSite));
    TotalOfSlices(col, Unique(col));
    CountsOfUniqueSumToLength(col);
  }

  /** In a list of 0s and 1s, the 0s and the 1s together are all of it. */
  lemma {:induction false} BinaryCounts(u: seq<int>)
    requires forall k :: 0 <= k < |u| ==> u[k] == 0 || u[k] == 1
    ensures Count(u, 0) + Count(u, 1) == |u|
    decreases |u|
  {
    if u != [] {
      BinaryCounts(u[..|u| - 1]);
    }
  }

  /** With 0/1 outcome classes the pie has at most the two slices Failure and Success. */
  lemma PieAtMostTwoSlices(ds: seq<LaunchRecord>, enteredSite: string)
    requires forall r :: r in ds ==> r.outcome == 0 || r.outcome == 1
    ensures |PieChart(ds, enteredSite)| <= 2
    ensures forall k :: 0 <= k < |PieChart(ds, enteredSite)| ==>
      PieChart(ds, enteredSite)[k].outcome == 0 || PieChart(ds, enteredSite)[k].outcome == 1
  {
    var sel := PieRecords(ds, enteredSite);
    var col := OutcomeColumn(sel);
    var u := Unique(col);
    PieRecordsSelection(ds, enteredSite);
    forall k | 0 <= k < |u|
      ensures u[k] == 0 || u[k] == 1
    {
      assert u[k] in u;
      var i :| 0 <= i < |col| && col[i] == u[k];
      assert sel[i] in sel;
    }
    BinaryCounts(u);
    CountDistinct(u, 0);
    CountDistinct(u, 1);
  }

  // ---------------------------------------------------------------------------
  // Scatter chart: get_scatter_chart(selected_site, [low, high])
  // ---------------------------------------------------------------------------

  /**
   * The frame passed to the scatter plot: the rows inside the payload range,
   * then, unless "ALL" is selected, only those of the selected site.
   */
  function ScatterRecords(ds: seq<LaunchRecord>, selectedSite: string, low: real, high: real): (pts: seq<LaunchRecord>)
    ensures |pts| <= |ds|
    ensures forall r :: r in pts ==> r in ds && low <= r.payload <= high
  {
    var filtered := Filter(ds, PayloadWithin(low, high));
    if selectedSite == AllSites then filtered else Filter(filtered, AtSite(selectedSite))
  }

  /** Which rows the scatter plot should show, stated in one predicate. */
  function ScatterWanted(selectedSite: string, low: real, high: real): LaunchRecord -> bool
  {
    (r: LaunchRecord) => low <= r.payload && r.payload <= high && (selectedSite == AllSites || r.site == selectedSite)
  }

  /** The two-stage selection is the single selection by `ScatterWanted`. */
  lemma ScatterIsOneSelection(ds: seq<LaunchRecord>, selectedSite: string, low: real, high: real)
    ensures ScatterRecords(ds, selectedSite, low, high) == Filter(ds, ScatterWanted(selectedSite, low, high))
    ensures IsOrderedSelection(ScatterRecords(ds, selectedSite, low, high), ds, ScatterWanted(selectedSite, low, high))
  {
    if selectedSite == AllSites {
      FilterSameMask(ds, PayloadWithin(low, high), ScatterWanted(selectedSite, low, high));
    } else {
      FilterFilter(ds, PayloadWithin(low, high), AtSite(selectedSite), ScatterWanted(selectedSite, low, high));
    }
    FilterIsOrderedSelection(ds, ScatterWanted(selectedSite, low, high));
  }

  /**
   * Soundness and completeness: a record is plotted exactly when it is in the
   * table, its payload lies in the closed range, and it is at the selected
   * site or "ALL" is selected.
   */
  lemma ScatterSoundAndComplete(ds: seq<LaunchRecord>, selectedSite: string, low: real, high: real)
    ensures forall r :: r in ScatterRecords(ds, selectedSite, low, high) <==>
      r in ds && low <= r.payload <= high && (selectedSite == AllSites || r.site == selectedSite)
  {
    ScatterIsOneSelection(ds, selectedSite, low, high);
    FilterMembership(ds, ScatterWanted(selectedSite, low, high));
  }

  /** An empty range (`low > high`) plots nothing. */
  lemma ScatterEmptyRange(ds: seq<LaunchRecord>, selectedSite: string, low: real, high: real)
    requires low > high
    ensures ScatterRecords(ds, selectedSite, low, high) == []
  {
    ScatterIsOneSelection(ds, selectedSite, low, high);
    FilterKeepsNone(ds, ScatterWanted(selectedSite, low, high));
  }

  /** A one-point range plots exactly the rows with that payload. */
  lemma ScatterSinglePoint(ds: seq<LaunchRecord>, selectedSite: string, low: real)
    ensures forall r :: r in ScatterRecords(ds, selectedSite, low, low) ==> r.payload == low
    ensures forall r :: r in ds && r.payload == low && (selectedSite == AllSites || r.site == selectedSite) ==>
      r in ScatterRecords(ds, selectedSite, low, low)
  {
    ScatterSoundAndComplete(ds, selectedSite, low, low);
  }

  /** For a fixed range, one site's points are a subsequence of the points for "ALL". */
  lemma ScatterSiteWithinAll(ds: seq<LaunchRecord>, selectedSite: string, low: real, high: real)
    ensures IsSubsequence(ScatterRecords(ds, selectedSite, low, high), ScatterRecords(ds, AllSites, low, high))
  {
    FilterIsSubsequence(Filter(ds, PayloadWithin(low, high)), AtSite(selectedSite));
    if selectedSite == AllSites {
      FilterIsSubsequence(ds, PayloadWithin(low, high));
      var f := Filter(ds, PayloadWithin(low, high));
      assert Embeds(seq(|f|, k requires 0 <= k < |f| => k), f, f);
    }
  }

  /** A site that no row has yields no points, whatever the range. */
  lemma ScatterUnknownSite(ds: seq<LaunchRecord>, selectedSite: string, low: real, high: real)
    requires selectedSite != AllSites
    requires forall r :: r in ds ==> r.site != selectedSite
    ensures ScatterRecords(ds, selectedSite, low, high) == []
  {
    ScatterIsOneSelection(ds, selectedSite, low, high);
    FilterKeepsNone(ds, ScatterWanted(selectedSite, low, high));
  }

  /**
   * With the slider at its start-up value `[min_payload, max_payload]` and
   * "ALL" selected, every row of the table is plotted.
   */
  lemma ScatterDefaultShowsAll(ds: seq<LaunchRecord>)
    requires ds != []
    ensures ScatterRecords(ds, AllSites, MinPayload(ds).value, MaxPayload(ds).value) == ds
  {
    FilterKeepsAll(ds, PayloadWithin(MinPayload(ds).value, MaxPayload(ds).value));
  }

  // ---------------------------------------------------------------------------
  // A worked example: two CCAFS launches (500 kg failed, 2500 kg succeeded)
  // and one KSC launch (3000 kg succeeded).
  // ---------------------------------------------------------------------------

  function ExampleTable(): seq<LaunchRecord>
  {
    [LaunchRecord("CCAFS", 500.0, 0, Some("v1")),
     LaunchRecord("CCAFS", 2500.0, 1, Some("v1")),
     LaunchRecord("KSC", 3000.0, 1, Some("v2"))]
  }

  /** The example's class column [0, 1, 1] has the values 0 and 1, once and twice. */
  lemma ExampleOutcomeValues()
    ensures Unique([0, 1, 1]) == [0, 1]
    ensures Count([0, 1, 1], 0) == 1 && Count([0, 1, 1], 1) == 2
  {
    assert [0, 1, 1][..2] == [0, 1];
    assert [0, 1][..1] == [0];
    assert [0][..0] == [];
    assert Unique([0]) == [0];
    assert Unique([0, 1]) == [0, 1];
  }

  /** The example's class columns group into the expected slices. */
  lemma ExampleSlices()
    ensures SlicesFor([0, 1, 1], Unique([0, 1, 1])) == [Slice(0, 1), Slice(1, 2)]
    ensures SlicesFor([1], Unique([1])) == [Slice(1, 1)]
  {
    ExampleOutcomeValues();
    assert [0, 1][..1] == [0] && [0][..0] == [] && [1][..0] == [];
    assert Unique([1]) == [1];
    assert Count([1], 1) == 1;
  }

  /** "ALL" gives one failure and two successes. */
  lemma ExamplePieAll()
    ensures PieChart(ExampleTable(), AllSites) == [Slice(0, 1), Slice(1, 2)]
  {
    var t := ExampleTable();
    assert PieRecords(t, AllSites) == t;
    assert OutcomeColumn(t) == [0, 1, 1];
    ExampleSlices();
  }

  /** "KSC" gives a single success. */
  lemma ExamplePieKsc()
    ensures PieChart(ExampleTable(), "KSC") == [Slice(1, 1)]
  {
    var t := ExampleTable();
    var ksc := [t[2]];
    assert PieRecords(t, "KSC") == ksc by {
      assert "KSC" != AllSites;
      var site := AtSite("KSC");
      assert t[..2][..1] == [t[0]] && t[..2] == [t[0], t[1]] && [t[0]][..0] == [];
      assert !site(t[0]) && !site(t[1]) && site(t[2]);
      assert Filter([t[0]], site) == [];
      assert Filter(t[..2], site) == [];
      assert Filter(t, site) == ksc;
    }
    assert OutcomeColumn(ksc) == [1];
    ExampleSlices();
  }

  /** Up to 2600 kg: the two CCAFS launches for "ALL", nothing for "KSC". */
  lemma ExampleScatter()
    ensures ScatterRecords(ExampleTable(), AllSites, 0.0, 2600.0) == ExampleTable()[..2]
    ensures ScatterRecords(ExampleTable(), "KSC", 0.0, 2600.0) == []
  {
  }
}
