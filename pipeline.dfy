/** The table stages around the annotation loop: the postcode/practice merge and
    the Northern Ireland filter that build the practice table, the column
    projections of the outputs, and the merge of annotated tourist sites with the
    practice table. */
module Pipeline {
  import opened Errors
  import opened Geometry
  import opened Text
  import opened Nearest
  import opened Frames
  import opened Annotate

  /** The columns `remove_unnecessary_columns` drops from the merged postcode table. */
  const UnneededColumns: seq<string> := ["id", "Postcode", "LCG", "Registered_Patients"]

  /** The columns of `tourist_out`. */
  const TouristColumns: seq<string> := ["SITE", NearHub, TransDist, NearGp, GpDist]

  /** The columns of `output`, before the rename. */
  const OutputColumns: seq<string> := ["SITE", NearHub, TransDist, NearGp, GpDist, "postcode"]

  /** The columns of `coastal_out`. */
  const CoastalColumns: seq<string> := ["Name", "Website", "geometry", NearHub, TransDist, NearGp, GpDist, "Postcode"]

  /** The renames of `rename_columns_in_output_df`. */
  const OutputNames: map<string, string> := map["SITE" := "Tourist Sites", "postcode" := "PostCode"]

  /** `merge_datasets_by_postal_code`: the inner join of the postcode table with the
      practice table on `postcode == Postcode`. Every merged row is one postcode
      row next to one practice row with the same postcode, and every such pair is
      a merged row. */
  function MergeByPostalCode(postcodes: Frame, practices: Frame): (r: Result<Frame>)
    requires WellFormed(postcodes) && WellFormed(practices)
    requires ColumnSet(postcodes.columns) !! ColumnSet(practices.columns)
    ensures r.Err? <==> "postcode" !in postcodes.columns || "Postcode" !in practices.columns
    ensures r.Ok? ==> WellFormed(r.value) && r.value.columns == postcodes.columns + practices.columns
    ensures r.Ok? ==> forall out :: out in r.value.rows ==>
      "postcode" in out && "Postcode" in out && out["postcode"] == out["Postcode"]
    ensures r.Ok? ==> forall i, j ::
      0 <= i < |postcodes.rows| && 0 <= j < |practices.rows| && postcodes.rows[i]["postcode"] == practices.rows[j]["Postcode"]
      ==> postcodes.rows[i] + practices.rows[j] in r.value.rows
  {
    if "postcode" in postcodes.columns && "Postcode" in practices.columns then
      JoinedKeysAgree(postcodes, practices, "postcode", "Postcode");
      InnerJoin(postcodes, practices, "postcode", "Postcode")
    else InnerJoin(postcodes, practices, "postcode", "Postcode")
  }

  /** `filter_northern_ireland_postcodes`: the rows whose `postcode` starts with "BT",
      each once and in their original order. A table without the column, or with a
      postcode that is not a string, is refused as pandas refuses it. */
  function FilterNorthernIrelandPostcodes(f: Frame): (r: Result<Frame>)
    requires WellFormed(f)
    ensures r.Err? <==> "postcode" !in f.columns || exists j :: 0 <= j < |f.rows| && !f.rows[j]["postcode"].Str?
    ensures r.Ok? ==> WellFormed(r.value) && r.value.columns == f.columns
    ensures r.Ok? ==> forall row: Row :: row in r.value.rows <==>
      row in f.rows && "postcode" in row && row["postcode"].Str? && StartsWith(row["postcode"].s, "BT")
    ensures r.Ok? ==> var idx := KeptIndices(f.rows, "postcode", "BT");
      && |idx| == |r.value.rows|
      && (forall k :: 0 <= k < |idx| ==> idx[k] < |f.rows| && r.value.rows[k] == f.rows[idx[k]])
      && (forall k, m :: 0 <= k < m < |idx| ==> idx[k] < idx[m])
      && (forall i :: 0 <= i < |f.rows| ==> (HasPrefix(f.rows[i], "postcode", "BT") <==> i in idx))
  {
    KeepPrefixedExactly(f.rows, "postcode", "BT");
    FilterByPrefix(f, "postcode", "BT")
  }

  /** `remove_unnecessary_columns`: exactly `id`, `Postcode`, `LCG` and
      `Registered_Patients` go; every other column and every value stays. Dropping
      a column the table lacks is a KeyError. */
  function RemoveUnnecessaryColumns(f: Frame): (r: Result<Frame>)
    requires WellFormed(f)
    ensures r.Err? <==> exists c :: c in UnneededColumns && c !in f.columns
    ensures r.Ok? ==> WellFormed(r.value) && |r.value.rows| == |f.rows|
    ensures r.Ok? ==> forall c :: c in r.value.columns <==>
      c in f.columns && c != "id" && c != "Postcode" && c != "LCG" && c != "Registered_Patients"
    ensures r.Ok? ==> forall j, c :: 0 <= j < |f.rows| && c in r.value.columns ==> r.value.rows[j][c] == f.rows[j][c]
  {
    DropColumns(f, UnneededColumns)
  }

  /** Lines 114-123: the practice table with postcodes, restricted to Northern
      Ireland. Its columns are those of both inputs without the practice's own
      postcode column and the three unused columns, and every row's postcode
      starts with "BT". */
  function NorthernIrelandPractices(postcodes: Frame, practices: Frame): (r: Result<Frame>)
    requires WellFormed(postcodes) && WellFormed(practices)
    requires ColumnSet(postcodes.columns) !! ColumnSet(practices.columns)
    ensures r.Ok? ==> WellFormed(r.value)
    ensures r.Ok? ==> forall c :: c in r.value.columns <==>
      (c in postcodes.columns || c in practices.columns) && c !in UnneededColumns
    ensures r.Ok? ==> forall j :: 0 <= j < |r.value.rows| ==>
      "postcode" in r.value.rows[j] && r.value.rows[j]["postcode"].Str? &&
      StartsWith(r.value.rows[j]["postcode"].s, "BT")
  {
    match MergeByPostalCode(postcodes, practices)
    case Err(e) => Err(e)
    case Ok(merged) =>
      match FilterNorthernIrelandPostcodes(merged)
      case Err(e) => Err(e)
      case Ok(ni) =>
        var r := RemoveUnnecessaryColumns(ni);
        if r.Ok? then
          assert forall j :: 0 <= j < |r.value.rows| ==>
            "postcode" in r.value.rows[j] && r.value.rows[j]["postcode"].Str? &&
            StartsWith(r.value.rows[j]["postcode"].s, "BT") by {
            forall j | 0 <= j < |r.value.rows|
              ensures "postcode" in r.value.rows[j] && r.value.rows[j]["postcode"].Str? &&
                StartsWith(r.value.rows[j]["postcode"].s, "BT")
            {
              assert ni.rows[j] in ni.rows;
              assert "postcode" in r.value.columns;
            }
          }
          r
        else r
  }

  /** `filter_necessary_columns`: `tourist_out`, the site name and the four annotation
      columns, values unchanged. */
  function SelectTouristColumns(tourist: Frame): (r: Result<Frame>)
    requires WellFormed(tourist)
    ensures r.Err? <==> exists c :: c in TouristColumns && c !in tourist.columns
    ensures r.Ok? ==> WellFormed(r.value) && r.value.columns == TouristColumns && |r.value.rows| == |tourist.rows|
    ensures r.Ok? ==> forall j, c :: 0 <= j < |tourist.rows| && c in TouristColumns ==> r.value.rows[j][c] == tourist.rows[j][c]
  {
    SelectColumns(tourist, TouristColumns)
  }

  /** `filter_necessary_columns_and_create_output_df`: `output`, before the rename. */
  function SelectOutputColumns(merged: Frame): (r: Result<Frame>)
    requires WellFormed(merged)
    ensures r.Err? <==> exists c :: c in OutputColumns && c !in merged.columns
    ensures r.Ok? ==> WellFormed(r.value) && r.value.columns == OutputColumns && |r.value.rows| == |merged.rows|
    ensures r.Ok? ==> forall j, c :: 0 <= j < |merged.rows| && c in OutputColumns ==> r.value.rows[j][c] == merged.rows[j][c]
  {
    SelectColumns(merged, OutputColumns)
  }

  /** `filter_and_create_coastal_out`: `coastal_out`, values unchanged. */
  function SelectCoastalColumns(coast: Frame): (r: Result<Frame>)
    requires WellFormed(coast)
    ensures r.Err? <==> exists c :: c in CoastalColumns && c !in coast.columns
    ensures r.Ok? ==> WellFormed(r.value) && r.value.columns == CoastalColumns && |r.value.rows| == |coast.rows|
    ensures r.Ok? ==> forall j, c :: 0 <= j < |coast.rows| && c in CoastalColumns ==> r.value.rows[j][c] == coast.rows[j][c]
  {
    SelectColumns(coast, CoastalColumns)
  }

  /** The output rename maps `SITE` and `postcode` and leaves every other name as it is. */
  lemma OutputNamesRename(c: string)
    ensures Renamed(c, OutputNames) == if c == "SITE" then "Tourist Sites" else if c == "postcode" then "PostCode" else c
  {
  }

  /** The output rename sends no two output columns to the same name. */
  lemma OutputRenameKeepsDistinct()
    ensures RenameKeepsDistinct(OutputColumns, OutputNames)
  {
    forall c | c in OutputColumns {
      OutputNamesRename(c);
    }
  }

  /** After the output rename the columns are "Tourist Sites", the four annotation
      columns and "PostCode", in that order. */
  lemma OutputRenameColumns(output: Frame)
    requires WellFormed(output) && output.columns == OutputColumns
    ensures RenameKeepsDistinct(output.columns, OutputNames)
    ensures RenameColumns(output, OutputNames).columns == ["Tourist Sites", NearHub, TransDist, NearGp, GpDist, "PostCode"]
  {
    OutputRenameKeepsDistinct();
    forall c | c in OutputColumns {
      OutputNamesRename(c);
    }
  }

  /** The output rename moves the values of `SITE` and `postcode` to their new names
      and keeps every other value under its own name. */
  lemma OutputRenameValues(output: Frame)
    requires WellFormed(output) && output.columns == OutputColumns
    ensures RenameKeepsDistinct(output.columns, OutputNames)
    ensures var r := RenameColumns(output, OutputNames);
      && |r.rows| == |output.rows|
      && (forall j :: 0 <= j < |output.rows| ==>
            && "Tourist Sites" in r.rows[j] && "PostCode" in r.rows[j] && "SITE" in output.rows[j] && "postcode" in output.rows[j]
            && r.rows[j]["Tourist Sites"] == output.rows[j]["SITE"] && r.rows[j]["PostCode"] == output.rows[j]["postcode"])
      && (forall j, c :: 0 <= j < |output.rows| && c in output.rows[j] && c != "SITE" && c != "postcode" ==>
            c in r.rows[j] && r.rows[j][c] == output.rows[j][c])
  {
    OutputRenameKeepsDistinct();
    var r := RenameColumns(output, OutputNames);
    OutputNamesRename("SITE");
    OutputNamesRename("postcode");
    assert "SITE" in ColumnSet(output.columns) && "postcode" in ColumnSet(output.columns);
    forall j, c | 0 <= j < |output.rows| && c in output.rows[j] && c != "SITE" && c != "postcode"
      ensures c in r.rows[j] && r.rows[j][c] == output.rows[j][c]
    {
      OutputNamesRename(c);
    }
  }

  /** `v` is the `PracticeName` of one of the practice rows. */
  predicate IsPracticeName(v: Value, postGp: Frame)
  {
    exists j :: 0 <= j < |postGp.rows| && "PracticeName" in postGp.rows[j] && postGp.rows[j]["PracticeName"] == v
  }

  /** The practice written into an annotation is the `PracticeName` of one of the
      practice rows. */
  lemma AnnotatedPracticeExists(src: Row, transport: Frame, gps: Frame, kind: QueryKind, metric: Metric)
    requires References(transport, gps)
    requires Expected(src, transport, gps, kind, metric).Ok?
    ensures IsPracticeName(Expected(src, transport, gps, kind, metric).value.gp, gps)
  {
    ExpectedIsNearest(src, transport, gps, kind, metric);
    var a := Expected(src, transport, gps, kind, metric).value;
    var q := QueryLocation(src, kind).value;
    var k: nat :| IsFirstMin(Distances(gps, q, metric), k) && a.gp == gps.rows[k]["PracticeName"];
    assert "PracticeName" in gps.rows[k];
  }

  /** A practice row holding the name `v`. */
  lemma PracticeRow(v: Value, postGp: Frame) returns (j: nat)
    requires IsPracticeName(v, postGp)
    ensures j < |postGp.rows| && "PracticeName" in postGp.rows[j] && postGp.rows[j]["PracticeName"] == v
  {
    j :| 0 <= j < |postGp.rows| && "PracticeName" in postGp.rows[j] && postGp.rows[j]["PracticeName"] == v;
  }

  /** The tourist row `site` appears in the merge `merged`, next to a practice row
      whose `PracticeName` is the site's `Near_GP`. */
  predicate MeetsPractice(site: Row, postGp: Frame, merged: seq<Row>)
  {
    && NearGp in site
    && (exists j :: 0 <= j < |postGp.rows| && "PracticeName" in postGp.rows[j] &&
          postGp.rows[j]["PracticeName"] == site[NearGp] && postGp.rows[j] + site in merged)
  }

  /** The tourist row `site` appears in the merge `merged` next to the practice row
      nearest to the query row `src`: the first position of the smallest distance. */
  predicate MeetsNearestPractice(site: Row, src: Row, gps: Frame, kind: QueryKind, metric: Metric, merged: seq<Row>)
  {
    && QueryLocation(src, kind).Ok?
    && var d := Distances(gps, QueryLocation(src, kind).value, metric);
      SomePresent(d) && gps.rows[FirstArgMin(d)] + site in merged
  }

  /** When every `Near_GP` of `tourist_out` is the `PracticeName` of some practice row,
      every row of `tourist_out` appears in the merge next to a practice of that name. */
  lemma MergeKeepsEverySite(postGp: Frame, touristOut: Frame)
    requires WellFormed(postGp) && WellFormed(touristOut)
    requires ColumnSet(postGp.columns) !! ColumnSet(touristOut.columns)
    requires "PracticeName" in postGp.columns && NearGp in touristOut.columns
    requires forall k :: 0 <= k < |touristOut.rows| ==> NearGp in touristOut.rows[k] && IsPracticeName(touristOut.rows[k][NearGp], postGp)
    ensures var m := InnerJoin(postGp, touristOut, "PracticeName", NearGp);
      && m.Ok?
      && forall k :: 0 <= k < |touristOut.rows| ==> MeetsPractice(touristOut.rows[k], postGp, m.value.rows)
  {
    var m := InnerJoin(postGp, touristOut, "PracticeName", NearGp);
    forall k | 0 <= k < |touristOut.rows|
      ensures MeetsPractice(touristOut.rows[k], postGp, m.value.rows)
    {
      var j := PracticeRow(touristOut.rows[k][NearGp], postGp);
      assert postGp.rows[j] + touristOut.rows[k] in m.value.rows;
    }
  }

  /** The practice an annotation names is the `PracticeName` of the nearest practice row. */
  lemma AnnotatedPracticeIsNearest(src: Row, transport: Frame, gps: Frame, kind: QueryKind, metric: Metric)
    requires References(transport, gps)
    requires Expected(src, transport, gps, kind, metric).Ok?
    ensures QueryLocation(src, kind).Ok?
    ensures var d := Distances(gps, QueryLocation(src, kind).value, metric);
      && SomePresent(d) && "PracticeName" in gps.rows[FirstArgMin(d)]
      && Expected(src, transport, gps, kind, metric).value.gp == gps.rows[FirstArgMin(d)]["PracticeName"]
  {
  }

  /** Lines 176-193 end to end: when every row of the annotated table holds in
      `Near_GP` the practice of its annotation, each row of `tourist_out` meets in
      the merge at line 193 the practice nearest to its site, and so a practice
      whose name is its `Near_GP`. */
  lemma EverySiteMeetsItsPractice(tourist: Frame, annotated: Frame, transport: Frame, gps: Frame, kind: QueryKind, metric: Metric)
    requires WellFormed(tourist) && WellFormed(annotated) && References(transport, gps)
    requires |annotated.rows| == |tourist.rows|
    requires forall k :: 0 <= k < |tourist.rows| ==>
      Expected(tourist.rows[k], transport, gps, kind, metric).Ok? && NearGp in annotated.rows[k] &&
      annotated.rows[k][NearGp] == Expected(tourist.rows[k], transport, gps, kind, metric).value.gp
    requires SelectTouristColumns(annotated).Ok?
    requires "PracticeName" in gps.columns && ColumnSet(gps.columns) !! ColumnSet(TouristColumns)
    ensures var out := SelectTouristColumns(annotated).value;
      var m := InnerJoin(gps, out, "PracticeName", NearGp);
      && m.Ok?
      && (forall k :: 0 <= k < |out.rows| ==> MeetsNearestPractice(out.rows[k], tourist.rows[k], gps, kind, metric, m.value.rows))
      && (forall k :: 0 <= k < |out.rows| ==> MeetsPractice(out.rows[k], gps, m.value.rows))
  {
    var out := SelectTouristColumns(annotated).value;
    var m := InnerJoin(gps, out, "PracticeName", NearGp);
    forall k | 0 <= k < |out.rows|
      ensures MeetsNearestPractice(out.rows[k], tourist.rows[k], gps, kind, metric, m.value.rows)
      ensures MeetsPractice(out.rows[k], gps, m.value.rows)
    {
      AnnotatedPracticeIsNearest(tourist.rows[k], transport, gps, kind, metric);
      var j := FirstArgMin(Distances(gps, QueryLocation(tourist.rows[k], kind).value, metric));
      assert out.rows[k][NearGp] == annotated.rows[k][NearGp] == gps.rows[j]["PracticeName"];
      assert gps.rows[j] + out.rows[k] in m.value.rows;
    }
  }

  /** Lines 155-193 as a whole: the loop over the tourist sites runs to the end,
      both distance columns are rounded (which cannot fail once a site was
      annotated), `tourist_out` is projected (which cannot fail when the sites
      have a `SITE` column), and then every row of `tourist_out` meets in the merge
      the practice nearest to its site. */
  lemma LoopedSitesMeetTheirPractices(tourist: Frame, transport: Frame, gps: Frame, kind: QueryKind, metric: Metric)
    requires WellFormed(tourist) && References(transport, gps)
    requires Run(tourist, transport, gps, kind, metric).Done?
    requires "PracticeName" in gps.columns && ColumnSet(gps.columns) !! ColumnSet(TouristColumns)
    ensures |tourist.rows| > 0 ==> RoundDistances(Run(tourist, transport, gps, kind, metric).frame).Done?
    ensures |tourist.rows| > 0 && "SITE" in tourist.columns ==>
      SelectTouristColumns(RoundDistances(Run(tourist, transport, gps, kind, metric).frame).frame).Ok?
    ensures var rounded := RoundDistances(Run(tourist, transport, gps, kind, metric).frame);
      rounded.Done? && SelectTouristColumns(rounded.frame).Ok? ==>
        var out := SelectTouristColumns(rounded.frame).value;
        var m := InnerJoin(gps, out, "PracticeName", NearGp);
        && m.Ok? && |out.rows| == |tourist.rows|
        && forall k :: 0 <= k < |out.rows| ==> MeetsNearestPractice(out.rows[k], tourist.rows[k], gps, kind, metric, m.value.rows)
  {
    var f := Run(tourist, transport, gps, kind, metric).frame;
    var rounded := RoundDistances(f);
    if |tourist.rows| > 0 {
      RoundableAfterRun(tourist, transport, gps, kind, metric);
      if "SITE" in tourist.columns {
        RoundedKeepsTouristColumns(tourist, f, rounded.frame);
      }
    }
    if rounded.Done? && SelectTouristColumns(rounded.frame).Ok? {
      forall k | 0 <= k < |tourist.rows|
        ensures Expected(tourist.rows[k], transport, gps, kind, metric).Ok? && NearGp in rounded.frame.rows[k]
        ensures rounded.frame.rows[k][NearGp] == Expected(tourist.rows[k], transport, gps, kind, metric).value.gp
      {
        assert CarriesOwn(f.rows[k], tourist.rows[k], transport, gps, kind, metric);
      }
      EverySiteMeetsItsPractice(tourist, rounded.frame, transport, gps, kind, metric);
    }
  }

  /** A table whose first row carries the annotation columns, grown from one with a
      `SITE` column, keeps every column of `tourist_out` through the rounding. */
  lemma RoundedKeepsTouristColumns(tourist: Frame, f: Frame, g: Frame)
    requires WellFormed(f) && |f.rows| > 0 && AnnotatedColumns <= f.rows[0].Keys
    requires "SITE" in tourist.columns && ColumnsGrow(tourist, f)
    requires WellFormed(g) && g.columns == f.columns
    ensures SelectTouristColumns(g).Ok?
  {
    assert f.rows[0].Keys == ColumnSet(f.columns);
    forall c | c in TouristColumns
      ensures c in g.columns
    {
      assert c == "SITE" || c in AnnotatedColumns;
      if c != "SITE" {
        assert c in ColumnSet(f.columns);
      }
    }
  }
}
