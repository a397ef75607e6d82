/**
 * The control-data script: it reads the observation partitions, keeps the
 * thirteen requested columns, writes the rows whose colony is "unknown"
 * (deduplicated, four columns renamed) to one table, and writes the
 * control-group rows of the other colonies, left-joined on colony_id with
 * the allele and gene of that colony's experimental rows, to another.
 *
 * Each stage is the composition of the engine operators of `Frames`; the
 * printed counts are returned as `Statistics` instead of printed.
 */
module ControlData {
  import opened Wrappers
  import opened Columns
  import opened Frames

  /** The columns kept from every partition, in this order. */
  const RequestedColumns: seq<Name> := [
    AlleleAccessionId, GeneAccessionId, ExternalSampleId, BiologicalSampleGroup, Sex,
    ProductionCenter, ColonyId, Weight, Zygosity, StrainName, DateOfExperiment,
    MetadataGroup, PhenotypingCenter]

  /** The renaming applied to both output tables. */
  const RenameMapping: seq<(Name, Name)> := [
    (ExternalSampleId, SpecimenId), (BiologicalSampleGroup, Group),
    (StrainName, BackgroundStrainName), (DateOfExperiment, Batch)]

  /** The columns of the unknown-colony table: the requested ones, four renamed in place. */
  const UnknownColumns: seq<Name> := [
    AlleleAccessionId, GeneAccessionId, SpecimenId, Group, Sex,
    ProductionCenter, ColonyId, Weight, Zygosity, BackgroundStrainName, Batch,
    MetadataGroup, PhenotypingCenter]

  /** The two columns dropped from the control rows. */
  const AlleleAndGene: seq<Name> := [AlleleAccessionId, GeneAccessionId]

  /** The columns of the control rows: the requested ones without allele and gene. */
  const ControlColumns: seq<Name> := [
    ExternalSampleId, BiologicalSampleGroup, Sex, ProductionCenter, ColonyId, Weight,
    Zygosity, StrainName, DateOfExperiment, MetadataGroup, PhenotypingCenter]

  /** The columns kept from the experimental rows. */
  const ExperimentalColumns: seq<Name> := [AlleleAccessionId, GeneAccessionId, ColonyId]

  /** The columns of the output table: the renamed control columns, then allele and gene. */
  const JoinedColumns: seq<Name> := [
    SpecimenId, Group, Sex, ProductionCenter, ColonyId, Weight,
    Zygosity, BackgroundStrainName, Batch, MetadataGroup, PhenotypingCenter,
    AlleleAccessionId, GeneAccessionId]

  const Unknown := "unknown"
  const Control := "control"
  const Experimental := "experimental"

  /** Positions of the compared columns in the requested columns and in the control rows. */
  const ColonyAt := 6
  const GroupAt := 3
  const ControlColonyAt := 4

  lemma RequestedDistinct()
    ensures Distinct(RequestedColumns)
  {
  }

  lemma RequestedColony()
    ensures IndexOf(RequestedColumns, ColonyId) == ColonyAt
  {
  }

  lemma UnknownRenamed()
    ensures RenamedColumns(RequestedColumns, RenameMapping) == UnknownColumns
  {
  }

  lemma UnknownDistinct()
    ensures Distinct(UnknownColumns)
  {
  }

  lemma ControlDropped()
    ensures Without(RequestedColumns, AlleleAndGene) == ControlColumns
  {
    assert RequestedColumns[2..] == ControlColumns;
    WithoutNone(ControlColumns, AlleleAndGene);
    assert RequestedColumns[1..][1..] == ControlColumns;
  }

  lemma ControlColony()
    ensures IndexOf(ControlColumns, ColonyId) == ControlColonyAt
  {
  }

  lemma ExperimentalDistinct()
    ensures Distinct(ExperimentalColumns)
  {
  }

  lemma ExperimentalColony()
    ensures IndexOf(ExperimentalColumns, ColonyId) == 2
  {
  }

  lemma JoinedJoin()
    ensures JoinColumns(ControlColumns, ExperimentalColumns, ColonyId) == ControlColumns + AlleleAndGene
  {
  }

  lemma JoinedRenamed()
    ensures RenamedColumns(ControlColumns + AlleleAndGene, RenameMapping) == JoinedColumns
  {
  }

  lemma JoinedDistinct()
    ensures Distinct(JoinedColumns)
  {
  }

  lemma JoinedInputDistinct()
    ensures Distinct(ControlColumns + AlleleAndGene)
  { }

  lemma MappingKeys()
    ensures forall p :: p in RenameMapping ==> p.0 in RequestedColumns && p.0 in ControlColumns + AlleleAndGene
  { }

  lemma ExperimentalPositions()
    ensures IndexOf(RequestedColumns, AlleleAccessionId) == 0
    ensures IndexOf(RequestedColumns, GeneAccessionId) == 1
  { }

  // ---------------------------------------------------------------------
  // get_unique_and_statistics

  /** The two counts printed about a stage: its rows, and its distinct rows. */
  datatype Statistics = Statistics(where: string, total: nat, unique: nat)

  /** A deduplicated stage and the counts printed about it. */
  datatype Checked = Checked(frame: Frame, stats: Statistics)

  /**
   * `get_unique_and_statistics(df, where)`: the distinct rows of `df`, and
   * the number of rows before and after; the two numbers agree exactly when
   * `df` has no duplicate row.
   */
  function GetUniqueAndStatistics(df: Frame, where: string := "dataframe"): (r: Checked)
    requires WellFormed(df)
    ensures WellFormed(r.frame) && r.frame.columns == df.columns
    ensures Distinct(r.frame.rows) && forall x :: x in r.frame.rows <==> x in df.rows
    ensures r.stats.where == where && r.stats.total == |df.rows| && r.stats.unique == |r.frame.rows|
    ensures r.stats.unique == |set x | x in df.rows| <= r.stats.total
    ensures r.stats.unique == r.stats.total <==> Distinct(df.rows)
  {
    var u := Unique(df);
    Checked(u, Statistics(where, |df.rows|, |u.rows|))
  }

  /** Deduplicating the result again finds nothing more to remove. */
  lemma {:induction false} GetUniqueIdempotent(df: Frame, where: string)
    requires WellFormed(df)
    ensures var once := GetUniqueAndStatistics(df, where).frame;
      var twice := GetUniqueAndStatistics(once, where);
      twice.stats.total == twice.stats.unique && multiset(twice.frame.rows) == multiset(once.rows)
  {
    var once := GetUniqueAndStatistics(df, where).frame;
    var twice := GetUniqueAndStatistics(once, where);
    DistinctSameElements(twice.frame.rows, once.rows);
  }

  // ---------------------------------------------------------------------
  // reading the partitions

  /** A partition holds at least the requested columns. */
  predicate HasRequestedColumns(f: Frame) {
    forall k :: 0 <= k < |RequestedColumns| ==> RequestedColumns[k] in f.columns
  }

  /** Row `i` of partition `f`, reduced to the requested columns in their order. */
  function RequestedRow(f: Frame, i: nat): (r: Row)
    requires WellFormed(f) && HasRequestedColumns(f) && i < |f.rows|
    ensures |r| == |RequestedColumns|
    ensures forall k :: 0 <= k < |RequestedColumns| ==>
      r[k] == Get(f.columns, f.rows[i], RequestedColumns[k])
  {
    seq(|RequestedColumns|, k requires 0 <= k < |RequestedColumns| =>
      Get(f.columns, f.rows[i], RequestedColumns[k]))
  }

  /** `p` is partition `f` with only the requested columns. */
  predicate IsRequestedPart(p: Frame, f: Frame)
    requires WellFormed(f) && HasRequestedColumns(f)
  {
    WellFormed(p) && p.columns == RequestedColumns && |p.rows| == |f.rows| &&
    forall i :: 0 <= i < |f.rows| ==> p.rows[i] == RequestedRow(f, i)
  }

  /** Selecting the requested columns succeeds exactly on the partitions that have them. */
  lemma {:induction false} SelectRequested(f: Frame)
    requires WellFormed(f)
    ensures Select(f, RequestedColumns).Success? <==> HasRequestedColumns(f)
    ensures HasRequestedColumns(f) ==> IsRequestedPart(Select(f, RequestedColumns).value, f)
  {
    RequestedDistinct();
    if HasRequestedColumns(f) {
      var p := Select(f, RequestedColumns).value;
      forall i | 0 <= i < |f.rows| ensures p.rows[i] == RequestedRow(f, i) {
        SelectCells(f, RequestedColumns, i);
      }
    }
  }

  lemma {:induction false} SelectRequestedAll(files: seq<Frame>)
    requires forall j :: 0 <= j < |files| ==> WellFormed(files[j])
    ensures forall j :: 0 <= j < |files| ==>
      (Select(files[j], RequestedColumns).Success? <==> HasRequestedColumns(files[j]))
    ensures forall j :: 0 <= j < |files| && HasRequestedColumns(files[j]) ==>
      IsRequestedPart(Select(files[j], RequestedColumns).value, files[j])
  {
    forall j | 0 <= j < |files| {
      SelectRequested(files[j]);
    }
  }

  /** The rows of partition `f`, reduced to the requested columns. */
  function RequestedRows(f: Frame): (rows: seq<Row>)
    requires WellFormed(f) && HasRequestedColumns(f)
    ensures |rows| == |f.rows| && forall i :: 0 <= i < |f.rows| ==> rows[i] == RequestedRow(f, i)
  {
    seq(|f.rows|, i requires 0 <= i < |f.rows| => RequestedRow(f, i))
  }

  /** The requested rows of all the partitions as a bag: each as often as it occurs in them together. */
  function RequestedBag(files: seq<Frame>): multiset<Row>
    requires forall j :: 0 <= j < |files| ==> WellFormed(files[j]) && HasRequestedColumns(files[j])
  {
    if files == [] then multiset{} else multiset(RequestedRows(files[0])) + RequestedBag(files[1..])
  }

  /** The reduced partitions hold, together, the requested rows of the partitions. */
  lemma {:induction false} PartsBag(parts: seq<Frame>, files: seq<Frame>)
    requires forall j :: 0 <= j < |files| ==> WellFormed(files[j]) && HasRequestedColumns(files[j])
    requires |parts| == |files| && forall j :: 0 <= j < |files| ==> IsRequestedPart(parts[j], files[j])
    ensures Bag(parts) == RequestedBag(files)
  {
    if files != [] {
      assert parts[0].rows == RequestedRows(files[0]);
      PartsBag(parts[1..], files[1..]);
    }
  }

  /** A frame with exactly the requested columns, as `lazy_df` has. */
  predicate IsLazy(f: Frame) {
    WellFormed(f) && f.columns == RequestedColumns
  }

  /** Reducing every partition to the requested columns keeps every row. */
  lemma {:induction false} PartsTotalRows(parts: seq<Frame>, files: seq<Frame>)
    requires |parts| == |files|
    requires forall j :: 0 <= j < |files| ==> |parts[j].rows| == |files[j].rows|
    ensures TotalRows(parts) == TotalRows(files)
  {
    if files != [] {
      PartsTotalRows(parts[1..], files[1..]);
    }
  }

  /** The rows of the reduced partitions are the requested rows of the partitions. */
  lemma {:induction false} PartsRows(parts: seq<Frame>, files: seq<Frame>, x: Row)
    requires forall j :: 0 <= j < |files| ==> WellFormed(files[j]) && HasRequestedColumns(files[j])
    requires |parts| == |files| && forall j :: 0 <= j < |files| ==> IsRequestedPart(parts[j], files[j])
    ensures (exists f :: f in parts && x in f.rows) <==>
      exists j, i :: 0 <= j < |files| && 0 <= i < |files[j].rows| && x == RequestedRow(files[j], i)
  {
    if exists f :: f in parts && x in f.rows {
      var f :| f in parts && x in f.rows;
      var j :| 0 <= j < |parts| && parts[j] == f;
      var i :| 0 <= i < |f.rows| && f.rows[i] == x;
      assert x == RequestedRow(files[j], i);
    }
    if exists j, i :: 0 <= j < |files| && 0 <= i < |files[j].rows| && x == RequestedRow(files[j], i) {
      var j, i :| 0 <= j < |files| && 0 <= i < |files[j].rows| && x == RequestedRow(files[j], i);
      assert parts[j] in parts && x == parts[j].rows[i];
    }
  }

  /**
   * `lazy_df = pl.concat(lazy_frames)`: the requested cells of every row of
   * every partition. It fails when there is no partition, or when a
   * partition lacks a requested column.
   */
  function LazyDf(files: seq<Frame>): (r: Result<Frame, Error>)
    requires forall j :: 0 <= j < |files| ==> WellFormed(files[j])
    ensures r.Success? <==> |files| > 0 && forall j :: 0 <= j < |files| ==> HasRequestedColumns(files[j])
    ensures r.Success? ==> IsLazy(r.value) && |r.value.rows| == TotalRows(files)
    ensures r.Success? ==> forall x :: x in r.value.rows <==>
      exists j, i :: 0 <= j < |files| && 0 <= i < |files[j].rows| && x == RequestedRow(files[j], i)
    ensures r.Success? ==> multiset(r.value.rows) == RequestedBag(files)
  {
    SelectRequestedAll(files);
    var parts :- SelectAll(files, RequestedColumns);
    assert forall f :: f in parts ==> WellFormed(f);
    var all :- Concat(parts);
    ConcatCount(parts);
    PartsTotalRows(parts, files);
    PartsBag(parts, files);
    forall x ensures x in all.rows <==>
      exists j, i :: 0 <= j < |files| && 0 <= i < |files[j].rows| && x == RequestedRow(files[j], i)
    {
      PartsRows(parts, files, x);
    }
    Success(all)
  }

  // ---------------------------------------------------------------------
  // the unknown-colony table

  /**
   * `unknown_df`: the rows whose colony is "unknown", four columns renamed,
   * deduplicated. The printed total is the number of "unknown" cells in
   * the colony column.
   */
  function UnknownStage(lazy: Frame): (r: Checked)
    requires IsLazy(lazy)
    ensures WellFormed(r.frame) && r.frame.columns == UnknownColumns && Distinct(r.frame.rows)
    ensures forall x :: x in r.frame.rows <==> x in lazy.rows && x[ColonyAt] == Some(Unknown)
    ensures r.stats == Statistics("with unknown colony_id",
      multiset(CellsAt(lazy.rows, ColonyAt))[Some(Unknown)], |r.frame.rows|)
  {
    FilterAt(lazy, ColonyId, Equals(Unknown), ColonyAt);
    HoldsMeaning(Unknown);
    FilterPartition(lazy, ColonyId, Unknown);
    UnknownRenamed();
    UnknownDistinct();
    MappingKeys();
    var unknown := Filter(lazy, ColonyId, Equals(Unknown)).value;
    var renamed := Rename(unknown, RenameMapping).value;
    GetUniqueAndStatistics(renamed, "with unknown colony_id")
  }

  /** `filtered_df`: the rows whose colony is neither "unknown" nor null. */
  function FilteredDf(lazy: Frame): (r: Frame)
    requires IsLazy(lazy)
    ensures IsLazy(r)
    ensures forall x: Row :: x in r.rows <==>
      x in lazy.rows && x[ColonyAt].Some? && x[ColonyAt].value != Unknown
    ensures forall x: Row ::
      multiset(r.rows)[x] ==
        if x in lazy.rows && x[ColonyAt].Some? && x[ColonyAt].value != Unknown then multiset(lazy.rows)[x] else 0
  {
    FilterAt(lazy, ColonyId, NotEquals(Unknown), ColonyAt);
    HoldsMeaning(Unknown);
    Filter(lazy, ColonyId, NotEquals(Unknown)).value
  }

  /**
   * Every input row is counted once: its colony is "unknown", another
   * colony, or null.
   */
  lemma {:induction false} PartitionCount(lazy: Frame)
    requires IsLazy(lazy)
    ensures UnknownStage(lazy).stats.total + |FilteredDf(lazy).rows|
      + multiset(CellsAt(lazy.rows, ColonyAt))[None] == |lazy.rows|
  {
    RequestedColony();
    FilterPartition(lazy, ColonyId, Unknown);
  }

  /**
   * Every input row with a colony reaches exactly one of the two tables'
   * inputs, and a row with a null colony reaches neither.
   */
  lemma {:induction false} PartitionComplete(lazy: Frame)
    requires IsLazy(lazy)
    ensures forall i :: 0 <= i < |lazy.rows| ==>
      lazy.rows[i][ColonyAt].None? || lazy.rows[i] in FilteredDf(lazy).rows || lazy.rows[i] in UnknownStage(lazy).frame.rows
    ensures forall i :: 0 <= i < |lazy.rows| ==>
      !(lazy.rows[i] in FilteredDf(lazy).rows && lazy.rows[i] in UnknownStage(lazy).frame.rows)
    ensures forall i :: 0 <= i < |lazy.rows| && lazy.rows[i][ColonyAt].None? ==>
      lazy.rows[i] !in FilteredDf(lazy).rows && lazy.rows[i] !in UnknownStage(lazy).frame.rows
  {
  }

  // ---------------------------------------------------------------------
  // the control and experimental rows

  /** Dropping allele and gene from a frame with the requested columns keeps cells 2 to 12. */
  lemma {:induction false} DropAlleleAndGene(f: Frame)
    requires IsLazy(f)
    ensures Drop(f, AlleleAndGene).Success?
    ensures Drop(f, AlleleAndGene).value.columns == ControlColumns
    ensures |Drop(f, AlleleAndGene).value.rows| == |f.rows|
    ensures forall i :: 0 <= i < |f.rows| ==> Drop(f, AlleleAndGene).value.rows[i] == f.rows[i][2..]
  {
    SelectSuffix(f, 2);
    ControlDropped();
    assert f.columns[2..] == ControlColumns;
  }

  /** Selecting allele, gene and colony from a frame with the requested columns keeps cells 0, 1 and 6. */
  lemma {:induction false} SelectExperimental(f: Frame)
    requires IsLazy(f)
    ensures Select(f, ExperimentalColumns).Success?
    ensures |Select(f, ExperimentalColumns).value.rows| == |f.rows|
    ensures forall i :: 0 <= i < |f.rows| ==>
      Select(f, ExperimentalColumns).value.rows[i] == [f.rows[i][0], f.rows[i][1], f.rows[i][ColonyAt]]
  {
    ExperimentalDistinct();
    ExperimentalPositions();
    RequestedColony();
    var e := Select(f, ExperimentalColumns).value;
    forall i | 0 <= i < |f.rows| ensures e.rows[i] == [f.rows[i][0], f.rows[i][1], f.rows[i][ColonyAt]] {
      SelectCells(f, ExperimentalColumns, i);
    }
  }

  /** The control rows, as rows of the filtered frame without their first two cells. */
  predicate IsControlRow(filtered: Frame, c: Row)
    requires IsLazy(filtered)
  {
    exists l :: l in filtered.rows && l[GroupAt] == Some(Control) && c == l[2..]
  }

  /** The experimental rows, as allele, gene and colony of rows of the filtered frame. */
  predicate IsExperimentalRow(filtered: Frame, e: Row)
    requires IsLazy(filtered)
  {
    exists l :: l in filtered.rows && l[GroupAt] == Some(Experimental) && e == [l[0], l[1], l[ColonyAt]]
  }

  /**
   * `control_df`: the rows of the control group, without allele and gene,
   * deduplicated.
   */
  function ControlStage(filtered: Frame): (r: Checked)
    requires IsLazy(filtered)
    ensures WellFormed(r.frame) && r.frame.columns == ControlColumns && Distinct(r.frame.rows)
    ensures forall c :: c in r.frame.rows <==> IsControlRow(filtered, c)
    ensures r.stats == Statistics("in control group",
      multiset(CellsAt(filtered.rows, GroupAt))[Some(Control)], |r.frame.rows|)
  {
    FilterAt(filtered, BiologicalSampleGroup, Equals(Control), GroupAt);
    HoldsMeaning(Control);
    FilterPartition(filtered, BiologicalSampleGroup, Control);
    var control := Filter(filtered, BiologicalSampleGroup, Equals(Control)).value;
    DropAlleleAndGene(control);
    var dropped := Drop(control, AlleleAndGene).value;
    ControlMembers(filtered, control, dropped);
    GetUniqueAndStatistics(dropped, "in control group")
  }

  lemma {:induction false} ControlMembers(filtered: Frame, control: Frame, dropped: Frame)
    requires IsLazy(filtered) && IsLazy(control)
    requires forall x :: x in control.rows <==> x in filtered.rows && x[GroupAt] == Some(Control)
    requires |dropped.rows| == |control.rows|
    requires forall i :: 0 <= i < |control.rows| ==> dropped.rows[i] == control.rows[i][2..]
    ensures forall c :: c in dropped.rows <==> IsControlRow(filtered, c)
  {
    forall c ensures c in dropped.rows <==> IsControlRow(filtered, c) {
      if c in dropped.rows {
        var i :| 0 <= i < |dropped.rows| && dropped.rows[i] == c;
        assert control.rows[i] in control.rows;
      }
      if IsControlRow(filtered, c) {
        var l :| l in filtered.rows && l[GroupAt] == Some(Control) && c == l[2..];
        var i :| 0 <= i < |control.rows| && control.rows[i] == l;
        assert dropped.rows[i] == c;
      }
    }
  }

  /**
   * `experimental_df`: allele, gene and colony of the rows of the
   * experimental group, deduplicated.
   */
  function ExperimentalStage(filtered: Frame): (r: Checked)
    requires IsLazy(filtered)
    ensures WellFormed(r.frame) && r.frame.columns == ExperimentalColumns && Distinct(r.frame.rows)
    ensures forall e :: e in r.frame.rows <==> IsExperimentalRow(filtered, e)
    ensures r.stats == Statistics("in experimental group",
      multiset(CellsAt(filtered.rows, GroupAt))[Some(Experimental)], |r.frame.rows|)
  {
    FilterAt(filtered, BiologicalSampleGroup, Equals(Experimental), GroupAt);
    HoldsMeaning(Experimental);
    FilterPartition(filtered, BiologicalSampleGroup, Experimental);
    var experimental := Filter(filtered, BiologicalSampleGroup, Equals(Experimental)).value;
    SelectExperimental(experimental);
    var selected := Select(experimental, ExperimentalColumns).value;
    ExperimentalMembers(filtered, experimental, selected);
    GetUniqueAndStatistics(selected, "in experimental group")
  }

  lemma {:induction false} ExperimentalMembers(filtered: Frame, experimental: Frame, selected: Frame)
    requires IsLazy(filtered) && IsLazy(experimental)
    requires forall x :: x in experimental.rows <==> x in filtered.rows && x[GroupAt] == Some(Experimental)
    requires |selected.rows| == |experimental.rows|
    requires forall i :: 0 <= i < |experimental.rows| ==>
      selected.rows[i] == [experimental.rows[i][0], experimental.rows[i][1], experimental.rows[i][ColonyAt]]
    ensures forall e :: e in selected.rows <==> IsExperimentalRow(filtered, e)
  {
    forall e ensures e in selected.rows <==> IsExperimentalRow(filtered, e) {
      if e in selected.rows {
        var i :| 0 <= i < |selected.rows| && selected.rows[i] == e;
        assert experimental.rows[i] in experimental.rows;
      }
      if IsExperimentalRow(filtered, e) {
        var l :| l in filtered.rows && l[GroupAt] == Some(Experimental) && e == [l[0], l[1], l[ColonyAt]];
        var i :| 0 <= i < |experimental.rows| && experimental.rows[i] == l;
        assert selected.rows[i] == e;
      }
    }
  }

  // ---------------------------------------------------------------------
  // the joined table

  /** A frame shaped like `control_df`. */
  predicate IsControl(f: Frame) {
    WellFormed(f) && f.columns == ControlColumns
  }

  /** A frame shaped like `experimental_df`. */
  predicate IsExperimental(f: Frame) {
    WellFormed(f) && f.columns == ExperimentalColumns
  }

  /**
   * `joined_df`: the control rows left-joined on colony_id with the
   * experimental rows, four columns renamed; allele and gene come last.
   */
  function JoinedDf(control: Frame, experimental: Frame): (r: Frame)
    requires IsControl(control) && IsExperimental(experimental)
    ensures WellFormed(r) && r.columns == JoinedColumns
    ensures r.rows == JoinedRows(control, experimental)
  {
    ControlColony();
    ExperimentalColony();
    JoinedJoin();
    JoinedInputDistinct();
    var joined := LeftJoin(control, experimental, ColonyId).value;
    MappingKeys();
    JoinedRenamed();
    JoinedDistinct();
    Rename(joined, RenameMapping).value
  }

  /** The rows of `joined_df`, as the join of the two frames' rows on their colony cells. */
  function JoinedRows(control: Frame, experimental: Frame): seq<Row>
    requires IsControl(control) && IsExperimental(experimental)
  {
    JoinRows(control.rows, ControlColonyAt, experimental.rows, 2, 2)
  }

  /** The cells an experimental row contributes to the join: its allele and gene. */
  lemma {:induction false} AlleleAndGeneOf(e: Row)
    requires |e| == 3
    ensures DropAt(e, 2) == [e[0], e[1]]
  {
    assert DropAt(e, 2) == e[..2];
  }

  /** An experimental row holding colony `colony`, which is not null. */
  predicate HasPartner(experimental: Frame, colony: Cell)
    requires IsExperimental(experimental)
  {
    exists e :: e in experimental.rows && colony.Some? && e[2] == colony
  }

  /**
   * Every joined row is a control row followed by the allele and gene of an
   * experimental row of the same colony, or by two nulls when its colony
   * has no experimental row.
   */
  lemma {:induction false} JoinedShape(control: Frame, experimental: Frame, x: Row)
    requires IsControl(control) && IsExperimental(experimental)
    requires x in JoinedRows(control, experimental)
    ensures exists c :: c in control.rows && c <= x && JoinedFrom(experimental, c, x)
  {
    JoinRowsMembers(control.rows, ControlColonyAt, experimental.rows, 2, 2, x);
    var c :| c in control.rows && x in JoinRow(c, ControlColonyAt, experimental.rows, 2, 2);
    MembersWidth(control.rows, |ControlColumns|);
    JoinRowOfControl(experimental, c, x);
  }

  /**
   * `x` is control row `c` followed by the allele and gene of an
   * experimental row of the same colony, or by two nulls when its colony
   * has no experimental row.
   */
  predicate JoinedFrom(experimental: Frame, c: Row, x: Row)
    requires IsExperimental(experimental) && |c| == |ControlColumns|
  {
    if HasPartner(experimental, c[ControlColonyAt]) then
      exists e :: e in experimental.rows && e[2] == c[ControlColonyAt] && x == c + [e[0], e[1]]
    else x == c + [None, None]
  }

  lemma {:induction false} JoinRowOfControl(experimental: Frame, c: Row, x: Row)
    requires IsExperimental(experimental) && |c| == |ControlColumns|
    requires x in JoinRow(c, ControlColonyAt, experimental.rows, 2, 2)
    ensures c <= x && JoinedFrom(experimental, c, x)
  {
    JoinRowShape(c, ControlColonyAt, experimental.rows, 2, 2, x);
    MatchCountMeaning(c[ControlColonyAt], experimental.rows, 2);
    if MatchCount(c[ControlColonyAt], experimental.rows, 2) == 0 {
      assert Nulls(2) == [None, None];
    } else {
      var e :| e in experimental.rows && e[2] == c[ControlColonyAt] && x == c + DropAt(e, 2);
      MembersWidth(experimental.rows, 3);
      AlleleAndGeneOf(e);
    }
  }

  /** Every control row is kept, next to each experimental row of its colony or next to nulls. */
  lemma {:induction false} JoinedKeeps(control: Frame, experimental: Frame, c: Row)
    requires IsControl(control) && IsExperimental(experimental)
    requires c in control.rows
    ensures !HasPartner(experimental, c[ControlColonyAt]) ==> c + [None, None] in JoinedRows(control, experimental)
    ensures forall e :: e in experimental.rows && c[ControlColonyAt].Some? && e[2] == c[ControlColonyAt] ==>
      c + [e[0], e[1]] in JoinedRows(control, experimental)
  {
    MembersWidth(control.rows, |ControlColumns|);
    MembersWidth(experimental.rows, 3);
    JoinRowMatches(c, ControlColonyAt, experimental.rows, 2, 2);
    MatchCountMeaning(c[ControlColonyAt], experimental.rows, 2);
    assert Nulls(2) == [None, None];
    forall x | x in JoinRow(c, ControlColonyAt, experimental.rows, 2, 2)
      ensures x in JoinedRows(control, experimental)
    {
      JoinRowsMembers(control.rows, ControlColonyAt, experimental.rows, 2, 2, x);
    }
    forall e | e in experimental.rows ensures DropAt(e, 2) == [e[0], e[1]] {
      AlleleAndGeneOf(e);
    }
  }

  /**
   * Fan-out: a control row occurring `n` times starts n * max(m, 1) joined
   * rows, where `m` is the number of experimental rows of its colony.
   */
  lemma {:induction false} JoinedFanOut(control: Frame, experimental: Frame, c: Row)
    requires IsControl(control) && IsExperimental(experimental)
    requires |c| == |ControlColumns|
    ensures CountWithPrefix(JoinedRows(control, experimental), c)
      == multiset(control.rows)[c] * FanOut(MatchCount(c[ControlColonyAt], experimental.rows, 2))
  {
    JoinRowsFanOut(control.rows, ControlColonyAt, experimental.rows, 2, 2, c);
  }

  /** Duplicate-free control and experimental rows give duplicate-free joined rows. */
  lemma {:induction false} JoinedNoDuplicates(control: Frame, experimental: Frame)
    requires IsControl(control) && IsExperimental(experimental)
    requires Distinct(control.rows) && Distinct(experimental.rows)
    ensures Distinct(JoinedRows(control, experimental))
  {
    JoinRowsDistinct(control.rows, |ControlColumns|, ControlColonyAt, experimental.rows, 2, 2);
  }

  // ---------------------------------------------------------------------
  // the whole script

  /** What the script leaves behind: the row count, the two tables, and the printed counts in order. */
  datatype Output = Output(totalRows: nat, unknown: Frame, joined: Frame, statistics: seq<Statistics>)

  /**
   * The script from `lazy_df` to the two tables. The count printed about
   * `joined_df` is discarded by the script; the joined table itself is
   * written without deduplication.
   */
  function Script(lazy: Frame): (r: Output)
    requires IsLazy(lazy)
    ensures WellFormed(r.unknown) && r.unknown.columns == UnknownColumns
    ensures WellFormed(r.joined) && r.joined.columns == JoinedColumns
    ensures Distinct(r.unknown.rows) && Distinct(r.joined.rows)
    ensures r.totalRows == |lazy.rows|
    ensures forall x :: x in r.unknown.rows <==> x in lazy.rows && x[ColonyAt] == Some(Unknown)
    ensures |r.statistics| == 4
    ensures r.statistics[3] == Statistics("in joined dataframe", |r.joined.rows|, |r.joined.rows|)
  {
    var unknown := UnknownStage(lazy);
    var filtered := FilteredDf(lazy);
    var control := ControlStage(filtered);
    var experimental := ExperimentalStage(filtered);
    var joined := JoinedDf(control.frame, experimental.frame);
    JoinedNoDuplicates(control.frame, experimental.frame);
    var last := GetUniqueAndStatistics(joined, "in joined dataframe");
    Output(|lazy.rows|, unknown.frame, joined, [unknown.stats, control.stats, experimental.stats, last.stats])
  }

  /**
   * The counts printed, in order: the "unknown" colony cells and the
   * distinct unknown rows, then the control-group and experimental-group
   * cells among the rows with another colony, each with its distinct rows.
   */
  lemma {:induction false} ScriptStatistics(lazy: Frame)
    requires IsLazy(lazy)
    ensures var r := Script(lazy);
      |r.statistics| == 4 &&
      r.statistics[0] == Statistics("with unknown colony_id",
        multiset(CellsAt(lazy.rows, ColonyAt))[Some(Unknown)], |r.unknown.rows|) &&
      r.statistics[1] == Statistics("in control group",
        multiset(CellsAt(FilteredDf(lazy).rows, GroupAt))[Some(Control)],
        |ControlStage(FilteredDf(lazy)).frame.rows|) &&
      r.statistics[2] == Statistics("in experimental group",
        multiset(CellsAt(FilteredDf(lazy).rows, GroupAt))[Some(Experimental)],
        |ExperimentalStage(FilteredDf(lazy)).frame.rows|)
  {
  }

  /** The whole script from the partitions; it fails where `lazy_df` does. */
  function Run(files: seq<Frame>): (r: Result<Output, Error>)
    requires forall j :: 0 <= j < |files| ==> WellFormed(files[j])
    ensures r.Success? <==> |files| > 0 && forall j :: 0 <= j < |files| ==> HasRequestedColumns(files[j])
    ensures r.Success? ==> r.value.totalRows == TotalRows(files)
    ensures r.Success? ==> r.value == Script(LazyDf(files).value)
  {
    var lazy :- LazyDf(files);
    Success(Script(lazy))
  }

  /** A row of `lazy_df` in the control group whose colony is neither null nor "unknown". */
  predicate IsControlSource(lazy: Frame, l: Row)
    requires IsLazy(lazy)
  {
    l in lazy.rows && |l| == |RequestedColumns| && l[GroupAt] == Some(Control) &&
    l[ColonyAt].Some? && l[ColonyAt].value != Unknown
  }

  /** A row of `lazy_df` in the experimental group of colony `colony`. */
  predicate IsExperimentalSource(lazy: Frame, l: Row, colony: Cell)
    requires IsLazy(lazy)
  {
    l in lazy.rows && |l| == |RequestedColumns| && l[GroupAt] == Some(Experimental) && l[ColonyAt] == colony
  }

  /** The distinct (allele, gene, colony) triples of the experimental rows of colony `colony`. */
  function ExperimentalAlleles(lazy: Frame, colony: Cell): set<Row>
    requires IsLazy(lazy)
  {
    set l | l in lazy.rows && IsExperimentalSource(lazy, l, colony) :: [l[0], l[1], l[ColonyAt]]
  }

  /**
   * `x` is control row `l` without allele and gene, followed by the allele
   * and gene of an experimental row of the same colony, or by two nulls when
   * that colony has no experimental row.
   */
  predicate JoinedFromSource(lazy: Frame, l: Row, x: Row)
    requires IsLazy(lazy) && |l| == |RequestedColumns|
  {
    if ExperimentalAlleles(lazy, l[ColonyAt]) == {} then x == l[2..] + [None, None]
    else exists l' :: l' in lazy.rows && IsExperimentalSource(lazy, l', l[ColonyAt]) && x == l[2..] + [l'[0], l'[1]]
  }

  /** The experimental rows of a colony that is neither null nor "unknown" are its triples. */
  lemma {:induction false} ExperimentalOfColony(lazy: Frame, colony: Cell)
    requires IsLazy(lazy) && colony.Some? && colony.value != Unknown
    ensures var experimental := ExperimentalStage(FilteredDf(lazy)).frame;
      (set e | e in experimental.rows && colony.Some? && e[2] == colony) == ExperimentalAlleles(lazy, colony)
  {
    var filtered := FilteredDf(lazy);
    var experimental := ExperimentalStage(filtered).frame;
    MembersWidth(lazy.rows, |RequestedColumns|);
    MembersWidth(filtered.rows, |RequestedColumns|);
    forall e | e in experimental.rows && e[2] == colony ensures e in ExperimentalAlleles(lazy, colony) {
      var l :| l in filtered.rows && l[GroupAt] == Some(Experimental) && e == [l[0], l[1], l[ColonyAt]];
      assert IsExperimentalSource(lazy, l, colony);
    }
    forall e | e in ExperimentalAlleles(lazy, colony) ensures e in experimental.rows && e[2] == colony {
      var l :| l in lazy.rows && IsExperimentalSource(lazy, l, colony) && e == [l[0], l[1], l[ColonyAt]];
      assert l in filtered.rows;
      assert IsExperimentalRow(filtered, e);
    }
  }

  /** Every control row of the output comes from a control row of `lazy_df`. */
  lemma {:induction false} ControlOfJoined(lazy: Frame, c: Row)
    requires IsLazy(lazy)
    requires c in ControlStage(FilteredDf(lazy)).frame.rows
    ensures exists l :: IsControlSource(lazy, l) && c == l[2..]
  {
    var filtered := FilteredDf(lazy);
    MembersWidth(filtered.rows, |RequestedColumns|);
    var l :| l in filtered.rows && l[GroupAt] == Some(Control) && c == l[2..];
    assert IsControlSource(lazy, l);
  }

  /**
   * Every output row is a control row of the input without allele and gene,
   * whose colony is neither null nor "unknown", followed by the allele and
   * gene of an experimental row of the same colony, or by two nulls when
   * that colony has no experimental row.
   */
  lemma {:induction false} JoinedRowsOf(lazy: Frame, x: Row)
    requires IsLazy(lazy) && x in Script(lazy).joined.rows
    ensures exists l :: IsControlSource(lazy, l) && JoinedFromSource(lazy, l, x)
  {
    var filtered := FilteredDf(lazy);
    var control := ControlStage(filtered).frame;
    var experimental := ExperimentalStage(filtered).frame;
    JoinedShape(control, experimental, x);
    var c :| c in control.rows && c <= x && JoinedFrom(experimental, c, x);
    ControlOfJoined(lazy, c);
    var l :| IsControlSource(lazy, l) && c == l[2..];
    assert c[ControlColonyAt] == l[ColonyAt];
    ExperimentalOfColony(lazy, l[ColonyAt]);
    if HasPartner(experimental, c[ControlColonyAt]) {
      var e :| e in experimental.rows && e[2] == c[ControlColonyAt] && x == c + [e[0], e[1]];
      assert e in ExperimentalAlleles(lazy, l[ColonyAt]);
      var l' :| l' in lazy.rows && IsExperimentalSource(lazy, l', l[ColonyAt]) && e == [l'[0], l'[1], l'[ColonyAt]];
      assert x == l[2..] + [l'[0], l'[1]];
    } else {
      assert ExperimentalAlleles(lazy, l[ColonyAt]) == {};
    }
    assert JoinedFromSource(lazy, l, x);
  }

  /** The output rows are the join of the control table with the experimental table. */
  lemma {:induction false} ScriptJoined(lazy: Frame)
    requires IsLazy(lazy)
    ensures var filtered := FilteredDf(lazy);
      Script(lazy).joined.rows == JoinedRows(ControlStage(filtered).frame, ExperimentalStage(filtered).frame)
  {
  }

  /** Where a control row's colony and group sit once it is part of an output row. */
  lemma {:induction false} CellsOfJoined(l: Row, tail: Row)
    requires |l| == |RequestedColumns| && |tail| == 2
    ensures |l[2..] + tail| == |JoinedColumns|
    ensures (l[2..] + tail)[ControlColonyAt] == l[ColonyAt] && (l[2..] + tail)[1] == l[GroupAt]
  {
  }

  /** Every control row of `lazy_df` with a known colony reaches the control table. */
  lemma {:induction false} ControlOfSource(lazy: Frame, l: Row)
    requires IsLazy(lazy) && IsControlSource(lazy, l)
    ensures l[2..] in ControlStage(FilteredDf(lazy)).frame.rows
    ensures l[2..][ControlColonyAt] == l[ColonyAt]
  {
    var filtered := FilteredDf(lazy);
    assert l in filtered.rows;
    ControlOfFiltered(filtered, l);
  }

  lemma {:induction false} ControlOfFiltered(filtered: Frame, l: Row)
    requires IsLazy(filtered) && l in filtered.rows && |l| == |RequestedColumns| && l[GroupAt] == Some(Control)
    ensures l[2..] in ControlStage(filtered).frame.rows
  {
    assert IsControlRow(filtered, l[2..]);
  }

  /** No output row has a null or "unknown" colony, and every one is of the control group. */
  lemma {:induction false} JoinedKnownColonies(lazy: Frame, x: Row)
    requires IsLazy(lazy) && x in Script(lazy).joined.rows
    ensures |x| == |JoinedColumns|
    ensures x[ControlColonyAt].Some? && x[ControlColonyAt].value != Unknown
    ensures x[1] == Some(Control)
  {
    JoinedRowsOf(lazy, x);
    var l :| IsControlSource(lazy, l) && JoinedFromSource(lazy, l, x);
    if ExperimentalAlleles(lazy, l[ColonyAt]) != {} {
      var l' :| l' in lazy.rows && IsExperimentalSource(lazy, l', l[ColonyAt]) && x == l[2..] + [l'[0], l'[1]];
      CellsOfJoined(l, [l'[0], l'[1]]);
    } else {
      CellsOfJoined(l, [None, None]);
    }
  }

  /**
   * The left join keeps every control row: next to the allele and gene of
   * each experimental row of its colony, or next to two nulls when there is
   * none.
   */
  lemma {:induction false} JoinedPairsOf(lazy: Frame, l: Row)
    requires IsLazy(lazy) && IsControlSource(lazy, l)
    ensures ExperimentalAlleles(lazy, l[ColonyAt]) == {} ==> l[2..] + [None, None] in Script(lazy).joined.rows
    ensures forall l' :: IsExperimentalSource(lazy, l', l[ColonyAt]) ==>
      l[2..] + [l'[0], l'[1]] in Script(lazy).joined.rows
  {
    var filtered := FilteredDf(lazy);
    var control := ControlStage(filtered).frame;
    var experimental := ExperimentalStage(filtered).frame;
    ScriptJoined(lazy);
    ControlOfSource(lazy, l);
    ExperimentalOfColony(lazy, l[ColonyAt]);
    JoinedKeeps(control, experimental, l[2..]);
    if HasPartner(experimental, l[ColonyAt]) {
      var e :| e in experimental.rows && e[2] == l[ColonyAt];
      assert e in ExperimentalAlleles(lazy, l[ColonyAt]);
    }
    forall l' | IsExperimentalSource(lazy, l', l[ColonyAt])
      ensures l[2..] + [l'[0], l'[1]] in Script(lazy).joined.rows
    {
      var e := [l'[0], l'[1], l'[ColonyAt]];
      assert e in ExperimentalAlleles(lazy, l[ColonyAt]);
      assert e in experimental.rows && e[2] == l[2..][ControlColonyAt];
    }
  }

  /**
   * Fan-out: every control row of `lazy_df` with a known colony starts
   * exactly max(m, 1) output rows, where `m` is the number of distinct
   * (allele, gene) pairs of the experimental rows of its colony.
   */
  lemma {:induction false} JoinedFanOutOf(lazy: Frame, l: Row)
    requires IsLazy(lazy) && IsControlSource(lazy, l)
    ensures CountWithPrefix(Script(lazy).joined.rows, l[2..]) == FanOut(|ExperimentalAlleles(lazy, l[ColonyAt])|)
  {
    var filtered := FilteredDf(lazy);
    var control := ControlStage(filtered).frame;
    var experimental := ExperimentalStage(filtered).frame;
    var c := l[2..];
    ControlOfSource(lazy, l);
    JoinedFanOut(control, experimental, c);
    DistinctCount(control.rows, c);
    MatchCountMeaning(c[ControlColonyAt], experimental.rows, 2);
    ExperimentalOfColony(lazy, l[ColonyAt]);
  }
}
