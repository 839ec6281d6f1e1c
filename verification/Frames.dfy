/**
  Turning a datasource's data frame into expression values: a wide time series into one series
  per value column, and a table with one numeric column into labelled numbers.
*/
module Frames {
  import opened Wrappers
  import opened MathValues

  datatype Column =
    | TimeColumn(nullable: bool, times: seq<Option<int>>)
    | FloatColumn(nullable: bool, floats: seq<Option<Float>>)
    | OtherNumericColumn(numbers: seq<Option<Float>>)      // integers and the like, converted to floats
    | StringColumn(nullable: bool, texts: seq<Option<string>>)
    | OtherColumn(size: nat)
  {
    function Len(): nat
    {
      match this
      case TimeColumn(_, cells) => |cells|
      case FloatColumn(_, cells) => |cells|
      case OtherNumericColumn(cells) => |cells|
      case StringColumn(_, cells) => |cells|
      case OtherColumn(n) => n
    }

    predicate Numeric()
    {
      FloatColumn? || OtherNumericColumn?
    }

    function Floats(): seq<Option<Float>>
      requires Numeric()
    {
      if FloatColumn? then floats else numbers
    }
  }

  datatype Field = Field(name: string, labels: Labels, column: Column)

  datatype Frame = Frame(name: string, fields: seq<Field>)

  /** What the SDK says about a frame: whether it is a wide series, and which columns are which. */
  datatype Schema = Schema(wide: bool, timeIndex: nat, valueIndices: seq<nat>)

  ghost predicate SchemaOk(frame: Frame, schema: Schema)
  {
    schema.wide ==>
      && schema.timeIndex < |frame.fields| && frame.fields[schema.timeIndex].column.TimeColumn?
      && forall k | 0 <= k < |schema.valueIndices| ::
           schema.valueIndices[k] < |frame.fields| && frame.fields[schema.valueIndices[k]].column.Numeric()
  }

  function Rows(frame: Frame): nat
  {
    if frame.fields == [] then 0 else frame.fields[0].column.Len()
  }

  ghost predicate Rectangular(frame: Frame)
  {
    forall i | 0 <= i < |frame.fields| :: frame.fields[i].column.Len() == Rows(frame)
  }

  // ----------------------------------------------------------- series from frame

  datatype SeriesData = SeriesData(name: string, labels: Labels, times: seq<int>, values: seq<Option<Float>>)

  predicate NoNulls<T>(cells: seq<Option<T>>)
  {
    forall i | 0 <= i < |cells| :: cells[i].Some?
  }

  function Known<T>(cells: seq<Option<T>>): (r: seq<T>)
    requires NoNulls(cells)
    ensures |r| == |cells| && forall i | 0 <= i < |r| :: cells[i] == Some(r[i])
  {
    seq(|cells|, i requires 0 <= i < |cells| => cells[i].value)
  }

  /** A time column and a numeric column as a series. An integer column without rows is not recognised. */
  function SeriesFromFields(frameName: string, time: Field, value: Field): Result<SeriesData>
    requires time.column.TimeColumn? && value.column.Numeric()
  {
    if value.column.OtherNumericColumn? && value.column.Len() == 0 then Err("no float64 value column found")
    else if !NoNulls(time.column.times) then Err("time series with null time stamps are not supported")
    else Ok(SeriesData(if frameName != "" then frameName else value.name, value.labels,
                       Known(time.column.times), value.column.Floats()))
  }

  /** SeriesFromFrame: exactly two fields, a time column and a value column in either order. */
  function SeriesFromFrame(frame: Frame): Result<SeriesData>
  {
    if |frame.fields| != 2 then Err("frame must have exactly two fields")
    else
      var a, b := frame.fields[0], frame.fields[1];
      if a.column.TimeColumn? && b.column.Numeric() then SeriesFromFields(frame.name, a, b)
      else if b.column.TimeColumn? && a.column.Numeric() then SeriesFromFields(frame.name, b, a)
      else Err("no time or value column found")
  }

  // ---------------------------------------------------------------- WideToMany

  /** The series the k-th value column stands for. */
  function SeriesOf(frame: Frame, schema: Schema, k: nat): Result<SeriesData>
    requires schema.wide && k < |schema.valueIndices|
    requires schema.timeIndex < |frame.fields| && frame.fields[schema.timeIndex].column.TimeColumn?
    requires schema.valueIndices[k] < |frame.fields| && frame.fields[schema.valueIndices[k]].column.Numeric()
  {
    SeriesFromFields(frame.name, frame.fields[schema.timeIndex], frame.fields[schema.valueIndices[k]])
  }

  /** The one-column shortcut gives what the general loop would, except that it insists on two fields. */
  lemma ShortcutAgreesWithLoop(frame: Frame, schema: Schema)
    requires SchemaOk(frame, schema) && schema.wide && |schema.valueIndices| == 1
    ensures SeriesFromFrame(frame).Ok? <==> |frame.fields| == 2 && SeriesOf(frame, schema, 0).Ok?
    ensures |frame.fields| == 2 ==> SeriesFromFrame(frame) == SeriesOf(frame, schema, 0)
  {
    assert schema.valueIndices[0] < |frame.fields| && frame.fields[schema.valueIndices[0]].column.Numeric();
  }

  /** No time is null, and the value column is not a column of integers without rows. */
  ghost predicate Readable(time: Field, value: Field)
    requires time.column.TimeColumn?
  {
    && (forall i | 0 <= i < |time.column.times| :: time.column.times[i].Some?)
    && (value.column.OtherNumericColumn? ==> value.column.numbers != [])
  }

  /**
    The series carries the frame's name, or the value column's where the frame has none; the value
    column's labels and cells; and the time column's times.
  */
  ghost predicate StandsFor(s: SeriesData, frameName: string, time: Field, value: Field)
    requires time.column.TimeColumn? && value.column.Numeric()
  {
    && s.name == (if frameName == "" then value.name else frameName)
    && s.labels == value.labels
    && s.values == (if value.column.FloatColumn? then value.column.floats else value.column.numbers)
    && |s.times| == |time.column.times| && forall i | 0 <= i < |s.times| :: Some(s.times[i]) == time.column.times[i]
  }

  lemma SeriesAre(frame: Frame, schema: Schema)
    requires SchemaOk(frame, schema) && schema.wide
    ensures forall k | 0 <= k < |schema.valueIndices| ::
      var time, value := frame.fields[schema.timeIndex], frame.fields[schema.valueIndices[k]];
      && (SeriesOf(frame, schema, k).Ok? <==> Readable(time, value))
      && (SeriesOf(frame, schema, k).Ok? ==> StandsFor(SeriesOf(frame, schema, k).value, frame.name, time, value))
  {
  }

  /** The inner loop: the time and value columns copied row by row into a new two-column frame. */
  method CopyColumns(frame: Frame, timeIndex: nat, valueIndex: nat) returns (f: Frame)
    requires Rectangular(frame) && timeIndex < |frame.fields| && valueIndex < |frame.fields|
    requires frame.fields[timeIndex].column.TimeColumn? && frame.fields[valueIndex].column.Numeric()
    ensures f == Frame(frame.name, [Field(frame.fields[timeIndex].name, map[], frame.fields[timeIndex].column),
                                    frame.fields[valueIndex]])
  {
    var time, value := frame.fields[timeIndex], frame.fields[valueIndex];
    var times: seq<Option<int>> := [];
    var values: seq<Option<Float>> := [];
    for i := 0 to Rows(frame)
      invariant times == time.column.times[..i] && values == value.column.Floats()[..i]
    {
      times := times + [time.column.times[i]];
      values := values + [value.column.Floats()[i]];
    }
    assert times == time.column.times && values == value.column.Floats();
    f := Frame(frame.name, [
      Field(time.name, map[], TimeColumn(time.column.nullable, times)),
      Field(value.name, value.labels,
            if value.column.FloatColumn? then FloatColumn(value.column.nullable, values) else OtherNumericColumn(values))]);
  }

  /** One series per value column, all over the one time column. */
  method WideToMany(frame: Frame, schema: Schema) returns (r: Result<seq<SeriesData>>)
    requires SchemaOk(frame, schema) && Rectangular(frame)
    ensures r.Ok? <==>
      && schema.wide
      && (|schema.valueIndices| == 1 ==> |frame.fields| == 2)
      && forall k | 0 <= k < |schema.valueIndices| :: SeriesOf(frame, schema, k).Ok?
    ensures r.Ok? <==>
      && schema.wide
      && (|schema.valueIndices| == 1 ==> |frame.fields| == 2)
      && forall k | 0 <= k < |schema.valueIndices| ::
           Readable(frame.fields[schema.timeIndex], frame.fields[schema.valueIndices[k]])
    ensures r.Ok? ==> |r.value| == |schema.valueIndices|
    ensures r.Ok? ==> forall k | 0 <= k < |r.value| ::
      StandsFor(r.value[k], frame.name, frame.fields[schema.timeIndex], frame.fields[schema.valueIndices[k]])
    ensures r.Ok? ==> forall k | 0 <= k < |r.value| :: Ok(r.value[k]) == SeriesOf(frame, schema, k)
  {
    if schema.wide {
      SeriesAre(frame, schema);
    }
    if !schema.wide {
      return Err("input data must be a wide series");
    }
    if |schema.valueIndices| == 1 {
      ShortcutAgreesWithLoop(frame, schema);
      var s := SeriesFromFrame(frame);
      if s.Err? {
        return Err(s.message);
      }
      return Ok([s.value]);
    }
    var series: seq<SeriesData> := [];
    for k := 0 to |schema.valueIndices|
      invariant |series| == k && forall j | 0 <= j < k :: Ok(series[j]) == SeriesOf(frame, schema, j)
    {
      var f := CopyColumns(frame, schema.timeIndex, schema.valueIndices[k]);
      var s := SeriesFromFrame(f);
      assert s == SeriesOf(frame, schema, k);
      if s.Err? {
        return Err(s.message);
      }
      series := series + [s.value];
    }
    return Ok(series);
  }

  /** The series back as columns: the shared times, and each series' values. */
  datatype Wide = Wide(times: seq<Option<int>>, columns: seq<seq<Option<Float>>>)

  function Rejoin(series: seq<SeriesData>): Wide
    requires series != []
  {
    Wide(seq(|series[0].times|, i requires 0 <= i < |series[0].times| => Some(series[0].times[i])),
         seq(|series|, k requires 0 <= k < |series| => series[k].values))
  }

  function Original(frame: Frame, schema: Schema): Wide
    requires schema.timeIndex < |frame.fields| && frame.fields[schema.timeIndex].column.TimeColumn?
    requires forall k | 0 <= k < |schema.valueIndices| ::
      schema.valueIndices[k] < |frame.fields| && frame.fields[schema.valueIndices[k]].column.Numeric()
  {
    Wide(frame.fields[schema.timeIndex].column.times,
         seq(|schema.valueIndices|, k requires 0 <= k < |schema.valueIndices| =>
           frame.fields[schema.valueIndices[k]].column.Floats()))
  }

  /** Nothing is lost: from the series all time stamps and all values of the frame come back. */
  lemma WideRoundTrip(frame: Frame, schema: Schema, series: seq<SeriesData>)
    requires SchemaOk(frame, schema) && schema.wide && |series| == |schema.valueIndices| && series != []
    requires forall k | 0 <= k < |series| :: Ok(series[k]) == SeriesOf(frame, schema, k)
    ensures Rejoin(series) == Original(frame, schema)
    ensures forall k | 0 <= k < |series| :: series[k].times == series[0].times
  {
    var a, b := Rejoin(series), Original(frame, schema);
    assert Ok(series[0]) == SeriesOf(frame, schema, 0);
    assert a.times == b.times;
    forall k | 0 <= k < |series| ensures a.columns[k] == b.columns[k] {
      assert Ok(series[k]) == SeriesOf(frame, schema, k);
    }
    assert a.columns == b.columns;
  }

  // -------------------------------------------------------------- number tables

  predicate IsText(f: Field)
  {
    f.column.StringColumn?
  }

  ghost predicate OneNumericRestText(fields: seq<Field>, n: nat)
  {
    && n < |fields| && fields[n].column.Numeric()
    && forall i | 0 <= i < |fields| && i != n :: IsText(fields[i])
  }

  /** True exactly when one column is numeric and all others are text. */
  method IsNumberTable(frame: Frame) returns (r: bool)
    ensures r <==> exists n :: OneNumericRestText(frame.fields, n)
  {
    var numericCount, stringCount, otherCount := 0, 0, 0;
    ghost var at := 0;
    for i := 0 to |frame.fields|
      invariant numericCount >= 0 && otherCount >= 0
      invariant numericCount == 0 <==> forall j | 0 <= j < i :: !frame.fields[j].column.Numeric()
      invariant numericCount > 0 ==> at < i && frame.fields[at].column.Numeric()
      invariant numericCount == 1 ==> forall j | 0 <= j < i && j != at :: !frame.fields[j].column.Numeric()
      invariant numericCount > 1 ==> exists j, k :: 0 <= j < k < i && frame.fields[j].column.Numeric() && frame.fields[k].column.Numeric()
      invariant otherCount == 0 <==> forall j | 0 <= j < i :: frame.fields[j].column.Numeric() || IsText(frame.fields[j])
    {
      if frame.fields[i].column.Numeric() {
        numericCount := numericCount + 1;
        at := i;
      } else if frame.fields[i].column.StringColumn? {
        stringCount := stringCount + 1;
      } else {
        otherCount := otherCount + 1;
      }
    }
    r := numericCount == 1 && otherCount == 0;
    if r {
      assert OneNumericRestText(frame.fields, at);
    }
  }

  /** A null text reads as the empty string. */
  function Concrete(cell: Option<string>): string
  {
    if cell.None? then "" else cell.value
  }

  /** A null number reads as NaN. */
  function FloatAt(cell: Option<Float>): Float
  {
    if cell.None? then NaN else cell.value
  }

  /** The labels a row gets from its text columns; a later column with the same name wins. */
  function LabelsAt(fields: seq<Field>, row: nat): Labels
  {
    if fields == [] then map[]
    else
      var rest, f := LabelsAt(fields[..|fields| - 1], row), fields[|fields| - 1];
      if f.column.StringColumn? && row < |f.column.texts| then rest[f.name := Concrete(f.column.texts[row])] else rest
  }

  datatype LabelledNumber = LabelledNumber(labels: Labels, value: Float)

  /** One labelled number per row. */
  method ExtractNumberSet(frame: Frame, ghost n: nat) returns (numbers: seq<LabelledNumber>)
    requires Rectangular(frame) && OneNumericRestText(frame.fields, n)
    ensures |numbers| == Rows(frame)
    ensures forall row | 0 <= row < |numbers| ::
      numbers[row] == LabelledNumber(LabelsAt(frame.fields, row), FloatAt(frame.fields[n].column.Floats()[row]))
  {
    var numericField := 0;
    for i := 0 to |frame.fields|
      invariant numericField < |frame.fields|
      invariant n < i ==> numericField == n
    {
      if frame.fields[i].column.Numeric() {
        numericField := i;
      }
    }
    numbers := [];
    for row := 0 to Rows(frame)
      invariant |numbers| == row
      invariant forall k | 0 <= k < row ::
        numbers[k] == LabelledNumber(LabelsAt(frame.fields, k), FloatAt(frame.fields[n].column.Floats()[k]))
    {
      var labels: Labels := map[];
      for i := 0 to |frame.fields|
        invariant labels == LabelsAt(frame.fields[..i], row)
      {
        assert frame.fields[..i + 1][..i] == frame.fields[..i];
        if frame.fields[i].column.StringColumn? {
          labels := labels[frame.fields[i].name := Concrete(frame.fields[i].column.texts[row])];
        }
      }
      assert frame.fields[..|frame.fields|] == frame.fields;
      numbers := numbers + [LabelledNumber(labels, FloatAt(frame.fields[numericField].column.Floats()[row]))];
    }
  }

  ghost predicate DistinctTextNames(fields: seq<Field>)
  {
    forall i, j | 0 <= i < j < |fields| && IsText(fields[i]) && IsText(fields[j]) :: fields[i].name != fields[j].name
  }

  /** With distinct column names every text cell of the row can be read back from its label. */
  lemma {:induction false} RowRoundTrip(fields: seq<Field>, row: nat, i: nat)
    requires DistinctTextNames(fields) && i < |fields| && IsText(fields[i]) && row < fields[i].column.Len()
    ensures fields[i].name in LabelsAt(fields, row) && LabelsAt(fields, row)[fields[i].name] == Concrete(fields[i].column.texts[row])
  {
    var last := |fields| - 1;
    if i < last {
      RowRoundTrip(fields[..last], row, i);
    }
  }

  /** And no label appears that is not a text column's name. */
  lemma {:induction false} LabelsComeFromColumns(fields: seq<Field>, row: nat, name: string)
    requires name in LabelsAt(fields, row)
    ensures exists i :: 0 <= i < |fields| && IsText(fields[i]) && fields[i].name == name
  {
    var last := |fields| - 1;
    if !(IsText(fields[last]) && fields[last].name == name) {
      LabelsComeFromColumns(fields[..last], row, name);
      var i :| 0 <= i < last && IsText(fields[..last][i]) && fields[..last][i].name == name;
      assert fields[i].name == name;
    }
  }

  /** Two text columns with one name lose the first one's cell. */
  lemma DuplicateColumnLosesFirst(name: string, a: string, b: string)
    ensures
      var fields := [Field(name, map[], StringColumn(false, [Some(a)])), Field(name, map[], StringColumn(false, [Some(b)]))];
      LabelsAt(fields, 0) == map[name := b]
  {
    var fields := [Field(name, map[], StringColumn(false, [Some(a)])), Field(name, map[], StringColumn(false, [Some(b)]))];
    assert fields[..1] == [fields[0]] && fields[..1][..0] == [];
    assert LabelsAt(fields[..1], 0) == map[name := a];
  }
}
