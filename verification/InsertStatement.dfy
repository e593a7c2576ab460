/** Storing a batch: one INSERT with six numbered placeholders for every metric. */
module InsertStatement {
  import opened Wrappers
  import opened Ingestion
  import opened Placeholders

  /** An argument, by the type of its column. */
  datatype Cell = Time(at: Option<int>) | Text(text: string) | Number(x: Value)

  /** A row of the metrics table. */
  datatype Row = Row(time: Option<int>, agentID: string, name: string, value: Value, labels: string, metricType: string)

  const COLUMNS := 6

  /** Metrics whose labels cannot be encoded are skipped. */
  function RowsOf(agentID: string, ms: seq<Metric>, encode: map<string, string> -> Option<string>): seq<Row> {
    if ms == [] then []
    else
      var before, m := RowsOf(agentID, ms[..|ms|-1], encode), ms[|ms|-1];
      match encode(m.labels)
      case None => before
      case Some(labels) => before + [Row(m.timestamp, agentID, m.name, m.value, labels, m.metricType)]
  }

  // ----- what the database makes of the statement -----

  /** One parenthesised group of placeholders, if its arguments have the types of the columns. */
  function Decode(group: seq<nat>, args: seq<Cell>): Option<Row> {
    if |group| != COLUMNS then None
    else
      match (Resolve<Cell>(args, group[0]), Resolve<Cell>(args, group[1]), Resolve<Cell>(args, group[2]), Resolve<Cell>(args, group[3]),
             Resolve<Cell>(args, group[4]), Resolve<Cell>(args, group[5]))
      case (Some(Time(time)), Some(Text(agentID)), Some(Text(name)), Some(Number(value)), Some(Text(labels)), Some(Text(metricType))) =>
        Some(Row(time, agentID, name, value, labels, metricType))
      case _ => None
  }

  /** Placeholder c of group r is the number of argument 6r + c. */
  predicate Numbered(vals: seq<seq<nat>>) {
    forall r :: 0 <= r < |vals| ==> vals[r] == Group(6 * r + 1)
  }

  function Group(offset: nat): seq<nat> {
    [offset, offset + 1, offset + 2, offset + 3, offset + 4, offset + 5]
  }

  function ArgsOf(row: Row): seq<Cell> {
    [Time(row.time), Text(row.agentID), Text(row.name), Number(row.value), Text(row.labels), Text(row.metricType)]
  }

  lemma DecodeAppended(args: seq<Cell>, row: Row, group: seq<nat>)
    ensures Decode(Group(|args| + 1), args + ArgsOf(row)) == Some(row)
    ensures (forall i :: 0 <= i < |group| ==> group[i] <= |args|) ==> Decode(group, args + ArgsOf(row)) == Decode(group, args)
  {
    var all := args + ArgsOf(row);
    assert forall c :: 0 <= c < 6 ==> all[|args| + c] == ArgsOf(row)[c];
  }

  /** Group r of the placeholders, read with the arguments, is row r, and every argument is named once. */
  ghost predicate Encodes(vals: seq<seq<nat>>, args: seq<Cell>, rows: seq<Row>) {
    && Numbered(vals) && |args| == 6 * |vals| && |vals| == |rows|
    && forall r :: 0 <= r < |vals| ==> Decode(vals[r], args) == Some(rows[r])
  }

  lemma EncodesNext(vals: seq<seq<nat>>, args: seq<Cell>, rows: seq<Row>, row: Row)
    requires Encodes(vals, args, rows)
    ensures Encodes(vals + [Group(|args| + 1)], args + ArgsOf(row), rows + [row])
  {
    hide Decode;
    forall r | 0 <= r < |vals| ensures Decode(vals[r], args + ArgsOf(row)) == Decode(vals[r], args) {
      DecodeAppended(args, row, vals[r]);
    }
    DecodeAppended(args, row, []);
  }

  /** Spelled out: group r numbers six arguments in a row, and these are the columns of row r in the order of
      the statement: time, agent, name, value, labels, type. */
  ghost predicate Laid(vals: seq<seq<nat>>, args: seq<Cell>, rows: seq<Row>) {
    && |vals| == |rows| && |args| == 6 * |rows|
    && forall r :: 0 <= r < |rows| ==>
         && vals[r] == [6 * r + 1, 6 * r + 2, 6 * r + 3, 6 * r + 4, 6 * r + 5, 6 * r + 6]
         && args[6 * r] == Time(rows[r].time) && args[6 * r + 1] == Text(rows[r].agentID)
         && args[6 * r + 2] == Text(rows[r].name) && args[6 * r + 3] == Number(rows[r].value)
         && args[6 * r + 4] == Text(rows[r].labels) && args[6 * r + 5] == Text(rows[r].metricType)
  }

  lemma EncodesLaid(vals: seq<seq<nat>>, args: seq<Cell>, rows: seq<Row>)
    requires Encodes(vals, args, rows)
    ensures Laid(vals, args, rows)
  {
    forall r | 0 <= r < |rows| ensures Decode(vals[r], args) == Some(rows[r]) && vals[r] == Group(6 * r + 1) {}
  }

  /** The statement built for a batch says exactly the rows of its metrics. */
  method BuildInsert(agentID: string, ms: seq<Metric>, encode: map<string, string> -> Option<string>)
    returns (vals: seq<seq<nat>>, args: seq<Cell>)
    ensures Encodes(vals, args, RowsOf(agentID, ms, encode))
    ensures Laid(vals, args, RowsOf(agentID, ms, encode))
  {
    vals, args := [], [];
    for i := 0 to |ms|
      invariant Encodes(vals, args, RowsOf(agentID, ms[..i], encode))
    {
      hide Encodes;
      assert ms[..i + 1][..|ms[..i + 1]| - 1] == ms[..i];
      var m := ms[i];
      var labels := encode(m.labels);
      if labels.Some? {
        EncodesNext(vals, args, RowsOf(agentID, ms[..i], encode),
                    Row(m.timestamp, agentID, m.name, m.value, labels.value, m.metricType));
        var offset := |args| + 1;
        vals := vals + [[offset, offset + 1, offset + 2, offset + 3, offset + 4, offset + 5]];
        args := args + [Time(m.timestamp), Text(agentID), Text(m.name), Number(m.value), Text(labels.value), Text(m.metricType)];
      }
    }
    assert ms[..|ms|] == ms;
    EncodesLaid(vals, args, RowsOf(agentID, ms, encode));
  }

  /** A batch has the rows of its metrics one by one, and only a metric whose labels cannot be encoded has none. */
  lemma {:induction false} RowsOfParts(agentID: string, before: seq<Metric>, m: Metric, after: seq<Metric>,
                                       encode: map<string, string> -> Option<string>)
    ensures RowsOf(agentID, before + [m] + after, encode)
            == RowsOf(agentID, before, encode)
               + (if encode(m.labels).None? then []
                  else [Row(m.timestamp, agentID, m.name, m.value, encode(m.labels).value, m.metricType)])
               + RowsOf(agentID, after, encode)
  {
    var ms := before + [m] + after;
    if after == [] {
      assert ms == before + [m] && ms[..|ms|-1] == before;
    } else {
      RowsOfParts(agentID, before, m, after[..|after|-1], encode);
      assert ms[..|ms|-1] == before + [m] + after[..|after|-1];
    }
  }

  /** If all labels can be encoded, no metric of the batch is left out and their order is kept. */
  lemma {:induction false} NothingSkipped(agentID: string, ms: seq<Metric>, encode: map<string, string> -> Option<string>)
    requires forall m :: m in ms ==> encode(m.labels).Some?
    ensures |RowsOf(agentID, ms, encode)| == |ms|
    ensures forall i :: 0 <= i < |ms| ==>
              RowsOf(agentID, ms, encode)[i]
              == Row(ms[i].timestamp, agentID, ms[i].name, ms[i].value, encode(ms[i].labels).value, ms[i].metricType)
  {
    if ms != [] {
      NothingSkipped(agentID, ms[..|ms|-1], encode);
    }
  }
}
