/** The records the aggregator reads and writes, and the schema check that runs
    before anything is computed (`validar_csv`). Dates are day numbers: parsing
    the `data` column is not part of this model. */
module Polls {
  import opened Strings

  /** One input row: candidate, reported voting intention (%), reported standard
      deviation (%), institute, poll date (day number) and sample size. */
  datatype Poll = Poll(
    candidate: string,
    pct: real,
    sigma: real,
    institute: string,
    date: int,
    sample: int)

  /** The input table: the column names it carries and its rows. */
  datatype Table = Table(columns: seq<string>, rows: seq<Poll>)

  /** A flagged row as the outlier report carries it: the row, its z-score, and the
      weighted mean and between-institute sigma of the pass that flagged it. */
  datatype Outlier = Outlier(poll: Poll, z: real, mean: real, sigmaBetween: real)

  /** One output row per candidate. */
  datatype Aggregate = Aggregate(
    candidate: string,
    pct: real,
    sigma: real,
    count: nat,
    sampleTotal: int,
    referenceDate: int)

  datatype Error =
    | SchemaError(missing: seq<string>)  // the `ValueError` of `validar_csv`
    | NoRows                             // an empty table: the final `sort_values("candidato")` finds no such column

  datatype Result<T> = Ok(value: T) | Err(error: Error)

  /** The six columns every input must carry. */
  const RequiredColumns: set<string> :=
    {"candidato", "intencao_voto_pct", "desvio_padrao_pct", "instituto", "data", "amostra"}

  /** The same six names in ascending order, so that filtering this list yields
      `sorted(...)` of any subset of them. */
  const RequiredSorted: seq<string> :=
    ["amostra", "candidato", "data", "desvio_padrao_pct", "instituto", "intencao_voto_pct"]

  lemma RequiredSortedIsSorted()
    ensures StrictlySorted(RequiredSorted)
    ensures forall c :: c in RequiredSorted <==> c in RequiredColumns
  {
    assert Less("data", "desvio_padrao_pct") by {
      assert Less("ata", "esvio_padrao_pct");
    }
    assert Less("instituto", "intencao_voto_pct") by {
      assert Less("stituto", "tencao_voto_pct");
    }
    SortedFromNeighbours(RequiredSorted);
  }

  /** The required column names absent from `columns`, in ascending order. */
  function MissingColumns(columns: seq<string>): (r: seq<string>)
    ensures StrictlySorted(r)
    ensures forall c :: c in r <==> c in RequiredColumns && c !in columns
  {
    RequiredSortedIsSorted();
    Without(RequiredSorted, columns)
  }

  /** Any strictly sorted listing of the missing required columns is `MissingColumns`. */
  lemma MissingColumnsIsSortedSet(columns: seq<string>, s: seq<string>)
    requires StrictlySorted(s)
    requires forall c :: c in s <==> c in RequiredColumns && c !in columns
    ensures s == MissingColumns(columns)
  {
    SortedUnique(s, MissingColumns(columns));
  }

  /** `validar_csv`: `None` when every required column is present, otherwise the
      schema error naming the missing ones. */
  function ValidateColumns(columns: seq<string>): (r: Option<Error>)
    ensures r.None? <==> RequiredColumns <= set c | c in columns
    ensures r.Some? ==> r.value.SchemaError? && r.value.missing != []
    ensures r.Some? ==> forall c :: c in r.value.missing <==> c in RequiredColumns && c !in columns
    ensures r.Some? ==> StrictlySorted(r.value.missing)
  {
    var missing := MissingColumns(columns);
    if missing == [] then None
    else
      assert missing[0] in RequiredColumns && missing[0] !in set c | c in columns;
      Some(SchemaError(missing))
  }

  datatype Option<T> = None | Some(value: T)

  /** Column projections of a group of rows. */
  function Pcts(rows: seq<Poll>): (r: seq<real>)
    ensures |r| == |rows| && forall i :: 0 <= i < |rows| ==> r[i] == rows[i].pct
  {
    seq(|rows|, i requires 0 <= i < |rows| => rows[i].pct)
  }

  function Sigmas(rows: seq<Poll>): (r: seq<real>)
    ensures |r| == |rows| && forall i :: 0 <= i < |rows| ==> r[i] == rows[i].sigma
  {
    seq(|rows|, i requires 0 <= i < |rows| => rows[i].sigma)
  }

  function Dates(rows: seq<Poll>): (r: seq<int>)
    ensures |r| == |rows| && forall i :: 0 <= i < |rows| ==> r[i] == rows[i].date
  {
    seq(|rows|, i requires 0 <= i < |rows| => rows[i].date)
  }

  function CandidateNames(rows: seq<Poll>): (r: seq<string>)
    ensures |r| == |rows| && forall i :: 0 <= i < |rows| ==> r[i] == rows[i].candidate
  {
    seq(|rows|, i requires 0 <= i < |rows| => rows[i].candidate)
  }

  /** `grupo["amostra"].sum()`. */
  function SampleSum(rows: seq<Poll>): int
  {
    if rows == [] then 0 else rows[0].sample + SampleSum(rows[1..])
  }
}
