/** The guard of anomaly.py around an outlier predictor. The predictor itself (an isolation
    forest with a fixed contamination and seed) is a parameter: a deterministic function from
    the coerced (bytes_sent, bytes_recv) points to one label per point, or None when fitting fails. */
module Anomaly {
  import opened Wrappers
  import opened Text

  /** A cell of a bytes column as the frame may hold it: a number, text, or a missing value. */
  datatype Cell = Num(n: int) | Str(s: string) | Null

  /** The predictor's verdicts: 1 for an inlier, -1 for an outlier. */
  type Label = x: int | x == 1 || x == -1 witness 1

  const Normal: Label := 1
  const Anomalous: Label := -1

  datatype DetectorRow = DetectorRow(bytesSent: Cell, bytesRecv: Cell)

  /** An output row: the coerced byte counts and the row's verdict. */
  datatype Scored = Scored(bytesSent: int, bytesRecv: int, anomaly: Label)

  type Point = (int, int)

  type Predictor = seq<Point> -> Option<seq<Label>>

  /** Below this many rows no model is fitted. */
  const MinRows: nat := 10

  /** The predictor returns one verdict per point whenever it returns at all. */
  ghost predicate OneLabelPerPoint(predict: Predictor)
  {
    forall pts :: predict(pts).Some? ==> |predict(pts).value| == |pts|
  }

  /** A cell that numeric conversion accepts. */
  predicate IsNumeric(c: Cell)
  {
    c.Num? || (c.Str? && ParseInteger(c.s).Some?)
  }

  /** Numeric conversion with failures turned into missing values, then missing values filled with 0. */
  function Coerce(c: Cell): (v: int)
    ensures !IsNumeric(c) ==> v == 0
    ensures c.Num? ==> v == c.n
  {
    match c
    case Num(n) => n
    case Str(s) => (match ParseInteger(s) case Some(n) => n case None => 0)
    case Null => 0
  }

  /** The two feature columns after coercion, row by row. */
  function Points(rows: seq<DetectorRow>): (pts: seq<Point>)
    ensures |pts| == |rows|
    ensures forall k :: 0 <= k < |rows| ==> pts[k] == (Coerce(rows[k].bytesSent), Coerce(rows[k].bytesRecv))
  {
    seq(|rows|, k requires 0 <= k < |rows| => (Coerce(rows[k].bytesSent), Coerce(rows[k].bytesRecv)))
  }

  /** The detector: None for a missing or short frame and for a failed fit; otherwise the same rows,
      in the same order, with coerced byte counts and the predictor's verdict for each. */
  function Detect(df: Option<seq<DetectorRow>>, predict: Predictor): (r: Option<seq<Scored>>)
    requires OneLabelPerPoint(predict)
    ensures df.None? || |df.value| < MinRows ==> r.None?
    ensures df.Some? && |df.value| >= MinRows ==> (r.None? <==> predict(Points(df.value)).None?)
    ensures r.Some? ==>
              && df.Some?
              && |r.value| == |df.value|
              && forall k :: 0 <= k < |df.value| ==>
                   && r.value[k].bytesSent == Coerce(df.value[k].bytesSent)
                   && r.value[k].bytesRecv == Coerce(df.value[k].bytesRecv)
                   && r.value[k].anomaly == predict(Points(df.value)).value[k]
  {
    if df.None? || |df.value| < MinRows then None
    else
      var pts := Points(df.value);
      match predict(pts)
      case None => None
      case Some(labels) =>
        Some(seq(|pts|, k requires 0 <= k < |pts| => Scored(pts[k].0, pts[k].1, labels[k])))
  }

  /** The outcome depends on the rows only through their coerced values: two frames that coerce
      to the same points get the same verdicts. */
  lemma DetectSeesOnlyCoercedValues(a: seq<DetectorRow>, b: seq<DetectorRow>, predict: Predictor)
    requires OneLabelPerPoint(predict)
    requires Points(a) == Points(b)
    ensures Detect(Some(a), predict) == Detect(Some(b), predict)
  {
  }

  /** A number stored as its decimal text coerces to that number. */
  lemma CoerceRenderedInteger(n: int)
    ensures Coerce(Str(ShowInteger(n))) == n
    ensures IsNumeric(Str(ShowInteger(n)))
  {
    ParseShowInteger(n);
  }

  /** Storing a count as text instead of as a number does not change what the detector returns. */
  lemma DetectIgnoresRendering(rows: seq<DetectorRow>, k: int, predict: Predictor)
    requires OneLabelPerPoint(predict)
    requires 0 <= k < |rows| && rows[k].bytesSent.Num?
    ensures var text := Str(ShowInteger(rows[k].bytesSent.n));
      Detect(Some(rows[k := DetectorRow(text, rows[k].bytesRecv)]), predict) == Detect(Some(rows), predict)
  {
    var rows' := rows[k := DetectorRow(Str(ShowInteger(rows[k].bytesSent.n)), rows[k].bytesRecv)];
    CoerceRenderedInteger(rows[k].bytesSent.n);
    assert Points(rows') == Points(rows);
    DetectSeesOnlyCoercedValues(rows', rows, predict);
  }
}
