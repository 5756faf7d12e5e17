/**
 * The /convert request: the check on the uploaded file's name, the choice of
 * route through the hub frame ГСК-2011 and the loop that converts every row.
 * The parameter table is a map from datum name to its stored parameters, with
 * the rotations in seconds of arc; a missing name is the error a failed
 * dictionary lookup raises, which the request turns into status 500.
 */
module Conversion {
  import opened Helmert

  /** The frame every stored parameter set is defined against. */
  const Hub: string := "ГСК-2011"

  const ArcsecondsPerDegree: real := 3600.0

  /** π as the double-precision constant behind the degree-to-radian conversion. */
  const Pi: real := 3.141592653589793

  /** The parameter table: datum name to its seven stored parameters. */
  type Store = map<string, Params>

  datatype Option<T> = None | Some(value: T)

  /** A failed lookup in the parameter table, naming the missing datum. */
  datatype Error = UnknownDatum(name: string)

  datatype Result<T> = Ok(value: T) | Err(error: Error)

  /** What the request answers: the converted rows, status 400 or status 500. */
  datatype Response = Converted(points: seq<Point>) | BadRequest | ServerError(missing: string)

  function Status(resp: Response): int
  {
    match resp
    case Converted(_) => 200
    case BadRequest => 400
    case ServerError(_) => 500
  }

  /** A stored angle, in seconds of arc, in radians: radians(a / 3600). */
  function ArcsecToRadians(a: real): (r: real)
    ensures r * (ArcsecondsPerDegree * 180.0) == a * Pi
    ensures r == 0.0 <==> a == 0.0
    ensures a > 0.0 ==> r > 0.0
  {
    a / ArcsecondsPerDegree * (Pi / 180.0)
  }

  /**
   * The parameters as the transform receives them: the rotations converted to
   * radians; the translations and the scale m passed on exactly as stored (m
   * is not divided by 10^6).
   */
  function InRadians(p: Params): (q: Params)
    ensures q.dX == p.dX && q.dY == p.dY && q.dZ == p.dZ && q.m == p.m
    ensures q.wx == 0.0 <==> p.wx == 0.0
    ensures q.wy == 0.0 <==> p.wy == 0.0
    ensures q.wz == 0.0 <==> p.wz == 0.0
  {
    Params(p.dX, p.dY, p.dZ, ArcsecToRadians(p.wx), ArcsecToRadians(p.wy), ArcsecToRadians(p.wz), p.m)
  }

  lemma NegateProduct(a: real, c: real)
    ensures (-a) * c == -(a * c)
  {
  }

  /**
   * Converting the stored angles and then negating them, as the inverse
   * transform does, is the same as converting the negated stored parameters.
   */
  lemma InRadiansNegated(p: Params)
    ensures InRadians(Negated(p)) == Negated(InRadians(p))
  {
    var c := Pi / 180.0;
    NegateProduct(p.wx / ArcsecondsPerDegree, c);
    NegateProduct(p.wy / ArcsecondsPerDegree, c);
    NegateProduct(p.wz / ArcsecondsPerDegree, c);
  }

  function Lookup(store: Store, name: string): Result<Params>
  {
    if name in store then Ok(store[name]) else Err(UnknownDatum(name))
  }

  /** The datum names a conversion looks up, in the order it looks them up. */
  function RequiredDatums(from: string, to: string): seq<string>
  {
    if to == Hub then [from] else if from == Hub then [to] else [from, to]
  }

  /** The first of the names that the table does not hold. */
  function FirstMissing(store: Store, names: seq<string>): Option<string>
  {
    if names == [] then None
    else if names[0] !in store then Some(names[0])
    else FirstMissing(store, names[1..])
  }

  lemma FirstMissingOfPair(store: Store, a: string, b: string)
    ensures FirstMissing(store, [a]) == if a !in store then Some(a) else None
    ensures FirstMissing(store, [a, b])
            == if a !in store then Some(a) else if b !in store then Some(b) else None
  {
    assert [a][1..] == [] && [b][1..] == [];
    assert FirstMissing(store, [b]) == if b !in store then Some(b) else None;
    assert [a, b][1..] == [b];
  }

  /**
   * One row of the conversion loop: straight into the hub, straight out of it,
   * or into the hub with the source parameters and out of it with the
   * destination parameters. The contract gives the error path: the call fails
   * exactly when a name it must look up is missing, and reports the first one.
   */
  function ConvertPoint(store: Store, from: string, to: string, p: Point): (r: Result<Point>)
    ensures r.Ok? <==> forall name :: name in RequiredDatums(from, to) ==> name in store
    ensures r.Err? <==> FirstMissing(store, RequiredDatums(from, to)).Some?
    ensures r.Err? ==> r.error == UnknownDatum(FirstMissing(store, RequiredDatums(from, to)).value)
  {
    FirstMissingOfPair(store, from, to);
    FirstMissingOfPair(store, to, from);
    if to == Hub then
      match Lookup(store, from)
      case Err(e) => Err(e)
      case Ok(src) => Ok(ConvertCoordinates(p, InRadians(src), true))
    else if from == Hub then
      match Lookup(store, to)
      case Err(e) => Err(e)
      case Ok(dst) => Ok(ConvertCoordinates(p, InRadians(dst), false))
    else
      match Lookup(store, from)
      case Err(e) => Err(e)
      case Ok(src) =>
        var mid := ConvertCoordinates(p, InRadians(src), true);
        match Lookup(store, to)
        case Err(e) => Err(e)
        case Ok(dst) => Ok(ConvertCoordinates(mid, InRadians(dst), false))
  }

  /** Into the hub: one forward transform with the source parameters. */
  lemma IntoHub(store: Store, from: string, p: Point)
    requires from in store
    ensures ConvertPoint(store, from, Hub, p) == Ok(ConvertCoordinates(p, InRadians(store[from]), true))
  {
  }

  /** Out of the hub: one inverse transform with the destination parameters. */
  lemma OutOfHub(store: Store, to: string, p: Point)
    requires to != Hub && to in store
    ensures ConvertPoint(store, Hub, to, p) == Ok(ConvertCoordinates(p, InRadians(store[to]), false))
  {
  }

  /**
   * Between two other datums: the inverse transform with the destination
   * parameters of the forward transform with the source parameters.
   */
  lemma ThroughHub(store: Store, from: string, to: string, p: Point)
    requires from != Hub && to != Hub && from in store && to in store
    ensures ConvertPoint(store, from, to, p)
            == Ok(ConvertCoordinates(ConvertCoordinates(p, InRadians(store[from]), true), InRadians(store[to]), false))
  {
  }

  /**
   * From the hub to itself the first route is taken: the table is asked for
   * the hub's own parameters, so without such an entry the conversion fails
   * rather than returning the point unchanged.
   */
  lemma HubToHub(store: Store, p: Point)
    ensures Hub !in store ==> ConvertPoint(store, Hub, Hub, p) == Err(UnknownDatum(Hub))
    ensures Hub in store ==> ConvertPoint(store, Hub, Hub, p) == Ok(ConvertCoordinates(p, InRadians(store[Hub]), true))
  {
  }

  /** The hub's own name is looked up only when converting from the hub to itself. */
  lemma HubLookedUpOnlyForHubToHub(from: string, to: string)
    ensures Hub in RequiredDatums(from, to) <==> from == Hub && to == Hub
  {
    if to == Hub {
      assert RequiredDatums(from, to) == [from];
    } else if from == Hub {
      assert RequiredDatums(from, to) == [to];
    } else {
      assert RequiredDatums(from, to) == [from, to];
    }
  }

  /** Any datum other than the hub that the table lacks makes the conversion fail. */
  lemma UnknownDatumFails(store: Store, from: string, to: string, p: Point)
    requires (from != Hub && from !in store) || (to != Hub && to !in store)
    ensures ConvertPoint(store, from, to, p).Err?
  {
    var req := RequiredDatums(from, to);
    if from != Hub && from !in store {
      assert req[0] == from;
    } else {
      assert req[|req| - 1] == to;
    }
  }

  /** Whether a conversion fails, and why, does not depend on the point. */
  lemma FailureIndependentOfPoint(store: Store, from: string, to: string, p: Point, q: Point)
    ensures ConvertPoint(store, from, to, p).Err? == ConvertPoint(store, from, to, q).Err?
    ensures ConvertPoint(store, from, to, p).Err? ==>
              ConvertPoint(store, from, to, p).error == ConvertPoint(store, from, to, q).error
  {
  }

  /** A datum whose seven stored parameters are zero is the hub under another name. */
  lemma ZeroDatumIsIdentity(store: Store, d: string, p: Point)
    requires d != Hub && d in store && store[d] == ZeroParams
    ensures ConvertPoint(store, d, Hub, p) == Ok(p)
    ensures ConvertPoint(store, Hub, d, p) == Ok(p)
  {
    var z := InRadians(ZeroParams);
    assert z.wx == 0.0 && z.wy == 0.0 && z.wz == 0.0;
    assert z == ZeroParams;
    IntoHub(store, d, p);
    OutOfHub(store, d, p);
    ZeroParamsIdentity(p, true);
    ZeroParamsIdentity(p, false);
  }

  /**
   * The conversion loop: every row is converted along the same route, one
   * result per row in row order; the first failed lookup ends the loop with
   * that error.
   */
  method ConvertRows(store: Store, from: string, to: string, rows: seq<Point>) returns (r: Result<seq<Point>>)
    ensures r.Ok? ==> |r.value| == |rows|
    ensures r.Ok? ==> forall j :: 0 <= j < |rows| ==> ConvertPoint(store, from, to, rows[j]) == Ok(r.value[j])
    ensures r.Err? <==> |rows| > 0 && ConvertPoint(store, from, to, rows[0]).Err?
    ensures r.Err? ==> |rows| > 0 && ConvertPoint(store, from, to, rows[0]) == Err(r.error)
  {
    var converted: seq<Point> := [];
    var i := 0;
    while i < |rows|
      invariant 0 <= i <= |rows|
      invariant |converted| == i
      invariant forall j :: 0 <= j < i ==> ConvertPoint(store, from, to, rows[j]) == Ok(converted[j])
    {
      var pt := rows[i];
      var res: Point;
      if to == Hub {
        if from !in store {
          return Err(UnknownDatum(from));
        }
        res := ConvertCoordinates(pt, InRadians(store[from]), true);
      } else if from == Hub {
        if to !in store {
          return Err(UnknownDatum(to));
        }
        res := ConvertCoordinates(pt, InRadians(store[to]), false);
      } else {
        if from !in store {
          return Err(UnknownDatum(from));
        }
        var mid := ConvertCoordinates(pt, InRadians(store[from]), true);
        if to !in store {
          return Err(UnknownDatum(to));
        }
        res := ConvertCoordinates(mid, InRadians(store[to]), false);
      }
      converted := converted + [res];
      i := i + 1;
    }
    return Ok(converted);
  }

  /** Python's str.endswith for a single suffix. */
  function EndsWith(s: string, suffix: string): (b: bool)
    ensures b <==> |suffix| <= |s| && forall i :: 0 <= i < |suffix| ==> s[|s| - |suffix| + i] == suffix[i]
  {
    |suffix| <= |s| && s[|s| - |suffix|..] == suffix
  }

  /** The upload is accepted only when its name ends in ".xlsx" or ".xls". */
  function AcceptedFilename(name: string): (b: bool)
    ensures b ==> 4 <= |name| && name[|name| - 1] in {'s', 'x'}
    ensures b <==> (4 <= |name| && name[|name| - 4..] == ".xls") || (5 <= |name| && name[|name| - 5..] == ".xlsx")
  {
    EndsWith(name, ".xlsx") || EndsWith(name, ".xls")
  }

  /** A name ends with a suffix exactly when it is some stem followed by that suffix. */
  lemma EndsWithIffStem(s: string, suffix: string)
    ensures EndsWith(s, suffix) <==> exists stem :: s == stem + suffix
  {
    if EndsWith(s, suffix) {
      var stem := s[..|s| - |suffix|];
      assert s == stem + suffix;
    }
    if exists stem :: s == stem + suffix {
      var stem :| s == stem + suffix;
      assert s[|s| - |suffix|..] == suffix;
    }
  }

  /** Accepted names are exactly the ones with an Excel extension appended to some stem. */
  lemma AcceptedFilenameIffExtension(name: string)
    ensures AcceptedFilename(name) <==> exists stem :: name == stem + ".xlsx" || name == stem + ".xls"
  {
    EndsWithIffStem(name, ".xlsx");
    EndsWithIffStem(name, ".xls");
  }

  /** The check is case-sensitive and looks at the very end of the name. */
  lemma FilenameExamples()
    ensures AcceptedFilename("points.xlsx") && AcceptedFilename("points.xls")
    ensures !AcceptedFilename("points.XLSX") && !AcceptedFilename("points.csv")
    ensures !AcceptedFilename("points.xlsx.bak") && !AcceptedFilename("xls")
  {
    assert "points.xlsx"[6..] == ".xlsx";
    assert "points.xls"[6..] == ".xls";
  }

  /**
   * The datum names the report looks up after the loop, in order: the source
   * unless it is the hub, then the destination unless it is the hub.
   */
  function ReportDatums(from: string, to: string): seq<string>
  {
    (if from != Hub then [from] else []) + (if to != Hub then [to] else [])
  }

  /**
   * Every name the report looks up is one the rows' route has looked up
   * already, so once a row has converted the report cannot fail.
   */
  lemma ReportLookupsCovered(store: Store, from: string, to: string, p: Point)
    requires ConvertPoint(store, from, to, p).Ok?
    ensures FirstMissing(store, ReportDatums(from, to)) == None
  {
    FirstMissingOfPair(store, from, to);
    FirstMissingOfPair(store, to, from);
    if from != Hub && to != Hub {
      assert ReportDatums(from, to) == [from, to] == RequiredDatums(from, to);
    } else if from != Hub {
      assert ReportDatums(from, to) == [from] == RequiredDatums(from, to);
    } else if to != Hub {
      assert ReportDatums(from, to) == [to] == RequiredDatums(from, to);
    } else {
      assert ReportDatums(from, to) == [];
    }
  }

  /**
   * The request: a file whose name is not an Excel name is refused with status
   * 400 before any row is looked at; otherwise every row is converted and the
   * report looks the source and destination up once more. A missing datum,
   * whether the loop or the report meets it, makes the request fail with
   * status 500 naming it.
   */
  method Convert(filename: string, store: Store, from: string, to: string, rows: seq<Point>)
    returns (resp: Response)
    ensures !AcceptedFilename(filename) ==> resp == BadRequest && Status(resp) == 400
    ensures AcceptedFilename(filename) ==> !resp.BadRequest?
    ensures resp.Converted? ==> |resp.points| == |rows|
    ensures resp.Converted? ==>
              forall j :: 0 <= j < |rows| ==> ConvertPoint(store, from, to, rows[j]) == Ok(resp.points[j])
    ensures Status(resp) == 500 <==>
              AcceptedFilename(filename) &&
              ((|rows| > 0 && ConvertPoint(store, from, to, rows[0]).Err?) ||
               FirstMissing(store, ReportDatums(from, to)).Some?)
    ensures resp.ServerError? && |rows| > 0 ==>
              ConvertPoint(store, from, to, rows[0]) == Err(UnknownDatum(resp.missing))
    ensures resp.ServerError? && |rows| == 0 ==>
              FirstMissing(store, ReportDatums(from, to)) == Some(resp.missing)
  {
    if !AcceptedFilename(filename) {
      return BadRequest;
    }
    var r := ConvertRows(store, from, to, rows);
    if r.Err? {
      return ServerError(r.error.name);
    }
    FirstMissingOfPair(store, from, to);
    if |rows| > 0 {
      ReportLookupsCovered(store, from, to, rows[0]);
    }
    if from != Hub && from !in store {
      return ServerError(from);
    }
    if to != Hub && to !in store {
      return ServerError(to);
    }
    return Converted(r.value);
  }
}
