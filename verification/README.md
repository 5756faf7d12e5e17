# Helmert datum conversion through ГСК-2011

This project models the coordinate-conversion core of a small web service.
The service converts Cartesian points (X, Y, Z) between geodetic datums
(СК-42, СК-95, ПЗ-90, WGS-84, …). Each datum has seven stored parameters
relative to one hub frame, ГСК-2011:

- three translations dX, dY, dZ;
- three rotations wx, wy, wz, stored in seconds of arc;
- one scale correction m.

Two modules make up the model:

- `Helmert` (helmert.dfy) holds the point transform `ConvertCoordinates`. It
  is the linearised seven-parameter Helmert transform
  `(1 + m) · R · p + d`, with `R = [[1, wz, -wy], [-wz, 1, wx], [wy, -wx, 1]]`.
  Away from the hub, all seven parameters are negated first.
- `Conversion` (conversion.dfy) holds the rest of the `/convert` request:
  - the check on the uploaded file's name;
  - the parameter table, a `map<string, Params>`;
  - the conversion of stored angles to radians;
  - the choice of route: into the hub, out of it, or through it;
  - the loop that converts every row, as the method `ConvertRows`;
  - the mapping of a failed lookup to status 500 and of a bad file name to
    status 400, in the method `Convert`.

Coordinates and parameters are exact `real`s. The transform is a pure
function. The row loop is a method whose result the function
`ConvertPoint` specifies, row by row.

Three behaviours of the code shape the model:

- The scale correction is used exactly as stored, as the factor `1 + m`.
  Only the report divides it by 10^6.
- A conversion from the hub to itself takes the "into the hub" route. It
  looks up the hub's own name in the parameter table, so it fails unless that
  entry exists (`HubToHub`). It is not a no-op.
- No coordinate is checked for being finite. The reals have no NaN or
  infinity.

## Model

| member | source | states |
|---|---|---|
| `Helmert.ConvertCoordinates` | main.py:214-229 | the transform itself; its meaning is stated by `ForwardClosedForm` and `InverseClosedForm` (closed forms per coordinate) and by `RoundTripDefect` (what going into the hub and back yields) |
| `Helmert.Effective` | main.py:216-219 | towards the hub the parameters are used unchanged; away from it each of the seven (m, wx, wy, wz, dX, dY, dZ) is negated |
| `Helmert.ForwardClosedForm` | main.py:221-228 | towards the hub each output coordinate is (1 + m) times the matching row of R applied to (X, Y, Z), plus dX, dY or dZ |
| `Helmert.InverseClosedForm` | main.py:216-228 | away from the hub each output coordinate is (1 - m) times the row of R with negated angles applied to (X, Y, Z), minus dX, dY or dZ |
| `Helmert.InverseIsNegatedForward` | main.py:216-219 | the inverse transform is the forward transform of the negated parameters, and negation is an involution |
| `Helmert.ZeroParamsIdentity` | main.py:216-228 | with all seven parameters zero the output equals the input exactly, in both directions |
| `Helmert.TranslationOnly` | main.py:216-228 | with m and the rotations zero the output is p + d towards the hub and p - d away from it |
| `Helmert.ShiftedOriginExample` | main.py:221-228 | the origin with d = (25, -141, -80) and no rotation or scale maps to (25, -141, -80) |
| `Helmert.InverseRotationIsTranspose` | main.py:221-225 | the rotation matrix with negated angles is the transpose of R, and likewise for its skew part |
| `Helmert.DifferencesAreRotatedAndScaled` | main.py:227-228 | the transform is affine: the difference of two outputs is (1 + m) R applied to the difference of the inputs, and the translation cancels |
| `Helmert.RoundTripDefect` | main.py:216-228 | going into the hub and back with the same parameters yields exactly (1 - m^2)(I - S^2)p - m d - (1 - m) S d, where S = R - I; so negation is only a first-order inverse |
| `Helmert.RoundTripTranslationOnly` | main.py:216-228 | without rotation and scale, going into the hub and back returns the point exactly |
| `Conversion.ArcsecToRadians` | main.py:162-164 | a stored angle a in seconds of arc becomes r with r · 3600 · 180 = a · π, i.e. `np.radians(a / 3600)`; it is zero exactly when a is, and positive when a is |
| `Conversion.InRadians` | main.py:159-165 | the transform receives the rotations converted from arcseconds, each zero exactly when the stored value is zero, and the translations and m exactly as stored |
| `Conversion.InRadiansNegated` | main.py:162-164 | converting the stored angles and then negating them equals converting the negated stored parameters |
| `Conversion.ConvertPoint` | main.py:158-194 | one row fails exactly when a name its route must look up is missing from the table, and then it reports the first missing name in lookup order |
| `Conversion.IntoHub` | main.py:158-166 | when the destination is the hub, the result is one forward transform with the source datum's parameters |
| `Conversion.OutOfHub` | main.py:167-175 | when only the source is the hub, the result is one inverse transform with the destination datum's parameters |
| `Conversion.ThroughHub` | main.py:176-194 | between two non-hub datums, the result is the inverse transform with the destination parameters applied to the forward transform with the source parameters |
| `Conversion.HubToHub` | main.py:158-166 | from the hub to itself the table is asked for the hub's own entry: without it the conversion fails with that name, with it a forward transform is applied |
| `Conversion.HubLookedUpOnlyForHubToHub` | main.py:158-187 | the hub's own name is among the looked-up names exactly when both source and destination are the hub |
| `Conversion.UnknownDatumFails` | main.py:158-194 | any non-hub source or destination missing from the table makes the conversion fail |
| `Conversion.FailureIndependentOfPoint` | main.py:155-194 | whether a row fails, and with which missing name, does not depend on the row's coordinates |
| `Conversion.ZeroDatumIsIdentity` | main.py:158-175 | a datum whose seven stored parameters are zero converts into and out of the hub without change |
| `Conversion.ConvertRows` | main.py:153-196 | on success there is exactly one result per row, in row order, each the row's conversion; the loop fails exactly when the first row's conversion fails, with that row's error |
| `Conversion.ReportLookupsCovered` | main.py:82-100 | the report looks up the source and the destination unless they are the hub; once a row has converted, every one of those names is in the table |
| `Conversion.Convert` | main.py:133-212 | a file whose name does not end in ".xlsx" or ".xls" gets status 400 before any row is processed; otherwise the rows are converted and the report looks the non-hub datums up again (main.py:83, 100, 201); status 500 comes exactly when the first row's conversion fails or, with no rows, when the report meets a missing datum, and it names that datum |
| `Conversion.EndsWith` | main.py:140 | Python's `str.endswith`: the name is at least as long as the suffix and its last characters are the suffix's, one by one |
| `Conversion.AcceptedFilename` | main.py:140 | a name is accepted exactly when its last four characters are ".xls" or its last five are ".xlsx"; an accepted name has at least four characters and ends in "s" or "x" |
| `Conversion.EndsWithIffStem` | main.py:140 | a name ends with a suffix exactly when it is some stem followed by that suffix |
| `Conversion.AcceptedFilenameIffExtension` | main.py:140 | a file name is accepted exactly when it is some stem followed by ".xlsx" or ".xls" |
| `Conversion.FilenameExamples` | main.py:140-141 | "points.xlsx" and "points.xls" are accepted; "points.XLSX", "points.csv", "points.xlsx.bak" and "xls" are refused |

## Left out

- HTTP transport: the FastAPI application, the CORS set-up, reading the upload and the JSON response (main.py:16-24, 144, 204-209). The request is modelled as the method `Convert`, which takes the file name and the already parsed rows.
- Spreadsheet parsing with pandas and the check for the X, Y and Z columns (main.py:145-151). The rows arrive as a sequence of points.
- Loading `parameters.json` at start-up (main.py:26-27). The table is a parameter of type `map<string, Params>`.
- The Markdown and LaTeX report (main.py:35-131). It is string formatting and symbolic algebra from foreign libraries. This includes the rounded angle values and the extra `*pi/180` factor shown in the report. Only its two table lookups are modelled (`ReportDatums`). The 200 response is modelled by the converted points that the report tabulates, not by the report text and its file name.
- Conversion.Convert: the query parameters' defaults, from_system "СК-42" and to_system "ГСК-2011" (main.py:136-137), are not modelled. Both names are always passed explicitly.
- The message texts of the 400 and 500 responses. The model keeps the status and, for 500, the missing datum's name.
- Floating-point behaviour of numpy. Coordinates, parameters and the degree-to-radian factor are exact reals. π is the decimal constant 3.141592653589793, and rounding is not modelled.
- app.py, the Streamlit front end: a form plus a network call to the service, with no conversion logic of its own.
- An exact round trip into the hub and back. It does not hold over the reals, so it is not claimed. `RoundTripDefect` gives the exact deviation instead.
