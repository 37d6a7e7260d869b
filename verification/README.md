# Vertical reference system resolution and CRS decomposition (viz-subsurface)

A Dafny model of the decision logic of the viz-subsurface package:

- `use_model` picks the geoid, tidal or geopotential model to use when ground heights are turned into ellipsoid heights. It has two hints: `las_vrs`, read from the LAS file header, and `user_vrs`, given by the user. The header hint takes precedence. The result is a model name, the sentinel `0` ("no correction"), the falsy lookup result, or `exit(1)`.
- `crs_to_wgs84` picks the CRS constructor for its `from_crs` argument. An `int` goes through an EPSG lookup. A `CRS` object is used as it is. A string containing `AUTHORITY` is parsed as WKT. Any other string is parsed generically. The target is always EPSG 4326.
- `get_epsgs_from_wkt` parses a WKT string and returns the horizontal and vertical EPSG codes and names. For a compound CRS it walks the sub-CRS list. Each entry overwrites the slot of its own kind, so the last one of each kind wins.

Modules:

- `Wrappers` (wrappers.dfy): `Option`, `Result`.
- `CrsModel` (crs.dfy): the parsed CRS value, Python truthiness, and Python's substring test.
- `Geoid` (geoid.dfy): `use_model` as a pure function returning its outcome and its log trace; the source-CRS dispatch of `crs_to_wgs84`.
- `Utils` (utils.dfy): `get_epsgs_from_wkt` as a method with a loop, proved against the specification function `Decompose`.

Foreign calls are parameters:

- The catalogue lookup `model_search` of pyegt is `Geoid.Catalog`, a function `string -> Option<string>`.
- `CRS.from_wkt` of pyproj is `Utils.WktParser`, a function `string -> Result<Crs, ParseError>`.

Log calls become returned lists of tagged messages. `exit(1)` becomes the outcome `Exit1`. A Python-falsy hint (`None` or `""`) counts as absent. An EPSG code of `None` or `0` is falsy.

`use_model`'s documentation lists nine scenarios. The code departs from that list in scenario 7: an unmatched header hint with no user hint. The documentation says `exit(1)`. The code logs an error and returns the falsy lookup result. `Geoid.UseModel` follows the code. `Geoid.UseModelIntended` follows the documentation. See "## Findings".

## Model

| member | source | states |
|---|---|---|
| `Geoid.UseModel` | pdgsubsurface/geoid.py:70-104 | A returned model name is non-empty and is exactly the catalogue's answer for the hint that was consulted: the header hint when it is truthy, otherwise the user hint. The result is `0` iff both hints are falsy. The falsy lookup result is returned iff the header hint is unmatched and the user hint is falsy. The first log entry records both hints. |
| `Geoid.UseModelScenarios` | pdgsubsurface/geoid.py:53-63 | In every scenario except 7, the outcome belongs to the class the documented nine-scenario table gives. In scenario 7 it is the falsy lookup result. |
| `Geoid.BothAbsentNeverSearches` | pdgsubsurface/geoid.py:90-93 | With both hints falsy, the result is `0` and the only log entry is the debug line. The result is the same for every catalogue, so the catalogue is never consulted. |
| `Geoid.MatchedLasWins` | pdgsubsurface/geoid.py:73-79 | A matched header hint is returned whatever the user hint is. Two catalogues that agree on the header hint give identical results, so the user hint is never looked up. Scenarios 1 and 2 therefore coincide. |
| `Geoid.OverrideNotice` | pdgsubsurface/geoid.py:77-79 | The override notice is logged iff the header hint is matched and the user hint is truthy. It names the user value and the matched model. |
| `Geoid.UnmatchedLasWithUserExits` | pdgsubsurface/geoid.py:80-83 | An unmatched header hint with a truthy user hint ends in `exit(1)`, even when the user hint would match (scenario 8). The error line names the user value. |
| `Geoid.UnmatchedLasAloneReturns` | pdgsubsurface/geoid.py:84-89 | An unmatched header hint with a falsy user hint logs an error naming the header hint. It returns the falsy lookup result and does not exit. |
| `Geoid.UserHintOnly` | pdgsubsurface/geoid.py:94-103 | With no header hint and a truthy user hint: a match is returned with the "user-specified" notice; a miss logs an error naming the user value and ends in `exit(1)`. |
| `Geoid.Scenario7DoesNotExit` | pdgsubsurface/geoid.py:84-89 | With a catalogue that knows only `EGM2008`, `las_vrs = "NAVD88"` and no user hint, the code returns `None`. The documented table says `exit(1)` for this input. |
| `Geoid.Scenario8ErrorNamesMatchedValue` | pdgsubsurface/geoid.py:80-83 | With `las_vrs = "NAVD88"` unmatched and `user_vrs = "EGM2008"` matched, the error says no system matches `EGM2008`, although `EGM2008` does match. |
| `Geoid.UseModelIntended` | pdgsubsurface/geoid.py:53-63 | The corrected resolution realises the documented outcome class in all nine scenarios and never returns the falsy lookup result. When the header hint is unmatched (scenarios 7 to 9), the log is the debug line, the lookup result and an error naming the header hint, and the outcome is `exit(1)`. Every "no vertical reference system matching" error names the header hint, whose lookup failed. |
| `Geoid.IntendedAgreesElsewhere` | pdgsubsurface/geoid.py:73-104 | When the header hint is absent or matched, the corrected resolution and the code give the same outcome and the same log. |
| `Geoid.CrsToWgs84` | pdgsubsurface/geoid.py:120-129 | An `int` goes through an EPSG lookup and a `CRS` is used unchanged. A string goes through the WKT parser iff `AUTHORITY` occurs in it, otherwise through the generic string parser. Every other type fails, because `crs` is never bound. The target is always EPSG 4326. |
| `CrsModel.Contains` | pdgsubsurface/geoid.py:125 | Python's `t in s` holds iff `t` occurs at some index of `s`. |
| `Utils.LastIndex` | pdgsubsurface/utils.py:85-91 | The index found is that of a sub-CRS of the requested kind, and no later sub-CRS is of that kind. No index is found iff no sub-CRS is of that kind. |
| `Utils.LastSlotAppend` | pdgsubsurface/utils.py:85-91 | Appending a sub-CRS replaces the slot of its own kind with its code and name and leaves the other slot unchanged. |
| `Utils.Decompose` | pdgsubsurface/utils.py:80-103 | The first element of the returned tuple is the parsed CRS itself. |
| `Utils.GetEpsgsFromWkt` | pdgsubsurface/utils.py:67-103 | A parse failure is passed on with an empty log and no result. Otherwise the four fields filled by the loop are those of `Decompose`, and the log is `DecomposeLog` of the parsed CRS. |
| `Utils.PlainVertical` | pdgsubsurface/utils.py:93-95 | A non-compound vertical CRS sets the vertical code and name from itself. The horizontal code and name stay `None`. |
| `Utils.PlainHorizontal` | pdgsubsurface/utils.py:96-98 | A non-compound non-vertical CRS sets the horizontal code and name from itself. The vertical code and name stay `None`. |
| `Utils.CompoundLastWriterWins` | pdgsubsurface/utils.py:78-91 | In a compound CRS, each slot holds the code and name of one and the same sub-CRS: the last one of its kind in list order. A slot is unset (both `None`) iff no sub-CRS of its kind exists. |
| `Utils.CompoundPair` | pdgsubsurface/utils.py:81-91 | A compound CRS of one horizontal then one vertical sub-CRS fills both slots from the right entries, and no warning is logged. |
| `Utils.WarningIffMoreThanTwo` | pdgsubsurface/utils.py:82-84 | The override warning is logged iff the CRS is compound with more than two sub-CRSs. Such input is still decomposed. |
| `Utils.InfoLinesIffTruthyCode` | pdgsubsurface/utils.py:99-102 | The info line for a slot is logged iff the slot's EPSG code is truthy, and it names that code with the slot's name. A present code always comes with a present name. |

## Left out

- The matching inside pyegt's `model_search` is left out. It is a foreign call, modelled as the parameter `Catalog`.
- WKT, EPSG and generic-string parsing inside pyproj's `CRS` is left out. It is a foreign call. `CRS.from_wkt` is the parameter `WktParser`, and a parse failure is the abstract error `MalformedWkt`. `Geoid.CrsToWgs84` only names the constructor to call.
- The coordinate transform in `crs_to_wgs84` (`Transformer`, `float(x)`, `float(y)`) is left out. It is floating-point work done by pyproj.
- `get_adjustment` is left out. It is a floating-point height lookup done by pyegt.
- `timer`, `make_dirs`, `rm_files`, `write_wkt_to_file` and `read_wkt_from_file` are left out. They use the clock and the filesystem.
- The log text is not built character by character. Each log call is a tagged entry carrying the values it formats. Logger configuration, levels and sinks are left out.
- Python's `exit(1)` is modelled as the outcome `Exit1`. The process termination itself is not modelled.
- pdgsubsurface/pipeline.py, pdgsubsurface/cli.py and pdgsubsurface/defs.py are not part of this model. They are unfinished scaffolding, argument parsing and constants.
- For the sub-CRSs of a compound CRS, only the vertical flag, EPSG code and name are used. Their own `isCompound` and `subs` fields play no part, as in the code.
- An unset slot has the name `None`, not an empty string, because the code initialises both names to `None`.

## Findings

| source | as written | input that shows it | evidently intended | confidence | as-written member | corrected member |
|---|---|---|---|---|---|---|
| pdgsubsurface/geoid.py:87-89 | Scenario 7 logs an error and falls through to `return vrs`. It returns the falsy lookup result and does not exit. | `las_vrs = "NAVD88"` not in the catalogue, `user_vrs = None` | `exit(1)`, as the documented scenario list states for scenario 7 (line 61) | medium, not executed | `Geoid.Scenario7DoesNotExit` | `Geoid.UseModelIntended` |
| pdgsubsurface/geoid.py:82 | In scenarios 8 and 9 the error says no system matches `user_vrs`. But the lookup that failed was for `las_vrs`, and `user_vrs` is never looked up. | `las_vrs = "NAVD88"` unmatched, `user_vrs = "EGM2008"` matched | The error names `las_vrs`, as line 89 does | medium, not executed | `Geoid.Scenario8ErrorNamesMatchedValue` | `Geoid.UseModelIntended` |
