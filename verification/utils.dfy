/**
 * Splitting a parsed (possibly compound) CRS into its horizontal and
 * vertical EPSG codes and names, as `get_epsgs_from_wkt` does.
 *
 * The WKT parser of the CRS library is a parameter of type `WktParser`; the
 * logger becomes the returned trace of tagged messages.
 */
module Utils {
  import opened Wrappers
  import opened CrsModel

  /** The exception the parser raises on text it cannot read. */
  datatype ParseError = MalformedWkt

  /** `CRS.from_wkt`. */
  type WktParser = string -> Result<Crs, ParseError>

  /** The returned tuple `(crs, epsg_h, epsg_v, h_name, v_name)`. */
  datatype Epsgs = Epsgs(crs: Crs, epsgH: Option<int>, epsgV: Option<int>, hName: Option<string>, vName: Option<string>)

  /** The messages written to the logger, in order. */
  datatype LogEntry =
    | InfoCompound(count: nat)                           // info: a compound CRS, with its entry count
    | WarnOverride                                       // warning: more than two entries, one slot may be overwritten
    | InfoHorizontal(hEpsg: int, hName: Option<string>)  // info: the horizontal EPSG code and its name
    | InfoVertical(vEpsg: int, vName: Option<string>)    // info: the vertical EPSG code and its name

  /** One of the two result slots: an EPSG code and a name, assigned together. */
  datatype Slot = Slot(epsg: Option<int>, name: Option<string>)

  const Unset := Slot(None, None)

  function SlotOf(c: Crs): Slot {
    Slot(c.epsg, Some(c.name))
  }

  /** The index of the last sub-system whose vertical flag is `vertical`, if any. */
  function LastIndex(subs: seq<Crs>, vertical: bool): (r: Option<nat>)
    ensures r.Some? ==>
      r.value < |subs| && subs[r.value].isVertical == vertical &&
      forall j :: r.value < j < |subs| ==> subs[j].isVertical != vertical
    ensures r.None? <==> forall j :: 0 <= j < |subs| ==> subs[j].isVertical != vertical
  {
    if |subs| == 0 then None
    else if subs[|subs| - 1].isVertical == vertical then Some(|subs| - 1)
    else LastIndex(subs[..|subs| - 1], vertical)
  }

  /** The slot filled by the last sub-system of the given kind, or unset when there is none. */
  function LastSlot(subs: seq<Crs>, vertical: bool): Slot {
    match LastIndex(subs, vertical)
    case Some(i) => SlotOf(subs[i])
    case None => Unset
  }

  /** Appending a sub-system overwrites the slot of its own kind and leaves the other alone. */
  lemma {:induction false} LastSlotAppend(subs: seq<Crs>, c: Crs, vertical: bool)
    ensures LastSlot(subs + [c], vertical) == if c.isVertical == vertical then SlotOf(c) else LastSlot(subs, vertical)
  {
    assert (subs + [c])[..|subs|] == subs;
  }

  /** What `get_epsgs_from_wkt` returns for a successfully parsed CRS. */
  function Decompose(crs: Crs): (r: Epsgs)
    ensures r.crs == crs
  {
    if crs.isCompound then
      var h, v := LastSlot(crs.subs, false), LastSlot(crs.subs, true);
      Epsgs(crs, h.epsg, v.epsg, h.name, v.name)
    else if crs.isVertical then
      Epsgs(crs, None, crs.epsg, None, Some(crs.name))
    else
      Epsgs(crs, crs.epsg, None, Some(crs.name), None)
  }

  /** What `get_epsgs_from_wkt` logs for a successfully parsed CRS. */
  function DecomposeLog(crs: Crs): seq<LogEntry> {
    var e := Decompose(crs);
    (if crs.isCompound then [InfoCompound(|crs.subs|)] else []) +
    (if crs.isCompound && |crs.subs| > 2 then [WarnOverride] else []) +
    (if EpsgTruthy(e.epsgH) then [InfoHorizontal(e.epsgH.value, e.hName)] else []) +
    (if EpsgTruthy(e.epsgV) then [InfoVertical(e.epsgV.value, e.vName)] else [])
  }

  /**
   * `get_epsgs_from_wkt`: parse, then fill the horizontal and vertical
   * slots, walking the sub-systems of a compound CRS in order so that later
   * entries overwrite earlier ones of the same kind.
   */
  method GetEpsgsFromWkt(parse: WktParser, wkt: string) returns (r: Result<Epsgs, ParseError>, log: seq<LogEntry>)
    ensures parse(wkt).Failure? ==> r == Failure(parse(wkt).error) && log == []
    ensures parse(wkt).Success? ==> r == Success(Decompose(parse(wkt).value)) && log == DecomposeLog(parse(wkt).value)
  {
    var epsgH: Option<int>, epsgV: Option<int> := None, None;
    var hName: Option<string>, vName: Option<string> := None, None;
    log := [];
    var parsed := parse(wkt);
    if parsed.Failure? {
      return Failure(parsed.error), log;
    }
    var crs := parsed.value;
    if crs.isCompound {
      log := log + [InfoCompound(|crs.subs|)];
      if |crs.subs| > 2 {
        log := log + [WarnOverride];
      }
      var i := 0;
      while i < |crs.subs|
        invariant 0 <= i <= |crs.subs|
        invariant Slot(epsgH, hName) == LastSlot(crs.subs[..i], false)
        invariant Slot(epsgV, vName) == LastSlot(crs.subs[..i], true)
      {
        var c := crs.subs[i];
        if c.isVertical {
          epsgV := c.epsg;
          vName := Some(c.name);
        } else {
          epsgH := c.epsg;
          hName := Some(c.name);
        }
        LastSlotAppend(crs.subs[..i], c, false);
        LastSlotAppend(crs.subs[..i], c, true);
        assert crs.subs[..i + 1] == crs.subs[..i] + [c];
        i := i + 1;
      }
      assert crs.subs[..|crs.subs|] == crs.subs;
    } else {
      if crs.isVertical {
        epsgV := crs.epsg;
        vName := Some(crs.name);
      } else {
        epsgH := crs.epsg;
        hName := Some(crs.name);
      }
    }
    if EpsgTruthy(epsgH) {
      log := log + [InfoHorizontal(epsgH.value, hName)];
    }
    if EpsgTruthy(epsgV) {
      log := log + [InfoVertical(epsgV.value, vName)];
    }
    r := Success(Epsgs(crs, epsgH, epsgV, hName, vName));
  }

  /** A plain vertical CRS fills the vertical slot from itself and leaves the horizontal one unset. */
  lemma PlainVertical(crs: Crs)
    requires !crs.isCompound && crs.isVertical
    ensures var e := Decompose(crs);
      e.epsgV == crs.epsg && e.vName == Some(crs.name) && e.epsgH == None && e.hName == None
  {
  }

  /** A plain non-vertical CRS fills the horizontal slot from itself and leaves the vertical one unset. */
  lemma PlainHorizontal(crs: Crs)
    requires !crs.isCompound && !crs.isVertical
    ensures var e := Decompose(crs);
      e.epsgH == crs.epsg && e.hName == Some(crs.name) && e.epsgV == None && e.vName == None
  {
  }

  /**
   * In a compound CRS each slot holds the code and name of one and the same
   * sub-system, the last of its kind; every later sub-system is of the
   * other kind. A kind that never occurs leaves its slot unset.
   */
  lemma CompoundLastWriterWins(crs: Crs, vertical: bool)
    requires crs.isCompound
    ensures var e := Decompose(crs);
      var s := if vertical then Slot(e.epsgV, e.vName) else Slot(e.epsgH, e.hName);
      (s == Unset <==> forall j :: 0 <= j < |crs.subs| ==> crs.subs[j].isVertical != vertical) &&
      (s != Unset ==>
        exists i :: 0 <= i < |crs.subs| && crs.subs[i].isVertical == vertical && s == SlotOf(crs.subs[i]) &&
          forall j :: i < j < |crs.subs| ==> crs.subs[j].isVertical != vertical)
  {
  }

  /** A compound CRS of one horizontal then one vertical sub-system fills both slots from the right entries, without a warning. */
  lemma CompoundPair(crs: Crs, h: Crs, v: Crs)
    requires crs.isCompound && crs.subs == [h, v] && !h.isVertical && v.isVertical
    ensures Decompose(crs) == Epsgs(crs, h.epsg, v.epsg, Some(h.name), Some(v.name))
    ensures WarnOverride !in DecomposeLog(crs)
  {
    assert crs.subs == [h] + [v] && [h] == [] + [h];
    LastSlotAppend([], h, false);
    LastSlotAppend([h], v, false);
    LastSlotAppend([h], v, true);
  }

  /** The override warning is logged exactly for a compound CRS with more than two sub-systems; such input is still decomposed. */
  lemma WarningIffMoreThanTwo(crs: Crs)
    ensures WarnOverride in DecomposeLog(crs) <==> crs.isCompound && |crs.subs| > 2
  {
  }

  /**
   * An info line for a slot is logged exactly when its EPSG code is truthy,
   * and it then names a present name: code and name were set together.
   */
  lemma InfoLinesIffTruthyCode(crs: Crs, code: int, name: Option<string>)
    ensures var e := Decompose(crs);
      (InfoHorizontal(code, name) in DecomposeLog(crs) <==> EpsgTruthy(e.epsgH) && e.epsgH == Some(code) && name == e.hName) &&
      (InfoVertical(code, name) in DecomposeLog(crs) <==> EpsgTruthy(e.epsgV) && e.epsgV == Some(code) && name == e.vName)
    ensures var e := Decompose(crs);
      (e.epsgH.Some? ==> e.hName.Some?) && (e.epsgV.Some? ==> e.vName.Some?)
  {
  }
}
