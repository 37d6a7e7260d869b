/**
 * The parsed coordinate reference system handed out by the CRS library,
 * and the bits of Python semantics the decision logic relies on.
 */
module CrsModel {
  import opened Wrappers

  /**
   * A parsed CRS as the library reports it: whether it is compound, its
   * ordered list of sub-systems (meaningful only when compound), whether it
   * is vertical, its EPSG code if the library can find one, and its name.
   */
  datatype Crs = Crs(isCompound: bool, subs: seq<Crs>, isVertical: bool, epsg: Option<int>, name: string)

  /** Python truthiness of an optional string: `None` and `""` are both falsy. */
  predicate Truthy(s: Option<string>) {
    s.Some? && s.value != ""
  }

  /** Python truthiness of an optional EPSG code: `None` and `0` are both falsy. */
  predicate EpsgTruthy(code: Option<int>) {
    code.Some? && code.value != 0
  }

  /** `t` occurs in `s` starting at index `i`. */
  predicate OccursAt(s: string, t: string, i: nat) {
    i + |t| <= |s| && s[i..i + |t|] == t
  }

  /** Python's substring test `t in s`. */
  function Contains(s: string, t: string): (b: bool)
    ensures b <==> exists i: nat :: OccursAt(s, t, i)
    decreases |s|
  {
    if |t| > |s| then
      assert forall i: nat :: !OccursAt(s, t, i);
      false
    else if s[..|t|] == t then
      assert OccursAt(s, t, 0);
      true
    else
      var rest := Contains(s[1..], t);
      ShiftOccurrence(s, t);
      rest
  }

  /** An occurrence past the first position of `s` is an occurrence in `s[1..]`. */
  lemma ShiftOccurrence(s: string, t: string)
    requires |t| <= |s| && s[..|t|] != t
    ensures (exists i: nat :: OccursAt(s, t, i)) <==> (exists i: nat :: OccursAt(s[1..], t, i))
  {
    if i: nat :| OccursAt(s, t, i) {
      assert i != 0;
      assert OccursAt(s[1..], t, i - 1);
    }
    if i: nat :| OccursAt(s[1..], t, i) {
      assert s[1..][i..i + |t|] == s[i + 1..i + 1 + |t|];
      assert OccursAt(s, t, i + 1);
    }
  }
}
