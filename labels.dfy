/**
 * Label resolution of utils/face_util.py: `get_max_prediction` picks the
 * analyser's most probable label and `get_enum_by_value` looks it up,
 * ignoring case, among the members of an enumeration.
 */
module Labels {
  import opened Wrappers
  import opened Text
  import opened CharacterInfo

  /** The `ValueError`s label resolution raises. */
  datatype LabelError =
    | EmptyPredictions           // `max()` of an empty mapping
    | InvalidEnumValue(value: string)  // no member's value matches the label

  /** A label-to-score mapping, as its items in insertion order. */
  type Predictions = seq<(string, real)>

  // ---------------------------------------------------------------------------
  // get_max_prediction

  /**
   * Position of the item `max(items, key=score)` returns: `max` scans left to
   * right and replaces its pick only on a strictly greater score, so this is
   * the first item whose score is maximal.
   */
  function MaxIndex(preds: Predictions): (k: nat)
    requires |preds| > 0
    ensures k < |preds|
    ensures forall j :: 0 <= j < |preds| ==> preds[j].1 <= preds[k].1
    ensures forall j :: 0 <= j < k ==> preds[j].1 < preds[k].1
    decreases |preds|
  {
    if |preds| == 1 then 0
    else
      var k := MaxIndex(preds[..|preds| - 1]);
      if preds[|preds| - 1].1 > preds[k].1 then |preds| - 1 else k
  }

  /** The first maximal item is the only position with both properties of `MaxIndex`. */
  lemma FirstMaximalUnique(preds: Predictions, k: nat)
    requires k < |preds|
    requires forall j :: 0 <= j < |preds| ==> preds[j].1 <= preds[k].1
    requires forall j :: 0 <= j < k ==> preds[j].1 < preds[k].1
    ensures MaxIndex(preds) == k
  {
    var m := MaxIndex(preds);
    assert preds[m].1 == preds[k].1;
  }

  /** `get_max_prediction(predictions)`: the item with the highest score; an empty mapping raises. */
  function GetMaxPrediction(preds: Predictions): (r: Result<(string, real), LabelError>)
    ensures r.Err? <==> |preds| == 0
    ensures r.Err? ==> r.error == EmptyPredictions
    ensures r.Ok? ==> r.value in preds && forall j :: 0 <= j < |preds| ==> preds[j].1 <= r.value.1
  {
    if |preds| == 0 then Err(EmptyPredictions) else Ok(preds[MaxIndex(preds)])
  }

  /** Of two labels with the same top score, the one listed first wins. */
  lemma TieGoesToFirst(preds: Predictions, i: nat, j: nat)
    requires i < j < |preds| && preds[i].1 == preds[j].1
    requires forall k :: 0 <= k < |preds| ==> preds[k].1 <= preds[i].1
    ensures MaxIndex(preds) <= i
  {
    var m := MaxIndex(preds);
    assert preds[m].1 <= preds[i].1;
  }

  // ---------------------------------------------------------------------------
  // get_enum_by_value

  /** Position of the first member whose value equals `name` once both are lower-cased. */
  function FirstMatch<E>(members: seq<E>, valueOf: E -> string, name: string): (r: Option<nat>)
    ensures r.Some? ==> r.value < |members| && Lower(valueOf(members[r.value])) == Lower(name)
    ensures r.Some? ==> forall j :: 0 <= j < r.value ==> Lower(valueOf(members[j])) != Lower(name)
    ensures r.None? ==> forall j :: 0 <= j < |members| ==> Lower(valueOf(members[j])) != Lower(name)
    decreases |members|
  {
    if |members| == 0 then None
    else if Lower(valueOf(members[0])) == Lower(name) then Some(0)
    else
      match FirstMatch(members[1..], valueOf, name)
      case None => None
      case Some(k) => Some(k + 1)
  }

  /**
   * `get_enum_by_value(enum_class, value)`: the first member, in declaration
   * order, whose value matches `name` ignoring case; `ValueError` otherwise.
   */
  function GetEnumByValue<E>(members: seq<E>, valueOf: E -> string, name: string): Result<E, LabelError> {
    match FirstMatch(members, valueOf, name)
    case None => Err(InvalidEnumValue(name))
    case Some(k) => Ok(members[k])
  }

  /**
   * A lookup returns a member whose value matches, and raises `ValueError`
   * naming the label exactly when no member matches.
   */
  lemma GetEnumByValueMeaning<E>(members: seq<E>, valueOf: E -> string, name: string)
    ensures var r := GetEnumByValue(members, valueOf, name);
      && (r.Ok? ==> r.value in members && Lower(valueOf(r.value)) == Lower(name))
      && (r.Err? <==> forall j :: 0 <= j < |members| ==> Lower(valueOf(members[j])) != Lower(name))
      && (r.Err? ==> r.error == InvalidEnumValue(name))
  {
  }

  /**
   * When the members' lower-cased values are pairwise distinct, a lookup finds
   * a member exactly when that member's value matches the label.
   */
  lemma LookupExact<E>(members: seq<E>, valueOf: E -> string, name: string, t: E)
    requires t in members
    requires forall i, j :: 0 <= i < j < |members| ==> Lower(valueOf(members[i])) != Lower(valueOf(members[j]))
    ensures GetEnumByValue(members, valueOf, name) == Ok(t) <==> Lower(valueOf(t)) == Lower(name)
  {
    GetEnumByValueMeaning(members, valueOf, name);
    if Lower(valueOf(t)) == Lower(name) {
      var i :| 0 <= i < |members| && members[i] == t;
      var r := FirstMatch(members, valueOf, name);
      assert r.Some?;
    }
  }

  function RaceValue(t: RaceType): string { t.Value() }

  function EmotionValue(t: EmotionType): string { t.Value() }

  function GenderValue(t: GenderType): string { t.Value() }

  /** `get_enum_by_value(RaceType, name)` resolves to a race exactly when its value matches the label. */
  lemma RaceLookup(name: string, t: RaceType)
    ensures GetEnumByValue(RaceMembers, RaceValue, name) == Ok(t) <==> Lower(t.Value()) == Lower(name)
  {
    MembersListed();
    forall i, j | 0 <= i < j < |RaceMembers|
      ensures Lower(RaceValue(RaceMembers[i])) != Lower(RaceValue(RaceMembers[j]))
    {
      RaceValuesDistinctLowered(RaceMembers[i], RaceMembers[j]);
    }
    LookupExact(RaceMembers, RaceValue, name, t);
  }

  /** `get_enum_by_value(EmotionType, name)` resolves to an emotion exactly when its value matches the label. */
  lemma EmotionLookup(name: string, t: EmotionType)
    ensures GetEnumByValue(EmotionMembers, EmotionValue, name) == Ok(t) <==> Lower(t.Value()) == Lower(name)
  {
    MembersListed();
    forall i, j | 0 <= i < j < |EmotionMembers|
      ensures Lower(EmotionValue(EmotionMembers[i])) != Lower(EmotionValue(EmotionMembers[j]))
    {
      EmotionValuesDistinctLowered(EmotionMembers[i], EmotionMembers[j]);
    }
    LookupExact(EmotionMembers, EmotionValue, name, t);
  }

  /** `get_enum_by_value(GenderType, name)` resolves to a gender exactly when its value matches the label. */
  lemma GenderLookup(name: string, t: GenderType)
    ensures GetEnumByValue(GenderMembers, GenderValue, name) == Ok(t) <==> Lower(t.Value()) == Lower(name)
  {
    MembersListed();
    forall i, j | 0 <= i < j < |GenderMembers|
      ensures Lower(GenderValue(GenderMembers[i])) != Lower(GenderValue(GenderMembers[j]))
    {
      GenderValuesDistinctLowered(GenderMembers[i], GenderMembers[j]);
    }
    LookupExact(GenderMembers, GenderValue, name, t);
  }

  /** The analyser's lower-case labels "man" and "woman" resolve to `MAN` and `WOMAN`. */
  lemma LowerCaseGenderLabels(man: string, woman: string)
    requires man == "man" && woman == "woman"
    ensures GetEnumByValue(GenderMembers, GenderValue, man) == Ok(Man)
    ensures GetEnumByValue(GenderMembers, GenderValue, woman) == Ok(Woman)
  {
    GenderValuesMixedCase();
    GenderLookup(man, Man);
    GenderLookup(woman, Woman);
  }

  /** A label that matches no race raises `ValueError` naming the label. */
  lemma UnknownRaceRaises(name: string)
    requires forall t: RaceType :: Lower(t.Value()) != Lower(name)
    ensures GetEnumByValue(RaceMembers, RaceValue, name) == Err(InvalidEnumValue(name))
  {
    MembersListed();
    GetEnumByValueMeaning(RaceMembers, RaceValue, name);
  }
}
