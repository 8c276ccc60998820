/**
 * The label enumerations the face analyser's attribute labels are resolved
 * against (utils/character_Info_enum.py). Each enumeration lists its members in
 * declaration order, gives the value the analyser's label is compared with, and
 * the display name (`chinese_name`) written into an accepted face record.
 */
module CharacterInfo {
  import opened Text

  datatype RaceType = Asian | Indian | Black | White | MiddleEastern | LatinoHispanic {

    function Value(): string {
      match this
      case Asian => "asian"
      case Indian => "indian"
      case Black => "black"
      case White => "white"
      case MiddleEastern => "middle eastern"
      case LatinoHispanic => "latino hispanic"
    }

    function ChineseName(): string {
      match this
      case Asian => "亚洲人"
      case Indian => "印度人"
      case Black => "黑人"
      case White => "白人"
      case MiddleEastern => "中东人"
      case LatinoHispanic => "拉丁裔"
    }
  }

  /** Iteration order of `RaceType`. */
  const RaceMembers: seq<RaceType> := [Asian, Indian, Black, White, MiddleEastern, LatinoHispanic]

  datatype EmotionType = Angry | Disgust | Fear | Happy | Sad | Surprise | Neutral {

    function Value(): string {
      match this
      case Angry => "angry"
      case Disgust => "disgust"
      case Fear => "fear"
      case Happy => "happy"
      case Sad => "sad"
      case Surprise => "surprise"
      case Neutral => "neutral"
    }

    function ChineseName(): string {
      match this
      case Angry => "愤怒"
      case Disgust => "厌恶"
      case Fear => "恐惧"
      case Happy => "开心"
      case Sad => "悲伤"
      case Surprise => "惊讶"
      case Neutral => "平静"
    }
  }

  /** Iteration order of `EmotionType`. */
  const EmotionMembers: seq<EmotionType> := [Angry, Disgust, Fear, Happy, Sad, Surprise, Neutral]

  datatype GenderType = Man | Woman {

    function Value(): string {
      match this
      case Man => "Man"
      case Woman => "Woman"
    }

    function ChineseName(): string {
      match this
      case Man => "男"
      case Woman => "女"
    }
  }

  /** Iteration order of `GenderType`. */
  const GenderMembers: seq<GenderType> := [Man, Woman]

  /** Every member is listed exactly once, in declaration order. */
  lemma MembersListed()
    ensures forall t: RaceType :: t in RaceMembers
    ensures forall t: EmotionType :: t in EmotionMembers
    ensures forall t: GenderType :: t in GenderMembers
    ensures forall i, j :: 0 <= i < j < |RaceMembers| ==> RaceMembers[i] != RaceMembers[j]
    ensures forall i, j :: 0 <= i < j < |EmotionMembers| ==> EmotionMembers[i] != EmotionMembers[j]
    ensures forall i, j :: 0 <= i < j < |GenderMembers| ==> GenderMembers[i] != GenderMembers[j]
  {
    forall t: RaceType ensures t in RaceMembers {
      match t
      case Asian => assert RaceMembers[0] == t;
      case Indian => assert RaceMembers[1] == t;
      case Black => assert RaceMembers[2] == t;
      case White => assert RaceMembers[3] == t;
      case MiddleEastern => assert RaceMembers[4] == t;
      case LatinoHispanic => assert RaceMembers[5] == t;
    }
    forall t: EmotionType ensures t in EmotionMembers {
      match t
      case Angry => assert EmotionMembers[0] == t;
      case Disgust => assert EmotionMembers[1] == t;
      case Fear => assert EmotionMembers[2] == t;
      case Happy => assert EmotionMembers[3] == t;
      case Sad => assert EmotionMembers[4] == t;
      case Surprise => assert EmotionMembers[5] == t;
      case Neutral => assert EmotionMembers[6] == t;
    }
    forall t: GenderType ensures t in GenderMembers {
      if t == Man { assert GenderMembers[0] == t; } else { assert GenderMembers[1] == t; }
    }
  }

  /** Race values are written in lower case already. */
  lemma RaceValueLowered(t: RaceType)
    ensures Lower(t.Value()) == t.Value()
  {
    LowerKeepsLowercase(t.Value());
  }

  /** No two race values coincide once lower-cased, so a label names at most one race. */
  lemma RaceValuesDistinctLowered(a: RaceType, b: RaceType)
    requires a != b
    ensures Lower(a.Value()) != Lower(b.Value())
  {
    RaceValueLowered(a);
    RaceValueLowered(b);
  }

  /** Emotion values are written in lower case already. */
  lemma EmotionValueLowered(t: EmotionType)
    ensures Lower(t.Value()) == t.Value()
  {
    LowerKeepsLowercase(t.Value());
  }

  /**
   * No two emotion values coincide once lower-cased, so a label names at most one emotion.
   * The same argument as for races, over the emotion values.
   */
  lemma EmotionValuesDistinctLowered(a: EmotionType, b: EmotionType)
    requires a != b
    ensures Lower(a.Value()) != Lower(b.Value())
  {
    EmotionValueLowered(a);
    EmotionValueLowered(b);
  }

  /** The two gender values differ even after lower-casing. */
  lemma GenderValuesDistinctLowered(a: GenderType, b: GenderType)
    requires a != b
    ensures Lower(a.Value()) != Lower(b.Value())
  {
  }

  /**
   * The gender values are capitalised, unlike the analyser's lower-case labels:
   * they only agree after both sides are lower-cased.
   */
  lemma GenderValuesMixedCase()
    ensures Man.Value() != "man" && Lower(Man.Value()) == Lower("man")
    ensures Woman.Value() != "woman" && Lower(Woman.Value()) == Lower("woman")
  {
  }

  /** `chinese_name` is defined for every member and tells the members apart. */
  lemma ChineseNamesDistinct()
    ensures forall a: RaceType, b: RaceType :: a != b ==> a.ChineseName() != b.ChineseName()
    ensures forall a: EmotionType, b: EmotionType :: a != b ==> a.ChineseName() != b.ChineseName()
    ensures forall a: GenderType, b: GenderType :: a != b ==> a.ChineseName() != b.ChineseName()
  {
  }
}
