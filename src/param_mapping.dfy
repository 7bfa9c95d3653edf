/** `PARAM_MAPPINGS` and `get_mapped_value`: the translation of user-facing
    option words ("latest", "week", "doujin", ...) into the provider's
    constants. The provider's constants are kept opaque: only their
    distinctness matters. */
module ParamMapping {
  import opened Wrappers
  import opened Names

  datatype MagicConstant =
    | OrderByLatest | OrderByView | OrderByPicture | OrderByLike
    | TimeToday | TimeWeek | TimeMonth | TimeAll
    | CategoryAll | CategoryDoujin | CategorySingle | CategoryShort | CategoryAnother
    | CategoryHanman | CategoryMeiman | CategoryDoujinCosplay | Category3D | CategoryEnglishSite

  /** A Python dict literal: its keys in insertion order with their values. */
  type Mapping = seq<(string, MagicConstant)>

  /** `PARAM_MAPPINGS.get(param_type, {})`. */
  function ParamMappings(paramType: string): Mapping {
    if paramType == "order" then
      [("latest", OrderByLatest), ("view", OrderByView), ("picture", OrderByPicture), ("like", OrderByLike)]
    else if paramType == "time" then
      [("today", TimeToday), ("week", TimeWeek), ("month", TimeMonth), ("all", TimeAll)]
    else if paramType == "category" then
      [("all", CategoryAll), ("doujin", CategoryDoujin), ("single", CategorySingle),
       ("short", CategoryShort), ("another", CategoryAnother), ("hanman", CategoryHanman),
       ("meiman", CategoryMeiman), ("doujin_cosplay", CategoryDoujinCosplay), ("3d", Category3D),
       ("english_site", CategoryEnglishSite)]
    else
      []
  }

  /** `mapping.get(key)`, `None` meaning absent. */
  function Get(m: Mapping, key: string): (r: Option<MagicConstant>)
    ensures r.Some? <==> exists i :: 0 <= i < |m| && m[i].0 == key
    ensures r.Some? ==> exists i :: 0 <= i < |m| && m[i] == (key, r.value)
  {
    if m == [] then None
    else if m[0].0 == key then Some(m[0].1)
    else
      var r := Get(m[1..], key);
      assert forall i :: 1 <= i < |m| ==> m[i] == m[1..][i - 1];
      r
  }

  /** `get_mapped_value(param_type, user_value, default_key)`. */
  function GetMappedValue(paramType: string, userValue: string, defaultKey: string): MagicConstant {
    var mapping := ParamMappings(paramType);
    match Get(mapping, Lower(userValue))
    case Some(v) => v
    case None =>
      match Get(mapping, defaultKey)
      case Some(v) => v
      case None =>
        if mapping != [] then mapping[0].1
        else if paramType == "category" then CategoryAll
        else if paramType == "time" then TimeAll
        else OrderByLatest
  }

  /** The lookup chain: the lower-cased user word when it is a key, else the
      default key when it is a key, else the first entry; for a known parameter type the
      result is always one of its table's values. */
  lemma MappedValueSpec(paramType: string, userValue: string, defaultKey: string)
    ensures var m, r := ParamMappings(paramType), GetMappedValue(paramType, userValue, defaultKey);
      && (forall i :: 0 <= i < |m| && m[i].0 == Lower(userValue) ==> r == m[i].1)
      && ((forall i :: 0 <= i < |m| ==> m[i].0 != Lower(userValue)) ==>
            forall i :: 0 <= i < |m| && m[i].0 == defaultKey ==> r == m[i].1)
      && ((forall i :: 0 <= i < |m| ==> m[i].0 != Lower(userValue) && m[i].0 != defaultKey) && m != [] ==>
            r == m[0].1)
      && (m != [] ==> exists i :: 0 <= i < |m| && r == m[i].1)
  {
    var m := ParamMappings(paramType);
    KeysDistinct(paramType);
    if m != [] {
      match Get(m, Lower(userValue))
      case Some(v) =>
      case None =>
        match Get(m, defaultKey)
        case Some(v) =>
        case None => assert GetMappedValue(paramType, userValue, defaultKey) == m[0].1;
    }
  }

  /** The keys of every table are distinct and written in lower case, as a
      Python dict literal over lower-case words is. */
  lemma KeysDistinct(paramType: string)
    ensures var m := ParamMappings(paramType);
      forall i, j :: 0 <= i < j < |m| ==> m[i].0 != m[j].0
    ensures var m := ParamMappings(paramType);
      forall i :: 0 <= i < |m| ==> Lower(m[i].0) == m[i].0
  {
    var m := ParamMappings(paramType);
    forall i | 0 <= i < |m| ensures Lower(m[i].0) == m[i].0 {
      var w := m[i].0;
      assert forall k :: 0 <= k < |w| ==> !('A' <= w[k] <= 'Z');
      assert Lower(w) == w;
    }
  }

  /** The user's word is matched case-insensitively: "LATEST" and "latest"
      select the same constant. */
  lemma CaseInsensitive(paramType: string, userValue: string, defaultKey: string)
    ensures GetMappedValue(paramType, userValue, defaultKey) == GetMappedValue(paramType, Lower(userValue), defaultKey)
  {
    LowerIdempotent(userValue);
  }

  /** "order" has no key "all", so an unknown ordering word with the default
      default key falls through to the table's first value, "latest". */
  lemma UnknownOrderIsLatest(userValue: string)
    requires forall i :: 0 <= i < |ParamMappings("order")| ==> ParamMappings("order")[i].0 != Lower(userValue)
    ensures GetMappedValue("order", userValue, "all") == OrderByLatest
  {
  }

  /** The last-resort constants depend on `param_type`, but only a type
      without a table reaches them, and such a type is neither "category" nor
      "time": the result is then always the "latest" ordering. */
  lemma UnknownTypeIsLatest(paramType: string, userValue: string, defaultKey: string)
    requires paramType != "order" && paramType != "time" && paramType != "category"
    ensures GetMappedValue(paramType, userValue, defaultKey) == OrderByLatest
  {
  }
}
