/**
 * `get_param_value` (server.c:60-78): the raw, still-encoded value of
 * `key=` in an `&`-separated string. The key is found with `strstr`, so
 * `key=` matches at its first occurrence anywhere in the data, also inside
 * a longer key or inside another pair's value; the value runs to the next
 * `&` or to the end.
 */
module Params {
  import opened Wrappers
  import opened CStrings

  /** The text `get_param_value` copies into `dest`. */
  function ParamValue(data: string, key: string): (r: string)
    ensures '&' !in r
    ensures |r| <= |data|
  {
    var pattern := key + "=";
    match FirstOccurrenceFrom(data, pattern, 0)
    case None => ""
    case Some(i) =>
      var start := i + |pattern|;
      match FirstIndexOfFrom(data, '&', start)
      case None => data[start..]
      case Some(e) => data[start..e]
  }

  /** `get_param_value`: `strstr` for `key=`, then `strchr` for the next `&`. */
  method GetParamValue(data: string, key: string) returns (dest: string)
    ensures dest == ParamValue(data, key)
  {
    var queryKey := key + "=";
    var found := FindSubstring(data, queryKey);
    if found.None? {
      return "";
    }
    var start := found.value + |queryKey|;
    var end := FindChar(data, '&', start);
    if end.Some? {
      dest := data[start..end.value];
    } else {
      dest := data[start..];
    }
  }

  /** Without `key=` anywhere in the data the value is empty. */
  lemma ParamValueAbsent(data: string, key: string)
    requires forall j :: !OccursAt(data, key + "=", j)
    ensures ParamValue(data, key) == ""
  {
  }

  /**
   * With the first `key=` at index `i`, the value is the text that follows
   * it up to, and not including, the next `&` or the end of the data.
   */
  lemma ParamValuePresent(data: string, key: string, i: nat)
    requires OccursAt(data, key + "=", i)
    requires forall j :: 0 <= j < i ==> !OccursAt(data, key + "=", j)
    ensures var start, v := i + |key| + 1, ParamValue(data, key);
      start + |v| <= |data| && data[start..start + |v|] == v &&
      (start + |v| == |data| || data[start + |v|] == '&')
  {
    assert FirstOccurrenceFrom(data, key + "=", 0) == Some(i);
  }

  /** The match is a substring match: `client_id=` is found inside `xclient_id=`. */
  lemma ParamValueMatchesInsideLongerKey()
    ensures ParamValue("xclient_id=7&client_id=8", "client_id") == "7"
  {
    var data := "xclient_id=7&client_id=8";
    assert data[0..10][0] != "client_id="[0];
    assert data == "x" + "client_id=" + "7&client_id=8";
    assert data[1..11] == "client_id=";
    assert FirstOccurrenceFrom(data, "client_id=", 0) == Some(1);
    assert FirstIndexOfFrom(data, '&', 11) == Some(12);
  }
}
