/**
 * The cJSON tree as the web handlers use it: a parsed document, or a
 * document under construction. Numbers are kept as their integer view
 * (cJSON's `valueint`); strings as the bytes of `valuestring`.
 */
module Json {
  import opened CString

  datatype JsonValue =
    | JNull
    | JFalse
    | JTrue
    | JNumber(valueint: int)
    | JString(valuestring: seq<byte>)
    | JArray(items: seq<JsonValue>)
    | JObject(members: seq<Member>)

  /** One named child of an object, in insertion order. */
  datatype Member = Member(name: string, value: JsonValue)

  /**
   * Position of the first member called `name`, or `|members|` when there
   * is none (cJSON scans the children in order and stops at the first match).
   */
  function FirstMember(members: seq<Member>, name: string): (k: nat)
    ensures k <= |members|
    ensures forall j :: 0 <= j < k ==> members[j].name != name
    ensures k < |members| ==> members[k].name == name
  {
    if members == [] then 0
    else if members[0].name == name then 0
    else 1 + FirstMember(members[1..], name)
  }

  /** `k` is the position of the first member called `name`. */
  predicate FirstNamed(members: seq<Member>, name: string, k: int)
  {
    0 <= k < |members| && members[k].name == name && forall j :: 0 <= j < k ==> members[j].name != name
  }

  /**
   * `cJSON_GetObjectItemCaseSensitive`: the first child of an object whose
   * name equals `name`; nothing for a non-object root (the children of an
   * array carry no name) or when no child has that name.
   */
  function GetObjectItem(root: JsonValue, name: string): (r: Option<JsonValue>)
    ensures r.None? <==> !root.JObject? || forall j :: 0 <= j < |root.members| ==> root.members[j].name != name
    ensures r.Some? ==> exists k :: FirstNamed(root.members, name, k) && root.members[k].value == r.value
  {
    if root.JObject? then
      var k := FirstMember(root.members, name);
      if k < |root.members| then Some(root.members[k].value) else None
    else None
  }

  /** The lookup returns the value of the first member with the name, whichever position that is. */
  lemma GetObjectItemFirst(root: JsonValue, name: string, k: int)
    requires root.JObject? && FirstNamed(root.members, name, k)
    ensures GetObjectItem(root, name) == Some(root.members[k].value)
  {
    var r := GetObjectItem(root, name);
    assert r.Some?;
    var k' :| FirstNamed(root.members, name, k') && root.members[k'].value == r.value;
    assert !(k' < k) && !(k < k');
  }

  /** `cJSON_IsString` on a possibly missing item. */
  predicate IsString(item: Option<JsonValue>) { item.Some? && item.value.JString? }

  /** `cJSON_IsNumber` on a possibly missing item. */
  predicate IsNumber(item: Option<JsonValue>) { item.Some? && item.value.JNumber? }
}
