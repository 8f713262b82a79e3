// JSON values as `serde_json::Value` holds them: objects have unique, unordered names.

module JsonValue {
  import opened Basics

  datatype Json =
    | Null
    | Bool(flag: bool)
    | Number(number: real)
    | String(text: string)
    | Array(items: seq<Json>)
    | Object(members: map<string, Json>)
  {
    /** The member `name`, if this is an object that has it. */
    function Get(name: string): Option<Json> {
      if Object? && name in members then Some(members[name]) else None
    }

    /** The member `name`, or null: what indexing with a name reads. */
    function At(name: string): Json {
      if Object? && name in members then members[name] else Null
    }

    /** The item `i`, or null: what indexing with a position reads. */
    function Item(i: nat): Json {
      if Array? && i < |items| then items[i] else Null
    }
  }

  function AsText(value: Option<Json>): Option<string> {
    match value
    case Some(String(s)) => Some(s)
    case _ => None
  }

  function AsItems(value: Option<Json>): seq<Json> {
    match value
    case Some(Array(items)) => items
    case _ => []
  }

  type Extras = map<string, Json>
}
