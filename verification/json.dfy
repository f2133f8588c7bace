/** An already-parsed JSON document, in the shape of serde_json's `Value`,
    with the two indexing operators the calldata assembly uses. */
module Json {
  import opened Wrappers

  datatype Value =
    | Null
    | Bool(b: bool)
    | Number(text: string)  // numeric literal as written; never a string to the assembly
    | Str(s: string)
    | Arr(items: seq<Value>)
    | Obj(fields: map<string, Value>)
  {
    /** `value[key]`: the member named `key`, or `Null` when this is not an
        object or has no such member (indexing never fails). */
    function Get(key: string): Value
    {
      if Obj? && key in fields then fields[key] else Null
    }

    /** `value[i]`: the element at position `i`, or `Null` when this is not an
        array or `i` is past its end. */
    function At(i: nat): Value
    {
      if Arr? && i < |items| then items[i] else Null
    }

    /** `as_str()`: the text of a JSON string, and nothing for any other kind. */
    function AsStr(): Option<string>
    {
      if Str? then Some(s) else None
    }
  }
}
