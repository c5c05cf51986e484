/** The decoded JSON values the remote API hands to the collector. */
module Json {
  import opened Common

  /** A decoded JSON value as Python holds it after `response.json()`.
      Numbers with a fraction part are not part of this model. */
  datatype Value =
    | Null
    | Bool(b: bool)
    | Int(i: int)
    | Str(s: string)
    | List(items: seq<Value>)
    | Dict(fields: seq<Field>)

  /** One key/value pair of a JSON object, in the order it was received. */
  datatype Field = Field(key: string, value: Value)

  /** A JSON object: its fields in insertion order, as a Python dict keeps them. */
  type Record = seq<Field>

  /** `record[key]`: the value stored under `key`, or None where Python raises KeyError. */
  function Lookup(r: Record, key: string): (v: Option<Value>)
    ensures v.None? <==> forall i :: 0 <= i < |r| ==> r[i].key != key
    ensures v.Some? ==> exists i :: 0 <= i < |r| && r[i].key == key && r[i].value == v.value
  {
    if |r| == 0 then None
    else if r[0].key == key then Some(r[0].value)
    else
      var v := Lookup(r[1..], key);
      assert forall i :: 1 <= i < |r| ==> r[i] == r[1..][i - 1];
      v
  }
}
