/** JSON documents as trees; integers and other numbers are told apart as serde does. */
module Json {
  import opened Common

  datatype Json =
    | Null
    | Bool(b: bool)
    | Int(n: int)
    | Float(x: real)
    | Str(s: string)
    | Arr(items: seq<Json>)
    | Obj(fields: map<string, Json>)
  {
    /** The field of that name, if this is an object that has one. */
    function Get(key: string): Option<Json> {
      if Obj? && key in fields then Some(fields[key]) else None
    }

    function AsStr(): Option<string> {
      if Str? then Some(s) else None
    }

    function AsU64(): Option<nat> {
      if Int? && 0 <= n < 0x1_0000_0000_0000_0000 then Some(n) else None
    }

    function AsF64(): Option<real> {
      if Int? then Some(n as real) else if Float? then Some(x) else None
    }

    function AsArray(): Option<seq<Json>> {
      if Arr? then Some(items) else None
    }
  }

  function GetStr(j: Json, key: string): Option<string> {
    match j.Get(key)
    case None => None
    case Some(v) => v.AsStr()
  }

  /** How a JavaScript number is written: without a point when it is whole. */
  function Number(x: real): Json {
    if x.Floor as real == x then Int(x.Floor) else Float(x)
  }
}
