/** The trees a wxJSONValue stands for once sharing and reference counts are forgotten. */
module JsonValue {
  import opened Bytes
  import opened Decimal

  type Text = seq<Byte>

  datatype JValue =
    | Invalid
    | Null
    | Bool(b: bool)
    | Int(i: int)
    | UInt(u: nat)
    | Double(d: real)
    | Str(s: Text)
    | Arr(items: seq<JValue>)
    | Obj(members: map<Text, JValue>)
    | Buff(bytes: Text)
  {
    predicate IsValid() {
      !Invalid?
    }
  }

  /** SetType to the array or object type: the old content survives only when the type already fits. */
  function ToArray(v: JValue): JValue {
    if v.Arr? then v else Arr([])
  }

  function ToObject(v: JValue): JValue {
    if v.Obj? then v else Obj(map[])
  }

  /** What a clone of shared data holds: everything but the bytes of a memory buffer, which are lost. */
  function Cloned(v: JValue): JValue {
    if v.Buff? then Buff([]) else v
  }

  /** ItemAt on a name: a missing name yields an invalid value. */
  function Lookup(m: map<Text, JValue>, k: Text): JValue {
    if k in m then m[k] else Invalid
  }

  /** Every integer fits the 64-bit field that holds it. */
  ghost predicate In64Bits(v: JValue) {
    match v
    case Int(i) => -TWO63 <= i < TWO63
    case UInt(u) => u < TWO64
    case Arr(items) => forall i :: 0 <= i < |items| ==> In64Bits(items[i])
    case Obj(m) => forall k :: k in m ==> In64Bits(m[k])
    case _ => true
  }
}
