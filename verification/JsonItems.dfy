/** The cJSON item (cJSON.h): a value, a name, and links to its neighbours and its first child. */
module JsonItems {
  import opened Bytes
  import opened Options

  datatype Kind =
    | NoKind
    | FalseKind
    | TrueKind
    | NullKind
    | NumberKind
    | StringKind
    | ArrayKind
    | ObjectKind

  class Item {
    var kind: Kind
    var valueString: Option<seq<byte>>
    var valueInt: int
    var valueDouble: real
    var name: Option<seq<byte>>
    var next: Item?
    var prev: Item?
    var child: Item?

    /** cJSON_New_Item */
    constructor ()
      ensures kind == NoKind && valueString == None && valueInt == 0 && valueDouble == 0.0 && name == None
      ensures next == null && prev == null && child == null
    {
      kind, valueString, valueInt, valueDouble, name := NoKind, None, 0, 0.0, None;
      next, prev, child := null, null, null;
    }
  }
}
