/** The tree of data items of a record, and the storage its items take. */
module DataItems {
  import opened Options

  /** An item that shares or regroups other storage takes none of its own. */
  datatype Clause = Plain | Redefines | Renames

  datatype Item = Item(name: string, body: Body, occurs: Option<nat>, depending: Option<string>, clause: Clause)

  /** An elementary DISPLAY item, or a group with the size computed when it was lowered. */
  datatype Body = Elementary(size: nat, separateSign: bool) | Group(members: seq<Item>, size: nat)

  function Count(item: Item): nat {
    match item.occurs case Some(n) => n case None => 1
  }

  /** `data_item_byte_size`: a separate sign is not counted. */
  function ByteSize(b: Body): nat { b.size }

  /** `data_item_storage_size`: one occurrence, with its separate sign. */
  function StorageSize(item: Item): nat {
    match item.body
    case Elementary(size, separateSign) => if separateSign then size + 1 else size
    case Group(_, size) => size
  }

  /** The storage of the items of one level, one after the other. */
  function Total(items: seq<Item>): nat {
    if items == [] then 0
    else (if items[0].clause.Plain? then StorageSize(items[0]) * Count(items[0]) else 0) + Total(items[1..])
  }

  /** Every group is as large as its members together, and every table has an element. */
  predicate Sized(items: seq<Item>) {
    forall item :: item in items ==> SizedItem(item)
  }

  predicate SizedItem(item: Item) {
    && Count(item) > 0
    && match item.body
       case Elementary(_, _) => true
       case Group(members, size) => size == Total(members) && forall m :: m in members ==> SizedItem(m)
  }

  /** No item redefines other storage. */
  predicate NoRedefines(items: seq<Item>) {
    forall item :: item in items ==> NoRedefinesIn(item)
  }

  predicate NoRedefinesIn(item: Item) {
    && !item.clause.Redefines?
    && match item.body
       case Elementary(_, _) => true
       case Group(members, _) => forall m :: m in members ==> NoRedefinesIn(m)
  }
}
