/** Byte images of records padded to 8 bytes, with zero words in between. */
module Layout {
  import opened Bytes
  import opened Sequences

  datatype Item = Gap | Record(bytes: seq<byte>, padding: seq<byte>)

  function ItemImage(item: Item): seq<byte> {
    if item.Gap? then Zeroes(8) else item.bytes + item.padding
  }

  function Image(items: seq<Item>): seq<byte> {
    if items == [] then [] else ItemImage(items[0]) + Image(items[1..])
  }

  predicate ItemAt(s: seq<byte>, pos: nat, item: Item) {
    pos + |ItemImage(item)| <= |s| && s[pos..pos + |ItemImage(item)|] == ItemImage(item)
  }

  /** The bytes of a record stand at the start of its image. */
  lemma RecordBytesAt(s: seq<byte>, pos: nat, item: Item)
    requires item.Record? && ItemAt(s, pos, item)
    ensures pos + |item.bytes| <= |s| && s[pos..pos + |item.bytes|] == item.bytes
  {
    SliceOfSlice(s, pos, pos + |ItemImage(item)|, 0, |item.bytes|);
    assert ItemImage(item)[0..|item.bytes|] == item.bytes;
  }

  function Places(s: seq<byte>): (nat, Item) -> bool {
    (pos: nat, item: Item) => ItemAt(s, pos, item)
  }

  /** From `pos` to `limit`, each item where the one before it ends, `at` holds. */
  ghost predicate Along(at: (nat, Item) -> bool, limit: nat, pos: nat, items: seq<Item>)
    decreases |items|
  {
    if items == [] then pos == limit
    else at(pos, items[0]) && Along(at, limit, pos + |ItemImage(items[0])|, items[1..])
  }

  lemma {:induction false} AlongForward(at: (nat, Item) -> bool, limit: nat, pos: nat, items: seq<Item>)
    requires Along(at, limit, pos, items)
    ensures pos <= limit
    decreases |items|
  {
    if items != [] {
      AlongForward(at, limit, pos + |ItemImage(items[0])|, items[1..]);
    }
  }

  ghost predicate Implies(at: (nat, Item) -> bool, other: (nat, Item) -> bool, items: seq<Item>) {
    forall p, item :: item in items && at(p, item) ==> other(p, item)
  }

  lemma {:induction false} AlongImplies(at: (nat, Item) -> bool, other: (nat, Item) -> bool, limit: nat, pos: nat,
                                        items: seq<Item>)
    requires Along(at, limit, pos, items)
    requires Implies(at, other, items)
    ensures Along(other, limit, pos, items)
    decreases |items|
  {
    if items != [] {
      assert items[0] in items && Implies(at, other, items[1..]);
      AlongImplies(at, other, limit, pos + |ItemImage(items[0])|, items[1..]);
    }
  }

  lemma {:induction false} FirstItemPlaced(s: seq<byte>, pos: nat, items: seq<Item>, rest: seq<byte>)
    requires items != [] && pos <= |s| && s[pos..] == Image(items) + rest
    ensures ItemAt(s, pos, items[0]) && s[pos + |ItemImage(items[0])|..] == Image(items[1..]) + rest
  {
    Reassociate(ItemImage(items[0]), Image(items[1..]), rest);
    SplitInPlace(s, pos, ItemImage(items[0]), Image(items[1..]) + rest);
  }

  lemma {:induction false} ImageIsPlaced(s: seq<byte>, pos: nat, items: seq<Item>, rest: seq<byte>)
    requires pos <= |s| && s[pos..] == Image(items) + rest
    ensures Along(Places(s), |s| - |rest|, pos, items)
    decreases |items|
  {
    if items != [] {
      FirstItemPlaced(s, pos, items, rest);
      ImageIsPlaced(s, pos + |ItemImage(items[0])|, items[1..], rest);
    }
  }
}
