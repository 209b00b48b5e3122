/** Pages as the data structures above the log see them: bytes with little-endian fields. */
module Pages {
  import opened Bytes
  import opened BufferPool

  /** All pages of the data file; those never written are zero. */
  type Store = map<nat, Page>

  /** The unsigned field of `width` bytes at `offset` of a page. */
  function Field(store: Store, page: nat, offset: nat, width: nat): nat
    requires offset + width <= PAGE_SIZE
  {
    FromLittleEndian(FilePage(store, page)[offset..offset + width])
  }

  function WithBytes(store: Store, page: nat, offset: nat, data: seq<Byte>): Store
    requires offset + |data| <= PAGE_SIZE
  {
    store[page := Splice(FilePage(store, page), offset, data)]
  }

  function WithField(store: Store, page: nat, offset: nat, width: nat, value: nat): Store
    requires offset + width <= PAGE_SIZE
  {
    WithBytes(store, page, offset, LittleEndian(value, width))
  }

  function Cleared(store: Store, page: nat): Store {
    store[page := ZERO_PAGE]
  }

  lemma FieldOfWritten(store: Store, page: nat, offset: nat, width: nat, value: nat)
    requires offset + width <= PAGE_SIZE && value < Pow256(width)
    ensures Field(WithField(store, page, offset, width, value), page, offset, width) == value
  {
    FromToLittleEndian(value, width);
    var bytes := LittleEndian(value, width);
    assert FilePage(WithField(store, page, offset, width, value), page)[offset..offset + width] == bytes;
  }

  /** A field that does not overlap what is written, or is on another page, keeps its value. */
  lemma FieldElsewhere(store: Store, page: nat, offset: nat, data: seq<Byte>, page': nat, offset': nat, width': nat)
    requires offset + |data| <= PAGE_SIZE && offset' + width' <= PAGE_SIZE
    requires page != page' || offset + |data| <= offset' || offset' + width' <= offset
    ensures Field(WithBytes(store, page, offset, data), page', offset', width') == Field(store, page', offset', width')
  {
    assert FilePage(WithBytes(store, page, offset, data), page')[offset'..offset' + width']
        == FilePage(store, page')[offset'..offset' + width'];
  }

  lemma {:induction false} ZerosAreZero(n: nat)
    ensures FromLittleEndian(Zeros(n)) == 0
  {
    if n > 0 {
      assert Zeros(n)[1..] == Zeros(n - 1);
      ZerosAreZero(n - 1);
    }
  }

  lemma FieldOfZero(store: Store, page: nat, offset: nat, width: nat)
    requires offset + width <= PAGE_SIZE && FilePage(store, page) == ZERO_PAGE
    ensures Field(store, page, offset, width) == 0
  {
    assert FilePage(store, page)[offset..offset + width] == Zeros(width);
    ZerosAreZero(width);
  }

  /** The pages as one transaction reads and writes them. */
  class Transaction {
    var store: Store

    constructor (store: Store)
      ensures this.store == store
    {
      this.store := store;
    }

    method Write(page: nat, offset: nat, data: seq<Byte>)
      requires offset + |data| <= PAGE_SIZE
      modifies this
      ensures store == WithBytes(old(store), page, offset, data)
    {
      store := WithBytes(store, page, offset, data);
    }

    method WriteField(page: nat, offset: nat, width: nat, value: nat)
      requires offset + width <= PAGE_SIZE
      modifies this
      ensures store == WithField(old(store), page, offset, width, value)
    {
      store := WithField(store, page, offset, width, value);
    }

    method Clear(page: nat)
      modifies this
      ensures store == Cleared(old(store), page)
    {
      store := Cleared(store, page);
    }
  }
}
