/** The in-memory form of one file as the command line sees it: the header
    ("cookie") and the insertion-ordered dictionary of blocks, keyed by
    "type.index" strings. The payloads are opaque to the command line, so
    their type is a parameter. */
module Sgff {
  import OrderedDict

  /** The file header; the command line copies it without looking inside. */
  datatype Cookie = Cookie(typeOfSequence: int, exportVersion: int, importVersion: int)

  class SgffObject<V> {
    var cookie: Cookie
    var blocks: OrderedDict.Dict<string, V>

    /** A dictionary never holds a key twice. */
    ghost predicate Valid()
      reads this
    {
      OrderedDict.DistinctKeys(blocks)
    }

    /** `SgffObject(cookie=cookie)`: a file with the given header and no blocks. */
    constructor (cookie: Cookie)
      ensures Valid()
      ensures this.cookie == cookie && blocks == []
    {
      this.cookie := cookie;
      blocks := [];
    }

    /** `self.blocks[key] = value`. */
    method SetBlock(key: string, value: V)
      requires Valid()
      modifies this
      ensures Valid()
      ensures cookie == old(cookie)
      ensures blocks == OrderedDict.Set(old(blocks), key, value)
    {
      blocks := OrderedDict.Set(blocks, key, value);
    }
  }
}
