/** The entity record of the zone: its key and the double-buffered set of
    keys it can see. */
module Entity {

  /** The entity record: its key and its double-buffered view-set. The
      values of its two axis nodes are held by the zone, under its key. */
  class AoiEntity {
    const Key: int
    var ViewEntity: set<int>
    var ViewEntityBak: set<int>

    /** A record fetched for `key`, with empty buffers. */
    constructor (key: int)
      ensures Key == key && ViewEntity == {} && ViewEntityBak == {}
    {
      Key := key;
      ViewEntity := {};
      ViewEntityBak := {};
    }

    /** Clears the back buffer and swaps it with the current one: the old
        view-set becomes the back buffer, the current buffer starts empty. */
    method SwapViewEntity()
      modifies this`ViewEntity, this`ViewEntityBak
      ensures ViewEntity == {} && ViewEntityBak == old(ViewEntity)
    {
      ViewEntityBak := {};
      ViewEntity, ViewEntityBak := ViewEntityBak, ViewEntity;
    }
  }
}
