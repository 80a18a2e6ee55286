/** What both storage engines share: items, when they expire, and the errors. */
module Storage {
  import opened Prelude

  type Bytes = seq<byte>

  datatype StoredItem = StoredItem(expireAt: int, version: int, value: Bytes)

  /** An expiry time of zero means never. */
  predicate Expired(expireAt: int, now: int) {
    expireAt != 0 && now > expireAt
  }

  datatype Error = ErrEmptyKey | ErrNilItem | ErrMemoryLimit | ErrNotFound | ErrExpired | ErrCorrupt

  datatype Result<T> = Ok(value: T) | Err(error: Error)
}
