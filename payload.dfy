/** The decoded JSON shapes the app reads, reduced to the fields it touches. */
module Payload {

  /** A JSON field that may be absent or `null` (both read back as Python's `None`). */
  datatype Option<+T> = None | Some(value: T)

  /** Success value or error, for the paths where the app raises. */
  datatype Result<+T, +E> = Ok(value: T) | Err(error: E)

  /** One element of the avatar list's `data` array. */
  datatype AvatarItem = AvatarItem(status: Option<string>, poseName: Option<string>, avatarId: Option<string>)

  /** Body of the avatar-list response; only its `data` field is read. */
  datatype AvatarListPayload = AvatarListPayload(data: Option<seq<AvatarItem>>)

  /** One dropdown entry: the `(label, id)` tuple the app builds. */
  datatype Choice = Choice(title: string, id: string)

  /** Python truthiness of an optional string: present and non-empty. */
  predicate Truthy(o: Option<string>)
  {
    o.Some? && o.value != ""
  }
}
