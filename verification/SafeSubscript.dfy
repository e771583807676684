/** The `Collection` extension at the end of Sources/Protocols/HTTP/Models/HTTPHeader.swift. */
module Collections {
  import opened Wrappers

  /** `collection[safe: index]`: the element when `index` is a valid index, otherwise `nil`. */
  function Safe<T>(s: seq<T>, index: int): (r: Option<T>)
    ensures r.Some? <==> 0 <= index < |s|
    ensures r.Some? ==> r.value == s[index]
  {
    if 0 <= index < |s| then Some(s[index]) else None
  }
}
