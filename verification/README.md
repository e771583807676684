# Telegraph HTTP headers and URI, modelled in Dafny

This project models two data-model pieces of Telegraph's HTTP layer and proves what they promise.

**The header collection** (`Sources/Protocols/HTTP/Models/HTTPHeader.swift`) has two parts.
- `HTTPHeaderName` keeps a header name as supplied. It compares and hashes by the name's lowercase form only, because header field names are case-insensitive (section 3.2 of RFC 7230).
- `HTTPHeaders` keeps a lookup table keyed by name and, beside it, an insertion-ordered list of (name, value) entries. The list is public (`HTTPHeader.swift:14`), so readers of it see every entry it holds. A single mutator, `updateOrderHeader`, changes both:
  - setting an ordinary header that is already present moves it to the end of the list;
  - setting `Set-Cookie` appends a new entry and keeps the earlier ones;
  - setting `nil` removes the table entry and only the *first* list entry with that name.

**The `URI` value type** (`Sources/Transport/URI.swift`):
- its path always starts with `/`;
- `relativePath(from:)` cuts out the first occurrence of a substring;
- the query renderer of `description` percent-encodes each query item with `afURLQueryAllowed` and joins the items as `name=value` pairs separated by `&`.

Files:
- `Wrappers.dfy`: `Option`.
- `Ascii.dfy` (module `Ascii`): the ASCII character classes (upper case, letter, digit) both other modules use.
- `HTTPHeaderName.dfy` (module `HTTPHeaderNames`): ASCII lowercasing and the `HeaderName` datatype. Its `nameInLowercase` is a `const` computed from `name`, as the source's `init` does. Swift's `==` is the predicate `Equals`.
- `HTTPHeaders.dfy` (module `Headers`): the pure model and the class.
  - `Store` is the pair (table, order list) as a value. `Store.Update` is `updateOrderHeader`. `Inv` is the invariant that ties the two structures together.
  - The class `HTTPHeaders` keeps `headers: map<string, string>` (keyed by the lowercase name) and `orderHeaders: seq<(HeaderName, string)>` as fields.
  - Its mutating methods edit the fields in place and are proved against `Store.Update`.
- `SafeSubscript.dfy` (module `Collections`): the `safe` subscript.
- `URI.dfy` (module `URIs`): the URI value, path normalisation, `relativePath` and the query part of `description`.
- `QueryEncoding.dfy` (module `QueryEncoding`): the character set, percent-encoding to UTF-8 bytes as `%HH`, decoding, item rendering, joining and splitting.

Behaviour worth knowing, as the code has it:
- `count` is the size of the lookup table, not the length of the order list (`HTTPHeader.swift:27-29`), so two Set-Cookie entries count once.
- `init` first assigns the whole dictionary to the table. Only then does it call the setter once per entry. So "already present" is true for every entry, yet no list entry is removed, because the list does not hold that name yet. The constructor reproduces this literally.
- Deleting `Set-Cookie` when it has two entries removes only the first entry. Afterwards the getter returns `nil`, but the order list, which is public (`HTTPHeader.swift:14`), still holds the second entry, so readers of the list still see it. Lemma `DeleteSetCookieKeepsLaterEntry` shows this.
- `relativePath` removes the first occurrence of its argument anywhere in the path, not only at the start.

## Model

| member | source | states |
|---|---|---|
| HTTPHeaderNames.Lower | Sources/Protocols/HTTP/Models/HTTPHeader.swift:76 | lowercasing keeps the length and lowers each character; only 'A'..'Z' change |
| HTTPHeaderNames.LowerIdempotent | Sources/Protocols/HTTP/Models/HTTPHeader.swift:76 | lowercasing an already lowercase name changes nothing |
| HTTPHeaderNames.LowerCharMatch | Sources/Protocols/HTTP/Models/HTTPHeader.swift:80-82 | two characters lowercase alike exactly when they are equal or the same letter in the other case |
| HTTPHeaderNames.LowerEqualIff | Sources/Protocols/HTTP/Models/HTTPHeader.swift:76 | two strings lowercase alike exactly when they differ at most in letter case |
| HTTPHeaderNames.HeaderName.Equals | Sources/Protocols/HTTP/Models/HTTPHeader.swift:80-82 | `==` holds exactly when the two spellings differ at most in letter case |
| HTTPHeaderNames.HeaderName.HashInput | Sources/Protocols/HTTP/Models/HTTPHeader.swift:85-87 | the hasher is fed the lowercase form: as long as the name, free of upper-case letters, and the same for every case variant of the name |
| HTTPHeaderNames.NameEquality | Sources/Protocols/HTTP/Models/HTTPHeader.swift:74-95 | two names built from `a` and `b` are `==` exactly when `a` and `b` differ only in letter case; they are `==` exactly when they feed the same input to the hasher; `description` returns the name as supplied |
| HTTPHeaderNames.EqualsIsEquivalence | Sources/Protocols/HTTP/Models/HTTPHeader.swift:80-82 | `==` on names is reflexive, symmetric and transitive |
| HTTPHeaderNames.HeaderName.Description | Sources/Protocols/HTTP/Models/HTTPHeader.swift:93-95 | `description` is the original spelling |
| Headers.Store.Update | Sources/Protocols/HTTP/Models/HTTPHeader.swift:46-66 | `updateOrderHeader`: afterwards the getter returns exactly the new value (`nil` after a delete) and every other name reads as before; a set value is the last list entry; a delete removes at most one entry |
| Headers.Store.Count | Sources/Protocols/HTTP/Models/HTTPHeader.swift:27-29 | `count` is the table size, which under the invariant never exceeds the list length |
| Headers.Store.Lookup | Sources/Protocols/HTTP/Models/HTTPHeader.swift:31-44 | the getters: a value exactly when the lowercase name is in the table, and then the table's value |
| Headers.FirstIndex | Sources/Protocols/HTTP/Models/HTTPHeader.swift:53 | `firstIndex(where:)`: `nil` exactly when no entry has the name; otherwise an entry with the name, and no earlier one has it |
| Headers.RemoveFirstTakesFirst | Sources/Protocols/HTTP/Models/HTTPHeader.swift:53-54 | removing the first entry of a name gives the list with its first entry of the name taken out (`firstIndex(where:)` then `remove(at:)`); unchanged when no entry has that name |
| Headers.RemoveFirstOccurrences | Sources/Protocols/HTTP/Models/HTTPHeader.swift:53-54 | `remove(at:)` at the first match takes one occurrence of that name away, if there is one, and none of any other name |
| Headers.RemoveFirstLastValue | Sources/Protocols/HTTP/Models/HTTPHeader.swift:61-64 | removing the first entry of one name leaves the last value of every other name as it was |
| Headers.RemoveFirstOthers | Sources/Protocols/HTTP/Models/HTTPHeader.swift:61-64 | removing the first entry of a name leaves the entries of all other names, in their order |
| Headers.UpdatePreservesInv | Sources/Protocols/HTTP/Models/HTTPHeader.swift:46-66 | every set and every delete keeps the invariant: a name other than Set-Cookie has one list entry if it is in the table and none otherwise; the table's value for any name is the value of that name's last list entry |
| Headers.SetPreservesInv | Sources/Protocols/HTTP/Models/HTTPHeader.swift:48-58 | setting a value keeps the invariant |
| Headers.DeletePreservesInv | Sources/Protocols/HTTP/Models/HTTPHeader.swift:59-64 | setting `nil` keeps the invariant |
| Headers.InitInv | Sources/Protocols/HTTP/Models/HTTPHeader.swift:16-21 | the table and list that `init` leaves behind satisfy the invariant |
| Headers.TableOfEntry | Sources/Protocols/HTTP/Models/HTTPHeader.swift:17 | every name of the initial dictionary is in the table, with its value |
| Headers.LookupIgnoresCase | Sources/Protocols/HTTP/Models/HTTPHeader.swift:31-44 | after `self[a] = v`, looking up any case variant of `a` gives `v` |
| Headers.SetNewName | Sources/Protocols/HTTP/Models/HTTPHeader.swift:49-58 | setting an absent name appends exactly one entry at the end, keeps all earlier entries in order, raises `count` by one, and the getter returns the value |
| Headers.SetPresentName | Sources/Protocols/HTTP/Models/HTTPHeader.swift:49-58 | re-setting a present name other than Set-Cookie has these effects: the name has one entry, now last, holding the new value; the other entries keep their order; the list length and `count` are unchanged |
| Headers.SetCookieAppends | Sources/Protocols/HTTP/Models/HTTPHeader.swift:52-58 | setting Set-Cookie appends one entry and removes none; the getter gives the newest value; `count` grows only if Set-Cookie was not yet in the table |
| Headers.DeleteName | Sources/Protocols/HTTP/Models/HTTPHeader.swift:59-64 | setting `nil` removes the name from the lookup (`count` drops by one if it was there) and removes from the list exactly the first entry of that name, leaving the list as it was when there is none; all other entries and lookups stay |
| Headers.DeleteAbsentName | Sources/Protocols/HTTP/Models/HTTPHeader.swift:59-64 | deleting a name that is in neither the table nor the list changes nothing |
| Headers.DeleteAbsentOrdinaryName | Sources/Protocols/HTTP/Models/HTTPHeader.swift:59-64 | under the invariant, deleting an absent name other than Set-Cookie changes nothing |
| Headers.DeleteSetCookieKeepsLaterEntry | Sources/Protocols/HTTP/Models/HTTPHeader.swift:59-64 | Set-Cookie set twice, then deleted: the getter returns `nil`, but the list still holds the second entry |
| Headers.SetCookieSpelling | Sources/Protocols/HTTP/Models/HTTPHeader.swift:52 | the name "Set-Cookie" is the Set-Cookie name under case-insensitive comparison |
| Headers.CountAtMostEntries | Sources/Protocols/HTTP/Models/HTTPHeader.swift:27-29 | `count` (the table size) never exceeds the number of list entries |
| Headers.HTTPHeaders.constructor | Sources/Protocols/HTTP/Models/HTTPHeader.swift:16-21 | `init` leaves the table equal to the dictionary and the list holding its entries in iteration order; the invariant holds |
| Headers.HTTPHeaders.Count | Sources/Protocols/HTTP/Models/HTTPHeader.swift:27-29 | `count` of the object: the table size, never more than the entries of the order list while the invariant holds |
| Headers.HTTPHeaders.Get | Sources/Protocols/HTTP/Models/HTTPHeader.swift:31-32 | the `String` getter looks the lowercased key up in the table |
| Headers.HTTPHeaders.GetName | Sources/Protocols/HTTP/Models/HTTPHeader.swift:39-40 | the `HTTPHeaderName` getter looks its lowercase form up in the table |
| Headers.HTTPHeaders.Set | Sources/Protocols/HTTP/Models/HTTPHeader.swift:33-36 | the `String` setter wraps the key and updates both fields as `updateOrderHeader` does, keeping the invariant |
| Headers.HTTPHeaders.SetName | Sources/Protocols/HTTP/Models/HTTPHeader.swift:41-43 | the `HTTPHeaderName` setter updates both fields as `updateOrderHeader` does, keeping the invariant |
| Headers.HTTPHeaders.UpdateOrderHeader | Sources/Protocols/HTTP/Models/HTTPHeader.swift:46-66 | the in-place edits of the table and the list give exactly the state `Store.Update` describes |
| Collections.Safe | Sources/Protocols/HTTP/Models/HTTPHeader.swift:122-124 | `collection[safe: i]` is the element exactly when `i` is a valid index, and `nil` otherwise |
| URIs.NormalizedPath | Sources/Transport/URI.swift:43 | the stored path starts with "/"; "/" is prepended only when missing |
| URIs.Make | Sources/Transport/URI.swift:15-19 | `init(path:query:)` stores the normalised path and the query as given |
| URIs.WithPath | Sources/Transport/URI.swift:41-44 | the path setter stores the normalised path (starting with "/") and leaves the query alone |
| URIs.WithQuery | Sources/Transport/URI.swift:47-50 | the query setter replaces the query and leaves the path alone |
| URIs.SetNormalizedPath | Sources/Transport/URI.swift:40-43 | assigning any path that already starts with "/" stores it unchanged and keeps the query |
| URIs.NormalizedPathIdempotent | Sources/Transport/URI.swift:43 | normalising an already-normalised path changes nothing |
| URIs.SetOwnPath | Sources/Transport/URI.swift:40-43 | assigning a URI its own (normalised) path stores it unchanged |
| URIs.DefaultIsRoot | Sources/Transport/URI.swift:61 | `init()` equals `URI.root` (the constant `URIs.Root`), whose path is "/" and which has no query |
| URIs.MakeAddsSlash | Sources/Transport/URI.swift:15-19 | `URI(path: "foo")` has the path "/foo" |
| URIs.FindFirst | Sources/Transport/URI.swift:69 | `range(of:)`: `nil` exactly when the argument is empty or does not occur; otherwise the first position at which it occurs |
| URIs.DropLeadingSlash | Sources/Transport/URI.swift:73 | removes one "/" when the string starts with it, otherwise nothing |
| URIs.RelativePath | Sources/Transport/URI.swift:65-76 | `nil` exactly when the argument is empty or does not occur in the path; otherwise the path with its first occurrence cut out, less at most one leading "/" |
| URIs.RelativePathOfPrefix | Sources/Transport/URI.swift:63-76 | when the path starts with the argument, the result is the rest of the path, less one leading "/" |
| URIs.RelativePathExamples | Sources/Transport/URI.swift:63-64 | "/files/today" from "/files" gives "today"; "/today" from "/files" gives `nil` |
| URIs.RelativePathCutsInside | Sources/Transport/URI.swift:69-70 | the occurrence removed need not be at the start: "/a/files/b" from "files" gives "a//b" |
| URIs.DescriptionQuery | Sources/Transport/URI.swift:82-90 | with query items present, `description` uses the encoded and joined items as the query; without them, nothing replaces the query |
| QueryEncoding.Allowed | Sources/Transport/URI.swift:106-111 | `afURLQueryAllowed`, built as `urlQueryAllowed` minus ":#[]@!$&'()*+,;=", is exactly ASCII letters, digits, "-._~", "/" and "?" |
| QueryEncoding.RenderItem | Sources/Transport/URI.swift:83-86 | the `map` closure: a rendered item holds no "&", and its only "=" is the one right after the encoded name |
| QueryEncoding.Join | Sources/Transport/URI.swift:89 | `joined(separator:)`: no pieces give "", one piece gives itself, and pieces free of the separator get exactly one separator between each two |
| QueryEncoding.EncodedQuery | Sources/Transport/URI.swift:83-89 | the rendered query: "" for no items; for one or more items, splitting on "&" gives back each item's rendering, in order |
| QueryEncoding.Utf8 | Sources/Transport/URI.swift:84-85 | a character becomes one to four bytes; it is one byte, equal to its code, exactly when it is ASCII; every byte of a longer encoding is at least 128 |
| QueryEncoding.Triple | Sources/Transport/URI.swift:84-85 | a byte is written as "%" and two upper-case hex digits that read back as the byte |
| QueryEncoding.PercentEncode | Sources/Transport/URI.swift:84-85 | every output character is an allowed character or "%" |
| QueryEncoding.EncodeDecodeRoundTrip | Sources/Transport/URI.swift:84-85 | percent-decoding the encoding of a string gives back its UTF-8 bytes |
| QueryEncoding.AsciiUtf8 | Sources/Transport/URI.swift:84-85 | for ASCII text those bytes are the characters themselves |
| QueryEncoding.EncodedIsWellFormed | Sources/Transport/URI.swift:84-85 | the encoding consists only of allowed characters and `%HH` triples |
| QueryEncoding.KeepsAllowed | Sources/Transport/URI.swift:103-111 | letters, digits, "-._~", "/" and "?" are kept literally |
| QueryEncoding.EncodesDelimiters | Sources/Transport/URI.swift:107-110 | each of ":#[]@!$&'()*+,;=" becomes "%" and two hex digits that read back as its code |
| QueryEncoding.AmpersandAndEquals | Sources/Transport/URI.swift:108 | "&" encodes as "%26" and "=" as "%3D" |
| QueryEncoding.RenderItems | Sources/Transport/URI.swift:83-87 | the `map` gives one rendered `name=value` string per item, in order |
| QueryEncoding.IndexOf | Sources/Transport/URI.swift:89 | part of the reference splitter (not in the source) used to state what `joined(separator:)` produces: the first position of a separator, `nil` exactly when it does not occur |
| QueryEncoding.SplitJoin | Sources/Transport/URI.swift:89 | against the reference splitter `Split` (not in the source): splitting a `joined(separator:)` string gives back the pieces when no piece holds the separator |
| QueryEncoding.RenderedItemShape | Sources/Transport/URI.swift:84-86 | a rendered item contains no "&" and exactly one "="; splitting it on "=" gives the encoded name and value |
| QueryEncoding.QuerySplitsIntoItems | Sources/Transport/URI.swift:83-89 | a non-empty item list gives a query that splits on "&" into one piece per item; each piece holds exactly one "=" and splits into the encoded name and value |
| QueryEncoding.ValueRoundTrip | Sources/Transport/URI.swift:84-85 | the encoded name and value decode to the UTF-8 bytes of the name and value; a missing value decodes to no bytes |
| QueryEncoding.NoValueRendersEmpty | Sources/Transport/URI.swift:85 | an item with no value renders as `name=`, the same as an item with an empty value |

## Left out

- `init?(url:)`, `init?(_ string:)` and `init(components:)`: they hand the parsing to Foundation's `URLComponents`, whose source is not part of this model. A URI here is built from a path and a query directly.
- The `queryItems` getter and setter: Foundation splits items out of the query and joins them back. The query renderer takes the items as its input instead.
- The rest of `description` after the query is replaced (`url?.absoluteString` and the fallback chain at `URI.swift:91`): Foundation renders it.
- `addingPercentEncoding` returning `nil`: the fallback for a failed encoding is not modelled; every string is encoded.
- QueryEncoding.PercentDecode: it returns bytes, not a string. Turning UTF-8 bytes back into characters is not modelled; for ASCII input, `AsciiUtf8` shows that the bytes are the characters.
- Unicode behaviour of Swift strings:
  - `lowercased()` is modelled as ASCII lowercasing, since header names are tokens (section 3.2.6 of RFC 7230);
  - paths are taken as ASCII text. Swift's `hasPrefix("/")` and `remove(at: startIndex)` (`URI.swift:43`, `URI.swift:73`) and `range(of:)` (`URI.swift:69`) work on Characters (grapheme clusters); the model works on Unicode scalars. The two agree for ASCII, but differ when a combining mark follows the leading "/" (for "/\u{301}x" Swift prepends a second "/", the model does not).
- URIs.FindFirst: returns `nil` for an empty argument, as Foundation's `range(of: "")` does, so `relativePath(from: "")` is `nil`.
- The iteration order of the dictionary passed to `HTTPHeaders.init`: Swift leaves it unspecified. The constructor takes the dictionary as a sequence of entries with pairwise distinct lowercase names, in the order it is iterated.
- The `.setCookie` constant is defined in a file that is not part of this model. It is treated as the name "Set-Cookie"; only its lowercase form "set-cookie" matters.
- `ExpressibleByStringLiteral`, the static `empty` accessors and the `Dictionary` convenience subscript (`HTTPHeader.swift:98-117`): they add no behaviour.
- Thread safety: `HTTPHeaders` is an unlocked reference type, and concurrent use is not modelled.
- No accessor returns every Set-Cookie value; only `orderHeaders` exposes them, and the model keeps it as a field.
