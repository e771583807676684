/**
 * The `URI` value type (Sources/Transport/URI.swift): a path that always starts
 * with "/" and an optional query string. `URLComponents`, which stores them in
 * the source, is not part of this model: a URI is its two components as a value,
 * and the setters are record updates.
 */
module URIs {
  import opened Wrappers
  import QueryEncoding

  datatype URI = URI(path: string, query: Option<string>)

  predicate HasPrefix(s: string, p: string) {
    |p| <= |s| && s[..|p|] == p
  }

  /** The path setter: "/" is put in front unless the path already starts with it. */
  function NormalizedPath(p: string): (r: string)
    ensures HasPrefix(r, "/")
    ensures HasPrefix(p, "/") ==> r == p
    ensures !HasPrefix(p, "/") ==> r == "/" + p
  {
    if HasPrefix(p, "/") then p else "/" + p
  }

  /** `init(path:query:)`, with its default arguments. */
  function Make(path: string := "/", query: Option<string> := None): (u: URI)
    ensures HasPrefix(u.path, "/")
    ensures u.path == NormalizedPath(path) && u.query == query
  {
    URI(NormalizedPath(path), query)
  }

  /** `URI.root`. */
  const Root: URI := Make("/")

  /** The `path` setter. */
  function WithPath(u: URI, path: string): (r: URI)
    ensures HasPrefix(r.path, "/") && r.query == u.query
    ensures r.path == NormalizedPath(path)
  {
    u.(path := NormalizedPath(path))
  }

  /** The `query` setter. */
  function WithQuery(u: URI, query: Option<string>): (r: URI)
    ensures r.path == u.path && r.query == query
  {
    u.(query := query)
  }

  /** `p` occurs in `s` at position `i`. */
  predicate OccursAt(s: string, p: string, i: int) {
    0 <= i && i + |p| <= |s| && s[i..i + |p|] == p
  }

  /**
   * `range(of:)`: the first position at which `p` occurs in `s`. Foundation finds
   * no range for an empty `p`.
   */
  function FindFirst(s: string, p: string): (r: Option<nat>)
    ensures r.None? <==> p == [] || forall i :: !OccursAt(s, p, i)
    ensures r.Some? ==> OccursAt(s, p, r.value) && forall j :: 0 <= j < r.value ==> !OccursAt(s, p, j)
  {
    if p == [] then None else FindFrom(s, p, 0)
  }

  function FindFrom(s: string, p: string, from: nat): (r: Option<nat>)
    requires p != [] && forall j :: 0 <= j < from ==> !OccursAt(s, p, j)
    ensures r.None? <==> forall i :: !OccursAt(s, p, i)
    ensures r.Some? ==> OccursAt(s, p, r.value) && forall j :: 0 <= j < r.value ==> !OccursAt(s, p, j)
    decreases |s| - from
  {
    if from + |p| > |s| then None
    else if s[from..from + |p|] == p then assert OccursAt(s, p, from); Some(from)
    else FindFrom(s, p, from + 1)
  }

  /** Removes the first "/" of `s`, if `s` starts with one. */
  function DropLeadingSlash(s: string): (r: string)
    ensures HasPrefix(s, "/") ==> s == "/" + r
    ensures !HasPrefix(s, "/") ==> r == s
  {
    if HasPrefix(s, "/") then s[1..] else s
  }

  /**
   * `relativePath(from:)`: `nil` when `p` does not occur in the path; otherwise
   * the path with the first occurrence of `p` cut out, wherever it is, and then
   * at most one leading "/" removed.
   */
  function RelativePath(u: URI, p: string): (r: Option<string>)
    ensures r.None? <==> p == [] || forall i :: !OccursAt(u.path, p, i)
    ensures r.Some? ==> exists i :: (FindFirst(u.path, p) == Some(i)
      && r.value == DropLeadingSlash(u.path[..i] + u.path[i + |p|..]))
  {
    match FindFirst(u.path, p)
    case None => None
    case Some(i) => Some(DropLeadingSlash(u.path[..i] + u.path[i + |p|..]))
  }

  /**
   * The query part of `description`: when there are query items, the string
   * that replaces the query, encoded item by item.
   */
  function DescriptionQuery(items: Option<seq<QueryEncoding.QueryItem>>): (r: Option<string>)
    ensures r.Some? <==> items.Some?
    ensures items.Some? ==> r.value == QueryEncoding.EncodedQuery(items.value)
  {
    match items
    case None => None
    case Some(list) => Some(QueryEncoding.EncodedQuery(list))
  }

  // ---------------------------------------------------------------------------
  // Lemmas

  /** Normalising twice is normalising once: an already-normalised path is stored as it is. */
  lemma NormalizedPathIdempotent(p: string)
    ensures NormalizedPath(NormalizedPath(p)) == NormalizedPath(p)
  {
  }

  /** Assigning a path that already starts with "/" stores it unchanged. */
  lemma SetNormalizedPath(u: URI, p: string)
    requires HasPrefix(p, "/")
    ensures WithPath(u, p).path == p
    ensures WithPath(u, p) == URI(p, u.query)
  {
  }

  /** Setting the path the URI already has changes nothing. */
  lemma SetOwnPath(u: URI)
    requires HasPrefix(u.path, "/")
    ensures WithPath(u, u.path) == u
  {
  }

  /** `init()` and `URI.root` are the path "/" and no query. */
  lemma DefaultIsRoot()
    ensures Make() == Root
    ensures Root.path == "/" && Root.query == None
  {
  }

  /** `URI(path: "foo")` has the path "/foo". */
  lemma MakeAddsSlash()
    ensures Make("foo").path == "/foo"
  {
    assert "foo"[..1][0] == 'f';
  }

  /** When the path starts with `p`, the result is what follows `p`, less one leading "/". */
  lemma RelativePathOfPrefix(u: URI, p: string)
    requires p != [] && HasPrefix(u.path, p)
    ensures RelativePath(u, p) == Some(DropLeadingSlash(u.path[|p|..]))
  {
    assert OccursAt(u.path, p, 0);
    assert u.path[..0] + u.path[|p|..] == u.path[|p|..];
  }

  /** "/files/today" relative to "/files" is "today"; "/today" relative to "/files" is `nil`. */
  lemma RelativePathExamples()
    ensures RelativePath(Make("/files/today"), "/files") == Some("today")
    ensures RelativePath(Make("/today"), "/files") == None
  {
    var u := Make("/files/today");
    assert HasPrefix(u.path, "/files");
    RelativePathOfPrefix(u, "/files");
    assert u.path[6..] == "/today";
    var w := Make("/today");
    forall i ensures !OccursAt(w.path, "/files", i) {
      if i == 0 {
        assert w.path[0..6][1] == 't';
      }
    }
  }

  /** The occurrence cut out need not be at the start: "/a/files/b" relative to "files" is "a//b". */
  lemma RelativePathCutsInside()
    ensures RelativePath(Make("/a/files/b"), "files") == Some("a//b")
  {
    var u := Make("/a/files/b");
    assert OccursAt(u.path, "files", 3);
    forall j | 0 <= j < 3 ensures !OccursAt(u.path, "files", j) {
      assert u.path[j] != 'f';
    }
    assert FindFirst(u.path, "files") == Some(3);
    assert u.path[..3] + u.path[8..] == "/a//b";
  }
}
