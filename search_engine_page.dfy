/** The `page` entity of the searchengine package, with the path
    normalisation run before it is inserted or updated. */
module SearchEnginePage {
  import opened Util

  /** `preparePath` on a path value: a non-null path gets a leading `/`. */
  function PreparedPath(path: Option<string>): (r: Option<string>)
    ensures path.None? <==> r.None?
    ensures r.Some? ==> StartsWith(r.value, "/")
    ensures path.Some? && StartsWith(path.value, "/") ==> r == path
    ensures path.Some? && !StartsWith(path.value, "/") ==>
      |r.value| == |path.value| + 1 && r.value[1..] == path.value
  {
    match path
    case None => None
    case Some(p) => if StartsWith(p, "/") then path else Some("/" + p)
  }

  /** Normalising twice is normalising once. */
  lemma PreparedPathIdempotent(path: Option<string>)
    ensures PreparedPath(PreparedPath(path)) == PreparedPath(path)
  {
  }

  class PageRecord {
    /** Null until the database assigns it. */
    var id: Option<int>
    var siteId: int
    var path: Option<string>
    var code: int
    var content: string

    /** The all-arguments constructor. */
    constructor (id: Option<int>, siteId: int, path: Option<string>, code: int, content: string)
      ensures this.id == id && this.siteId == siteId && this.path == path
      ensures this.code == code && this.content == content
    {
      this.id, this.siteId, this.path := id, siteId, path;
      this.code, this.content := code, content;
    }

    /** `preparePath`, the `@PrePersist`/`@PreUpdate` callback. */
    method PreparePath()
      modifies this`path
      ensures path == PreparedPath(old(path))
    {
      if path.Some? && !StartsWith(path.value, "/") {
        path := Some("/" + path.value);
      }
    }
  }
}
