/** src/author.rs: the author record built from an author folder and the
    author's archived posts. */
module Author {
  import opened Base
  import opened Utils

  /** The origins of an archived author, as far as this archiver uses them. */
  datatype ArchiveFrom = Fanbox

  /** `post_archiver::ArchiveAuthor`, over the post summary type `S`. */
  datatype ArchiveAuthor<S> = ArchiveAuthor(id: string, name: string, thumb: Option<Path>, from: set<ArchiveFrom>, posts: seq<S>)

  /** `archive_author`: `thumbOf` reads a post's `thumb` field and `summary`
      is the conversion `post.clone().into()`, both of the post archiver
      library. The identity and the name are both the author folder's name,
      the only origin is Fanbox, the thumbnail is the first post's (none
      without posts) and the posts are carried over one for one, in order. */
  function ArchiveAuthorOf<P, S>(author: DefinedFile, posts: seq<P>, thumbOf: P -> Option<Path>, summary: P -> S): (r: ArchiveAuthor<S>)
    ensures r.id == r.name
    ensures |author.path| > 0 ==> r.name == author.path[|author.path| - 1]
    ensures |author.path| == 0 ==> r.name == ""
    ensures r.from == {Fanbox}
    ensures |posts| == 0 ==> r.thumb.None?
    ensures |posts| > 0 ==> r.thumb == thumbOf(posts[0])
    ensures |r.posts| == |posts| && forall k :: 0 <= k < |posts| ==> r.posts[k] == summary(posts[k])
  {
    var name := author.Name();
    var thumb := if |posts| == 0 then None else thumbOf(posts[0]);
    ArchiveAuthor(name, name, thumb, {Fanbox}, Summaries(posts, summary))
  }

  /** `posts.iter().map(...).collect()`. */
  function Summaries<P, S>(posts: seq<P>, summary: P -> S): (r: seq<S>)
    ensures |r| == |posts|
    ensures forall k :: 0 <= k < |posts| ==> r[k] == summary(posts[k])
  {
    if |posts| == 0 then [] else Summaries(posts[..|posts| - 1], summary) + [summary(posts[|posts| - 1])]
  }

  /** Only the first post decides the thumbnail: posts listed after it have
      no say. */
  lemma AuthorThumb<P, S>(author: DefinedFile, posts: seq<P>, more: seq<P>, thumbOf: P -> Option<Path>, summary: P -> S)
    requires |posts| > 0
    ensures ArchiveAuthorOf(author, posts + more, thumbOf, summary).thumb == ArchiveAuthorOf(author, posts, thumbOf, summary).thumb
  {
    assert (posts + more)[0] == posts[0];
  }
}
