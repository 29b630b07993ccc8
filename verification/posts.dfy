/** The post records of the content graph and the lookups over them:
    `Post` and `DeepPost` (utils/types.ts), `addPost`, `getPostByUrl` and
    `getDeepPostByUrl` (utils/ContentGraph.ts). */
module Posts {
  import opened Optional

  /** One markdown file of the site. `links` holds the resolved urls the
      file points to; `backlinks` the urls of the posts pointing at it. */
  datatype Post = Post(
    url: string,
    title: string,
    content: string,
    links: seq<string>,
    backlinks: seq<string>)

  /** A post whose links and backlinks are replaced by the posts they name,
      one level deep. */
  datatype DeepPost = DeepPost(
    url: string,
    title: string,
    content: string,
    links: seq<Post>,
    backlinks: seq<Post>)

  /** Some post has url `u`. */
  predicate HasUrl(ps: seq<Post>, u: string) {
    exists i :: 0 <= i < |ps| && ps[i].url == u
  }

  /** The position of the first post with url `u`, if there is one. */
  function FirstIndexOf(ps: seq<Post>, u: string): (r: Option<nat>)
    ensures r.None? <==> !HasUrl(ps, u)
    ensures r.Some? ==> r.value < |ps| && ps[r.value].url == u
    ensures r.Some? ==> forall j :: 0 <= j < r.value ==> ps[j].url != u
  {
    if |ps| == 0 then None
    else if ps[0].url == u then Some(0)
    else
      match FirstIndexOf(ps[1..], u)
      case None => None
      case Some(k) => Some(k + 1)
  }

  /** Post `k` is the first post carrying its url; only such a post is
      ever returned by a lookup. */
  predicate IsFirstWithUrl(ps: seq<Post>, k: nat)
    requires k < |ps|
  {
    FirstIndexOf(ps, ps[k].url) == Some(k)
  }

  /** `posts.filter((p) => p.url === postUrl)` */
  function Matching(ps: seq<Post>, u: string): (r: seq<Post>)
    ensures |r| <= |ps|
  {
    if |ps| == 0 then []
    else (if ps[0].url == u then [ps[0]] else []) + Matching(ps[1..], u)
  }

  /** The filter is non-empty exactly when some post has the url, and then
      its head is the first such post. */
  lemma {:induction false} MatchingHead(ps: seq<Post>, u: string)
    ensures |Matching(ps, u)| > 0 <==> HasUrl(ps, u)
    ensures HasUrl(ps, u) ==> Matching(ps, u)[0] == ps[FirstIndexOf(ps, u).value]
  {
    if |ps| == 0 {
    } else if ps[0].url == u {
    } else {
      MatchingHead(ps[1..], u);
      if HasUrl(ps, u) {
        var i :| 0 <= i < |ps| && ps[i].url == u;
        assert ps[1..][i - 1].url == u;
      }
      if HasUrl(ps[1..], u) {
        var i :| 0 <= i < |ps[1..]| && ps[1..][i].url == u;
        assert ps[i + 1].url == u;
      }
    }
  }

  /** `getPostByUrl(postUrl)`: null exactly when no post has the url, and
      otherwise the first post that does. */
  function GetPostByUrl(ps: seq<Post>, u: string): (r: Option<Post>)
    ensures r.None? <==> !HasUrl(ps, u)
    ensures r.Some? ==> FirstIndexOf(ps, u).Some? && r.value == ps[FirstIndexOf(ps, u).value]
    ensures r.Some? ==> r.value.url == u
  {
    MatchingHead(ps, u);
    var m := Matching(ps, u);
    if |m| > 0 then Some(m[0]) else None
  }

  /** `addPost(post)`: the post goes at the end, so the urls present
      afterwards are those present before plus the new post's url. */
  function AddPost(ps: seq<Post>, p: Post): (r: seq<Post>)
    ensures forall u :: HasUrl(r, u) <==> HasUrl(ps, u) || u == p.url
  {
    var r := ps + [p];
    assert forall i :: 0 <= i < |ps| ==> r[i] == ps[i];
    assert r[|ps|] == p;
    r
  }

  /** Adding a post never shadows an existing one: a lookup finds the new
      post only when no earlier post has its url. */
  lemma AddPostFirstWins(ps: seq<Post>, p: Post, u: string)
    ensures HasUrl(ps, u) ==> GetPostByUrl(AddPost(ps, p), u) == GetPostByUrl(ps, u)
    ensures !HasUrl(ps, u) && p.url == u ==> GetPostByUrl(AddPost(ps, p), u) == Some(p)
    ensures !HasUrl(ps, u) && p.url != u ==> GetPostByUrl(AddPost(ps, p), u) == None
  {
    var r := AddPost(ps, p);
    if HasUrl(ps, u) {
      var k := FirstIndexOf(ps, u).value;
      assert r[k] == ps[k];
    }
  }

  /** The urls of a list of posts. */
  function UrlsOf(ps: seq<Post>): (r: seq<string>)
  {
    seq(|ps|, i requires 0 <= i < |ps| => ps[i].url)
  }

  lemma UrlsOfCons(p: Post, rest: seq<Post>)
    ensures UrlsOf([p] + rest) == [p.url] + UrlsOf(rest)
  {
    assert UrlsOf([p] + rest)[1..] == UrlsOf(rest);
  }

  /** The urls that some post carries, in their original order. */
  function KeepExisting(ps: seq<Post>, urls: seq<string>): (r: seq<string>)
    ensures |r| <= |urls|
    ensures forall i :: 0 <= i < |r| ==> HasUrl(ps, r[i])
  {
    if |urls| == 0 then []
    else (if HasUrl(ps, urls[0]) then [urls[0]] else []) + KeepExisting(ps, urls[1..])
  }

  /** The loops of `getDeepPostByUrl`: look each url up, keep the posts
      found and drop the urls that name no post. Every post kept is the
      first post carrying its url. */
  function ResolveAll(ps: seq<Post>, urls: seq<string>): (r: seq<Post>)
    ensures |r| <= |urls|
    ensures forall i :: 0 <= i < |r| ==> GetPostByUrl(ps, r[i].url) == Some(r[i])
  {
    if |urls| == 0 then []
    else
      var found := match GetPostByUrl(ps, urls[0]) case Some(p) => [p] case None => [];
      found + ResolveAll(ps, urls[1..])
  }

  /** The posts kept are, in order, exactly those of the urls that name a
      post: an order-preserving sub-sequence of the urls, duplicates
      included. */
  lemma {:induction false} ResolveAllUrls(ps: seq<Post>, urls: seq<string>)
    ensures UrlsOf(ResolveAll(ps, urls)) == KeepExisting(ps, urls)
  {
    if |urls| > 0 {
      var rest := ResolveAll(ps, urls[1..]);
      ResolveAllUrls(ps, urls[1..]);
      match GetPostByUrl(ps, urls[0])
      case Some(p) =>
        assert ResolveAll(ps, urls) == [p] + rest;
        UrlsOfCons(p, rest);
      case None =>
        assert ResolveAll(ps, urls) == rest;
    }
  }

  /** `getDeepPostByUrl(postUrl)`: null exactly when no post has the url;
      otherwise the first such post with url, title and content copied and
      its links and backlinks replaced by the posts they name. */
  function GetDeepPostByUrl(ps: seq<Post>, u: string): (r: Option<DeepPost>)
    ensures r.None? <==> !HasUrl(ps, u)
    ensures r.Some? ==> r.value.url == u
    ensures r.Some? ==>
      var p := ps[FirstIndexOf(ps, u).value];
      && r.value.title == p.title
      && r.value.content == p.content
      && UrlsOf(r.value.links) == KeepExisting(ps, p.links)
      && UrlsOf(r.value.backlinks) == KeepExisting(ps, p.backlinks)
    ensures r.Some? ==> forall i :: 0 <= i < |r.value.links| ==>
      GetPostByUrl(ps, r.value.links[i].url) == Some(r.value.links[i])
    ensures r.Some? ==> forall i :: 0 <= i < |r.value.backlinks| ==>
      GetPostByUrl(ps, r.value.backlinks[i].url) == Some(r.value.backlinks[i])
  {
    MatchingHead(ps, u);
    var shallow := Matching(ps, u);
    if |shallow| > 0 then
      var p := shallow[0];
      ResolveAllUrls(ps, p.links);
      ResolveAllUrls(ps, p.backlinks);
      Some(DeepPost(p.url, p.title, p.content, ResolveAll(ps, p.links), ResolveAll(ps, p.backlinks)))
    else
      None
  }

  /** A link to a url no post carries stays in the shallow post but is
      left out of the deep one. */
  lemma DeepPostDropsDangling()
    ensures GetDeepPostByUrl([Post("a", "a", "", ["gone", "b"], []), Post("b", "b", "", [], [])], "a")
      == Some(DeepPost("a", "a", "", [Post("b", "b", "", [], [])], []))
  {
    var a, b := Post("a", "a", "", ["gone", "b"], []), Post("b", "b", "", [], []);
    var ps := [a, b];
    assert !HasUrl(ps, "gone");
    assert GetPostByUrl(ps, "gone") == None;
    assert ps[1..] == [b];
    assert FirstIndexOf([b], "b") == Some(0);
    assert FirstIndexOf(ps, "b") == Some(1);
    assert GetPostByUrl(ps, "b") == Some(b);
    assert ["gone", "b"][1..] == ["b"] && ["b"][1..] == [];
    assert ResolveAll(ps, ["b"]) == [b];
    assert ResolveAll(ps, ["gone", "b"]) == [b];
    assert Matching(ps, "a")[0] == a;
  }
}
