/** `updateLinks` (utils/ContentGraph.ts): the second pass over all posts.
    For every link of every post that names an existing post, the linking
    post's url is appended to the backlinks of the first post carrying the
    linked url, unless it is already there. The code mutates the post
    objects in place; here each step returns a new sequence, and the post
    that `getPostByUrl` would hand back is addressed by its position. */
module Backlinks {
  import opened Optional
  import opened Posts

  /** `b` only extends `a`: same posts in the same places, with the same
      url, title, content and links, and backlinks that can only have grown
      at their end. */
  predicate Extends(a: seq<Post>, b: seq<Post>) {
    && |a| == |b|
    && forall k :: 0 <= k < |a| ==>
      && b[k].url == a[k].url
      && b[k].title == a[k].title
      && b[k].content == a[k].content
      && b[k].links == a[k].links
      && a[k].backlinks <= b[k].backlinks
  }

  /** No url appears twice in a list. */
  predicate NoDuplicates(xs: seq<string>) {
    forall i, j :: 0 <= i < j < |xs| ==> xs[i] != xs[j]
  }

  /** No post holds the same backlink twice. */
  predicate NoDuplicateBacklinks(ps: seq<Post>) {
    forall k :: 0 <= k < |ps| ==> NoDuplicates(ps[k].backlinks)
  }

  /** Lookups only look at urls, which extending leaves alone. */
  lemma ExtendsKeepsLookup(a: seq<Post>, b: seq<Post>, u: string)
    requires Extends(a, b)
    ensures FirstIndexOf(b, u) == FirstIndexOf(a, u)
  {
    if HasUrl(a, u) {
      var i :| 0 <= i < |a| && a[i].url == u;
      assert b[i].url == u;
    }
    if HasUrl(b, u) {
      var i :| 0 <= i < |b| && b[i].url == u;
      assert a[i].url == u;
    }
  }

  /** One iteration of the inner loop: the post `src` links to `target`. */
  function AddBacklink(ps: seq<Post>, src: string, target: string): (r: seq<Post>)
    ensures Extends(ps, r)
    ensures NoDuplicateBacklinks(ps) ==> NoDuplicateBacklinks(r)
    ensures forall k, b :: 0 <= k < |ps| ==>
      (b in r[k].backlinks <==> b in ps[k].backlinks || (b == src && FirstIndexOf(ps, target) == Some(k)))
  {
    match FirstIndexOf(ps, target)
    case None => ps
    case Some(k) =>
      if src in ps[k].backlinks then ps
      else ps[k := ps[k].(backlinks := ps[k].backlinks + [src])]
  }

  /** The inner loop: every link of one post, in order. */
  function AddBacklinks(ps: seq<Post>, src: string, links: seq<string>): (r: seq<Post>)
    ensures Extends(ps, r)
    ensures NoDuplicateBacklinks(ps) ==> NoDuplicateBacklinks(r)
    decreases |links|
  {
    if |links| == 0 then ps
    else AddBacklinks(AddBacklink(ps, src, links[0]), src, links[1..])
  }

  /** The outer loop, from post `i` on. Each post's url and links are read
      from the current state, as the code reads them from the very
      objects it is updating. */
  function LinkFrom(ps: seq<Post>, i: nat): (r: seq<Post>)
    ensures Extends(ps, r)
    ensures NoDuplicateBacklinks(ps) ==> NoDuplicateBacklinks(r)
    decreases |ps| - i
  {
    if i >= |ps| then ps
    else LinkFrom(AddBacklinks(ps, ps[i].url, ps[i].links), i + 1)
  }

  /** `updateLinks()`: only appends backlinks, never duplicates one, and
      leaves every other field of every post as it was. */
  function UpdateLinks(ps: seq<Post>): (r: seq<Post>)
    ensures Extends(ps, r)
    ensures NoDuplicateBacklinks(ps) ==> NoDuplicateBacklinks(r)
  {
    LinkFrom(ps, 0)
  }

  /** The inner loop gives `src` as a backlink to exactly the posts that
      are first with a url among `links`. */
  lemma {:induction false} AddBacklinksMembership(ps: seq<Post>, src: string, links: seq<string>)
    ensures forall k, b :: 0 <= k < |ps| ==>
      (b in AddBacklinks(ps, src, links)[k].backlinks <==>
        b in ps[k].backlinks || (b == src && IsFirstWithUrl(ps, k) && ps[k].url in links))
    decreases |links|
  {
    if |links| > 0 {
      var mid := AddBacklink(ps, src, links[0]);
      AddBacklinksMembership(mid, src, links[1..]);
      forall k | 0 <= k < |ps|
        ensures IsFirstWithUrl(mid, k) == IsFirstWithUrl(ps, k)
        ensures FirstIndexOf(ps, links[0]) == Some(k) <==> IsFirstWithUrl(ps, k) && ps[k].url == links[0]
      {
        ExtendsKeepsLookup(ps, mid, ps[k].url);
      }
      assert forall u :: u in links <==> u == links[0] || u in links[1..];
    }
  }

  /** `b` is the url of one of the first `i` posts, which links to url `t`. */
  predicate LinkedFromBefore(ps: seq<Post>, i: nat, b: string, t: string) {
    exists j :: 0 <= j < i && j < |ps| && ps[j].url == b && t in ps[j].links
  }

  /** The invariant of the outer loop after posts `0..i` are processed:
      a post holds backlink `b` exactly when it held it before the pass, or
      it is first with its url and one of those posts has url `b` and links
      to it. */
  ghost predicate Processed(ps0: seq<Post>, s: seq<Post>, i: nat)
    requires |s| == |ps0|
  {
    forall k, b :: 0 <= k < |s| ==>
      (b in s[k].backlinks <==>
        b in ps0[k].backlinks || (IsFirstWithUrl(ps0, k) && LinkedFromBefore(ps0, i, b, ps0[k].url)))
  }

  /** One round of the outer loop keeps the invariant for one more post. */
  lemma LinkStep(ps0: seq<Post>, s: seq<Post>, i: nat)
    requires Extends(ps0, s) && i < |s|
    requires Processed(ps0, s, i)
    ensures Processed(ps0, AddBacklinks(s, s[i].url, s[i].links), i + 1)
  {
    var next := AddBacklinks(s, s[i].url, s[i].links);
    AddBacklinksMembership(s, s[i].url, s[i].links);
    forall k, b | 0 <= k < |s|
      ensures b in next[k].backlinks <==>
        b in ps0[k].backlinks || (IsFirstWithUrl(ps0, k) && LinkedFromBefore(ps0, i + 1, b, ps0[k].url))
    {
      ExtendsKeepsLookup(ps0, s, ps0[k].url);
      assert IsFirstWithUrl(s, k) == IsFirstWithUrl(ps0, k);
      assert b in next[k].backlinks <==>
        b in s[k].backlinks || (b == ps0[i].url && IsFirstWithUrl(ps0, k) && ps0[k].url in ps0[i].links);
      assert b in s[k].backlinks <==>
        b in ps0[k].backlinks || (IsFirstWithUrl(ps0, k) && LinkedFromBefore(ps0, i, b, ps0[k].url));
      if LinkedFromBefore(ps0, i + 1, b, ps0[k].url) && !LinkedFromBefore(ps0, i, b, ps0[k].url) {
        var j :| 0 <= j < i + 1 && j < |ps0| && ps0[j].url == b && ps0[k].url in ps0[j].links;
        assert j == i;
      }
      if b == ps0[i].url && ps0[k].url in ps0[i].links {
        assert LinkedFromBefore(ps0, i + 1, b, ps0[k].url);
      }
      if LinkedFromBefore(ps0, i, b, ps0[k].url) {
        var j :| 0 <= j < i && j < |ps0| && ps0[j].url == b && ps0[k].url in ps0[j].links;
        assert LinkedFromBefore(ps0, i + 1, b, ps0[k].url);
      }
    }
  }

  /** The outer loop, stated against the posts it started from. */
  lemma {:induction false} LinkFromMembership(ps0: seq<Post>, s: seq<Post>, i: nat)
    requires Extends(ps0, s) && i <= |s|
    requires Processed(ps0, s, i)
    ensures Processed(ps0, LinkFrom(s, i), |ps0|)
    decreases |s| - i
  {
    if i >= |s| {
    } else {
      LinkStep(ps0, s, i);
      LinkFromMembership(ps0, AddBacklinks(s, s[i].url, s[i].links), i + 1);
    }
  }

  /** What `updateLinks` adds: post `k` gains backlink `b` exactly when it
      is the first post with its url and some post with url `b` links to
      that url. */
  lemma UpdateLinksMembership(ps: seq<Post>)
    ensures forall k, b :: 0 <= k < |ps| ==>
      (b in UpdateLinks(ps)[k].backlinks <==>
        b in ps[k].backlinks || (IsFirstWithUrl(ps, k) && LinkedFromBefore(ps, |ps|, b, ps[k].url)))
  {
    LinkFromMembership(ps, ps, 0);
    assert Processed(ps, UpdateLinks(ps), |ps|);
  }

  /** Completeness: after the pass, for every link `t` of every post `P`,
      the post a lookup of `t` finds has `P`'s url among its backlinks. */
  lemma UpdateLinksComplete(ps: seq<Post>, i: nat, t: string)
    requires i < |ps| && t in ps[i].links
    ensures GetPostByUrl(UpdateLinks(ps), t).Some? ==>
      ps[i].url in GetPostByUrl(UpdateLinks(ps), t).value.backlinks
  {
    var r := UpdateLinks(ps);
    UpdateLinksMembership(ps);
    ExtendsKeepsLookup(ps, r, t);
    if HasUrl(r, t) {
      var k := FirstIndexOf(r, t).value;
      assert IsFirstWithUrl(ps, k);
      assert LinkedFromBefore(ps, |ps|, ps[i].url, ps[k].url);
    }
  }

  /** Soundness: starting from empty backlinks, every backlink is the url
      of a post that links to the holder, and only the first post with a
      given url holds any. */
  lemma UpdateLinksSound(ps: seq<Post>, k: nat, b: string)
    requires forall j :: 0 <= j < |ps| ==> ps[j].backlinks == []
    requires k < |ps| && b in UpdateLinks(ps)[k].backlinks
    ensures IsFirstWithUrl(UpdateLinks(ps), k)
    ensures exists j :: 0 <= j < |ps| && ps[j].url == b && UpdateLinks(ps)[k].url in ps[j].links
  {
    var r := UpdateLinks(ps);
    UpdateLinksMembership(ps);
    ExtendsKeepsLookup(ps, r, ps[k].url);
  }

  /** Every link that names a post is already recorded as a backlink on
      the first post with that url. */
  ghost predicate Complete(ps: seq<Post>) {
    forall j, t :: 0 <= j < |ps| && t in ps[j].links && HasUrl(ps, t) ==>
      ps[j].url in ps[FirstIndexOf(ps, t).value].backlinks
  }

  /** The inner loop changes nothing when every target already lists the
      linking url. */
  lemma {:induction false} AddBacklinksUnchanged(ps: seq<Post>, src: string, links: seq<string>)
    requires forall t :: t in links && HasUrl(ps, t) ==> src in ps[FirstIndexOf(ps, t).value].backlinks
    ensures AddBacklinks(ps, src, links) == ps
    decreases |links|
  {
    if |links| > 0 {
      assert AddBacklink(ps, src, links[0]) == ps;
      AddBacklinksUnchanged(ps, src, links[1..]);
    }
  }

  /** The outer loop changes nothing on a complete graph. */
  lemma {:induction false} LinkFromUnchanged(ps: seq<Post>, i: nat)
    requires Complete(ps)
    ensures LinkFrom(ps, i) == ps
    decreases |ps| - i
  {
    if i < |ps| {
      AddBacklinksUnchanged(ps, ps[i].url, ps[i].links);
      LinkFromUnchanged(ps, i + 1);
    }
  }

  /** Running the pass a second time changes nothing. */
  lemma UpdateLinksIdempotent(ps: seq<Post>)
    ensures UpdateLinks(UpdateLinks(ps)) == UpdateLinks(ps)
  {
    var r := UpdateLinks(ps);
    forall j, t | 0 <= j < |r| && t in r[j].links && HasUrl(r, t)
      ensures r[j].url in r[FirstIndexOf(r, t).value].backlinks
    {
      UpdateLinksComplete(ps, j, t);
    }
    LinkFromUnchanged(r, 0);
  }

  /** The first round of the chain example: "x" becomes a backlink of "y". */
  lemma ChainFirstRound(x: Post, y: Post, z: Post)
    requires x == Post("x", "x", "", ["y"], []) && y == Post("y", "y", "", ["z"], [])
    requires z == Post("z", "z", "", [], [])
    ensures AddBacklinks([x, y, z], "x", ["y"]) == [x, y.(backlinks := ["x"]), z]
  {
    var y1 := y.(backlinks := ["x"]);
    var s0, s1 := [x, y, z], [x, y1, z];
    assert FirstIndexOf(s0, "y") == Some(1) by {
      assert s0[1..] == [y, z];
    }
    assert y.(backlinks := y.backlinks + ["x"]) == y1;
    assert AddBacklink(s0, "x", "y") == s0[1 := y1] == s1;
    assert ["y"][1..] == [];
  }

  /** The second round of the chain example: "y" becomes a backlink of "z". */
  lemma ChainSecondRound(x: Post, y1: Post, z: Post)
    requires x.url == "x" && y1.url == "y" && z == Post("z", "z", "", [], [])
    ensures AddBacklinks([x, y1, z], "y", ["z"]) == [x, y1, z.(backlinks := ["y"])]
  {
    var z1 := z.(backlinks := ["y"]);
    var s1, s2 := [x, y1, z], [x, y1, z1];
    assert FirstIndexOf(s1, "z") == Some(2) by {
      assert s1[1..] == [y1, z] && s1[1..][1..] == [z];
      assert FirstIndexOf([z], "z") == Some(0);
      assert FirstIndexOf([y1, z], "z") == Some(1);
    }
    assert z.(backlinks := z.backlinks + ["y"]) == z1;
    assert AddBacklink(s1, "y", "z") == s1[2 := z1] == s2;
    assert ["z"][1..] == [];
  }

  /** Three posts where "x" links to "y" and "y" to "z": afterwards "y" is
      backlinked from "x", "z" from "y", and "x" from nothing. */
  lemma UpdateLinksChain(x: Post, y: Post, z: Post)
    requires x == Post("x", "x", "", ["y"], []) && y == Post("y", "y", "", ["z"], [])
    requires z == Post("z", "z", "", [], [])
    ensures UpdateLinks([x, y, z]) == [x, y.(backlinks := ["x"]), z.(backlinks := ["y"])]
  {
    var y1, z1 := y.(backlinks := ["x"]), z.(backlinks := ["y"]);
    var s0, s1, s2 := [x, y, z], [x, y1, z], [x, y1, z1];
    ChainFirstRound(x, y, z);
    ChainSecondRound(x, y1, z);
    assert LinkFrom(s2, 3) == s2;
    assert LinkFrom(s2, 2) == s2 by {
      assert AddBacklinks(s2, "z", []) == s2;
    }
    assert LinkFrom(s1, 1) == s2;
    assert LinkFrom(s0, 0) == s2;
  }
}
