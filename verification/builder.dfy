/** The constructor of `ContentGraph` (utils/ContentGraph.ts): for every
    markdown file under the content directory, derive the post's url and
    title from the file path, collect its resolved links, take its content
    from the front-matter parser, add the post, and finally run
    `updateLinks`. The directory scan, file reading and the three foreign
    libraries are inputs: the corpus is a sequence of files, each with its
    text or `None` when reading it fails, and the libraries are functions
    in a `Collaborators` value. */
module Builder {
  import opened Optional
  import opened Strings
  import opened Resolver
  import opened Posts
  import opened Backlinks

  /** A file found by the directory scan: its absolute path and its text,
      or `None` when `fs.readFileSync` throws. */
  datatype SourceFile = SourceFile(path: string, text: Option<string>)

  /** The foreign code the constructor calls: `encodeURIComponent`,
      `markdown-link-extractor` (`None` when it throws) and `gray-matter`
      (`None` when it throws; otherwise the content without front matter). */
  datatype Collaborators = Collaborators(
    encode: string -> string,
    extractLinks: string -> Option<seq<string>>,
    frontMatter: string -> Option<string>)

  // ---------------------------------------------------------------------
  // link collection

  /** The filter of the link loop: the raw href ends in ".md". Nothing
      checks for an "http://" or "https://" scheme. */
  predicate IsMarkdownLink(href: string) {
    EndsWith(href, ".md")
  }

  /** The url one extracted href contributes, if any: only markdown links
      are resolved, with `/.md/g` stripped first, and a link resolving to
      the post itself is dropped. */
  function LinkTarget(url: string, href: string): (r: Option<string>)
  {
    if IsMarkdownLink(href) then
      var t := ParsePostLink(url, StripMd(href));
      if t != url then Some(t) else None
    else None
  }

  /** The link loop of the constructor: `absoluteLinks`. */
  function CollectLinks(url: string, hrefs: seq<string>): (r: seq<string>)
    ensures |r| <= |hrefs|
    ensures forall i :: 0 <= i < |r| ==> r[i] != url
  {
    if |hrefs| == 0 then []
    else
      var head := match LinkTarget(url, hrefs[0]) case Some(t) => [t] case None => [];
      head + CollectLinks(url, hrefs[1..])
  }

  /** Links come out in extraction order, duplicates kept: collecting over
      a concatenation concatenates the collections. */
  lemma {:induction false} CollectLinksAppend(url: string, a: seq<string>, b: seq<string>)
    ensures CollectLinks(url, a + b) == CollectLinks(url, a) + CollectLinks(url, b)
  {
    if |a| == 0 {
      assert a + b == b;
    } else {
      assert (a + b)[0] == a[0];
      assert (a + b)[1..] == a[1..] + b;
      CollectLinksAppend(url, a[1..], b);
    }
  }

  /** A url is collected exactly when some extracted markdown href resolves
      to it and it is not the post's own url. */
  lemma {:induction false} CollectLinksMembership(url: string, hrefs: seq<string>, t: string)
    ensures t in CollectLinks(url, hrefs) <==>
      t != url && exists i :: 0 <= i < |hrefs| && IsMarkdownLink(hrefs[i]) && ParsePostLink(url, StripMd(hrefs[i])) == t
  {
    if |hrefs| > 0 {
      CollectLinksMembership(url, hrefs[1..], t);
      if t != url && IsMarkdownLink(hrefs[0]) && ParsePostLink(url, StripMd(hrefs[0])) == t {
      } else {
        if exists i :: 0 <= i < |hrefs| && IsMarkdownLink(hrefs[i]) && ParsePostLink(url, StripMd(hrefs[i])) == t {
          var i :| 0 <= i < |hrefs| && IsMarkdownLink(hrefs[i]) && ParsePostLink(url, StripMd(hrefs[i])) == t;
          if i == 0 {
          } else {
            assert hrefs[1..][i - 1] == hrefs[i];
          }
        }
        if exists i :: 0 <= i < |hrefs[1..]| && IsMarkdownLink(hrefs[1..][i]) && ParsePostLink(url, StripMd(hrefs[1..][i])) == t {
          var i :| 0 <= i < |hrefs[1..]| && IsMarkdownLink(hrefs[1..][i]) && ParsePostLink(url, StripMd(hrefs[1..][i])) == t;
          assert hrefs[i + 1] == hrefs[1..][i];
        }
      }
    }
  }

  /** `/.md/g` leaves "http://x/y.md" as "http://x/y". */
  lemma StripExternalLink()
    ensures StripMd("http://x/y.md") == "http://x/y"
  {
    var stripped := "http://x/y";
    assert "http://x/y.md" == stripped + ".md";
    assert NoMd(stripped);
    StripMdKeeps(stripped);
  }

  /** An external "http://" link ending in ".md" is still taken for a post
      link: from post "a", "http://x/y.md" becomes the link "/x/y". */
  lemma ExternalLinkCollected()
    ensures CollectLinks("a", ["http://x/y.md"]) == ["/x/y"]
  {
    var src, h := "a", "http://x/y.md";
    StripExternalLink();
    assert "http://x/y" == "http:" + "/" + "/x/y";
    ResolveBareDropsFirstSegment(src, "http:", "/x/y");
    SegmentsOfPlain(src);
    assert InDirectoryOf(src, "/x/y") == "/x/y";
    assert IsMarkdownLink(h);
    assert LinkTarget(src, h) == Some("/x/y");
    assert [h][1..] == [];
  }

  // ---------------------------------------------------------------------
  // url and title

  /** `file.split(path.resolve(""))[1]`: the part of the path after the
      project root, up to any repeated occurrence of the root. `None` is
      the `undefined` that makes the following `replace` throw. */
  function RootRelative(file: string, root: string): (r: Option<string>)
    requires |root| > 0
  {
    var parts := Split(file, root);
    if |parts| > 1 then Some(parts[1]) else None
  }

  /** A file under the root whose path below the root does not repeat
      the root yields that path. */
  lemma RootRelativeOfFile(root: string, rel: string)
    requires |root| > 0
    requires forall i: nat :: !OccursAt(rel, root, i)
    ensures RootRelative(root + rel, root) == Some(rel)
  {
    SplitAfterLeadingSeparator(root, rel);
  }

  /** A path that never contains the root has no second piece: the split
      yields `undefined`, and the post is skipped. */
  lemma RootRelativeMissing(root: string, file: string)
    requires |root| > 0
    requires forall i: nat :: !OccursAt(file, root, i)
    ensures RootRelative(file, root) == None
  {
    SplitFromNoSeparator(file, root, "");
  }

  /** `p.split("/").map((p) => encodeURIComponent(p)).join("/")` */
  function EncodeSegments(p: string, encode: string -> string): (r: string)
  {
    var segs := Segments(p);
    JoinPath(seq(|segs|, i requires 0 <= i < |segs| => encode(segs[i])))
  }

  /** Drops one leading "/" or "\\", as the constructor does. */
  function DropLeadingSeparator(s: string): (r: string)
  {
    if |s| > 0 && (s[0] == '/' || s[0] == '\\') then s[1..] else s
  }

  /** The url of a post from its root-relative path: backslashes become
      slashes, each segment is url-encoded, `/.md/g` is stripped, the first
      "content/" is removed, and one leading separator is dropped. */
  function UrlOfRelative(rel: string, encode: string -> string): (r: string)
  {
    var encoded := EncodeSegments(ReplaceChar(rel, '\\', '/'), encode);
    DropLeadingSeparator(ReplaceFirst(StripMd(encoded), "content/", ""))
  }

  /** Segments that need no encoding are joined back into the same path. */
  lemma EncodeSegmentsFixed(p: string, encode: string -> string)
    requires forall i :: 0 <= i < |Segments(p)| ==> encode(Segments(p)[i]) == Segments(p)[i]
    ensures EncodeSegments(p, encode) == p
  {
    var segs := Segments(p);
    assert seq(|segs|, i requires 0 <= i < |segs| => encode(segs[i])) == segs;
    JoinSplit(p, "/");
  }

  /** The path of a markdown file under "/content/" loses only its
      extension to `/.md/g` when nothing before the extension reads "md". */
  lemma StripContentPath(body: string)
    requires NoMd(body)
    ensures StripMd("/content/" + body + ".md") == "/content/" + body
  {
    var pre := "/content/";
    assert pre + body + ".md" == pre + (body + ".md");
    forall i: nat | i < |pre|
      ensures !DotMdAt(pre + (body + ".md"), i)
    {
      if i == 8 && |body| >= 2 {
        assert (pre + (body + ".md"))[9] == body[0];
        assert (pre + (body + ".md"))[10] == body[1];
      }
    }
    StripMdPrefix(pre, body + ".md");
    StripMdKeeps(body);
  }

  /** The first "content/" of "/content/..." is the one after the slash. */
  lemma ReplaceContentPrefix(body: string)
    ensures ReplaceFirst("/content/" + body, "content/", "") == "/" + body
  {
    var s := "/content/" + body;
    assert s[0] == '/';
    assert !("content/" <= s);
    assert s[1..] == "content/" + body;
    assert "content/" <= s[1..];
    assert (s[1..])[8..] == body;
    assert ReplaceFirst(s[1..], "content/", "") == body;
  }

  /** For a plain markdown file under the content directory, whose
      segments need no encoding and whose path holds no "md" before the
      extension, the url is the path below "content/" without ".md". */
  lemma UrlOfPlainPath(body: string, encode: string -> string)
    requires NoMd(body) && '\\' !in body
    requires forall i :: 0 <= i < |Segments("/content/" + body + ".md")| ==>
      encode(Segments("/content/" + body + ".md")[i]) == Segments("/content/" + body + ".md")[i]
    ensures UrlOfRelative("/content/" + body + ".md", encode) == body
  {
    var rel := "/content/" + body + ".md";
    assert ReplaceChar(rel, '\\', '/') == rel;
    EncodeSegmentsFixed(rel, encode);
    StripContentPath(body);
    ReplaceContentPrefix(body);
  }

  /** `fileName.replace(".md", "")` where `fileName` is the last segment of
      the path with backslashes turned into slashes. */
  function Title(file: string): (r: string)
  {
    ReplaceFirst(LastSegment(ReplaceChar(file, '\\', '/')), ".md", "")
  }

  /** The title of "dir/name.md" is "name" when the name holds no earlier
      ".md". */
  lemma TitleOfMarkdownFile(dir: string, name: string)
    requires NoSlash(name) && '\\' !in dir && '\\' !in name
    requires forall i: nat :: i < |name| ==> !OccursAt(name + ".md", ".md", i)
    ensures Title(dir + "/" + name + ".md") == name
  {
    var file := dir + "/" + name + ".md";
    assert ReplaceChar(file, '\\', '/') == file;
    assert file == dir + "/" + (name + ".md");
    LastSegmentAfterSlash(dir, name + ".md");
    var last := name + ".md";
    ReplaceFirstSkips(last, ".md", "", |name|);
    assert last[..|name|] == name && last[|name|..] == ".md";
    assert ".md"[3..] == "";
  }

  // ---------------------------------------------------------------------
  // the build

  /** A post as the constructor creates it: no backlinks yet, and no link
      to itself. */
  predicate IsNewPost(p: Post) {
    p.backlinks == [] && p.url !in p.links
  }

  /** The body of the constructor's file loop for one file. `None` means
      the file is not a post: it is not a markdown file, or the enclosing
      `try` caught an exception from the path split, the file read or the
      link extractor. A front-matter failure is not fatal: the raw text is
      the content. */
  function BuildPost(f: SourceFile, root: string, env: Collaborators): (r: Option<Post>)
    requires |root| > 0
    ensures r.Some? <==>
      && EndsWith(f.path, ".md")
      && RootRelative(f.path, root).Some?
      && f.text.Some?
      && env.extractLinks(f.text.value).Some?
    ensures r.Some? ==> IsNewPost(r.value)
    ensures r.Some? ==>
      && r.value.url == UrlOfRelative(RootRelative(f.path, root).value, env.encode)
      && r.value.title == Title(f.path)
      && r.value.links == CollectLinks(r.value.url, env.extractLinks(f.text.value).value)
    ensures r.Some? && env.frontMatter(f.text.value).Some? ==> r.value.content == env.frontMatter(f.text.value).value
    ensures r.Some? && env.frontMatter(f.text.value).None? ==> r.value.content == f.text.value
  {
    if !EndsWith(f.path, ".md") then None
    else
      match RootRelative(f.path, root)
      case None => None
      case Some(rel) =>
        match f.text
        case None => None
        case Some(text) =>
          match env.extractLinks(text)
          case None => None
          case Some(hrefs) =>
            var url := UrlOfRelative(rel, env.encode);
            var content := match env.frontMatter(text) case Some(c) => c case None => text;
            Some(Post(url, Title(f.path), content, CollectLinks(url, hrefs), []))
  }

  /** "/r/content/x.md" lies below the root "/r", which it does not repeat. */
  lemma ExampleFileRoot()
    ensures RootRelative("/r/content/x.md", "/r") == Some("/content/x.md")
  {
    var rel := "/content/x.md";
    forall i: nat
      ensures !OccursAt(rel, "/r", i)
    {
      if i + 2 <= |rel| {
        assert rel[i..i + 2][1] == rel[i + 1];
      }
    }
    assert "/r" + rel == "/r/content/x.md";
    RootRelativeOfFile("/r", rel);
  }

  /** From post "x", the href "./y.md" is collected as the link "y". */
  lemma ExampleFileLinks()
    ensures CollectLinks("x", ["./y.md"]) == ["y"]
  {
    assert NoMd("./y");
    StripMdKeeps("./y");
    assert "./y" + ".md" == "./y.md";
    ResolveCurrentDirectory("x", "./y");
    SegmentsOfPlain("x");
    assert ["./y.md"][1..] == [];
  }

  /** With an encoder that changes nothing, "/content/x.md" gets the url "x". */
  lemma ExampleFileUrl(encode: string -> string)
    requires forall s :: encode(s) == s
    ensures UrlOfRelative("/content/x.md", encode) == "x"
  {
    assert NoMd("x");
    UrlOfPlainPath("x", encode);
    assert "/content/" + "x" + ".md" == "/content/x.md";
  }

  /** The title of "/r/content/x.md" is "x". */
  lemma ExampleFileTitle()
    ensures Title("/r/content/x.md") == "x"
  {
    var last := "x" + ".md";
    assert last[0] == 'x' && last[0..3][0] == last[0];
    assert !OccursAt(last, ".md", 0);
    TitleOfMarkdownFile("/r/content", "x");
    assert "/r/content" + "/" + "x" + ".md" == "/r/content/x.md";
  }

  /** One file through the whole per-file body: with an encoder that
      changes nothing, the file "/r/content/x.md" under root "/r", whose
      text holds the href "./y.md" and whose content without front matter
      is "c", becomes the post "x" titled "x" that links to "y". */
  lemma BuildPlainFile(f: SourceFile, root: string, env: Collaborators)
    requires f == SourceFile("/r/content/x.md", Some("t")) && root == "/r"
    requires forall s :: env.encode(s) == s
    requires env.extractLinks("t") == Some(["./y.md"])
    requires env.frontMatter("t") == Some("c")
    ensures BuildPost(f, root, env) == Some(Post("x", "x", "c", ["y"], []))
  {
    ExampleFileRoot();
    ExampleFileUrl(env.encode);
    ExampleFileTitle();
    ExampleFileLinks();
    assert EndsWith(f.path, ".md");
  }

  /** The constructor's file loop: `addPost` for every file that yields a
      post, in scan order. */
  function Ingest(ps: seq<Post>, files: seq<SourceFile>, root: string, env: Collaborators): (r: seq<Post>)
    requires |root| > 0
    ensures |ps| <= |r| <= |ps| + |files|
    ensures r[..|ps|] == ps
    ensures forall i :: |ps| <= i < |r| ==> IsNewPost(r[i])
    decreases |files|
  {
    if |files| == 0 then ps
    else
      var next := match BuildPost(files[0], root, env) case Some(p) => AddPost(ps, p) case None => ps;
      Ingest(next, files[1..], root, env)
  }

  /** The posts the files yield, in scan order: a reference for the loop. */
  function BuiltPosts(files: seq<SourceFile>, root: string, env: Collaborators): (r: seq<Post>)
    requires |root| > 0
  {
    if |files| == 0 then []
    else
      (match BuildPost(files[0], root, env) case Some(p) => [p] case None => [])
      + BuiltPosts(files[1..], root, env)
  }

  /** The loop appends exactly the posts the files yield, in scan order. */
  lemma {:induction false} IngestAppendsBuiltPosts(ps: seq<Post>, files: seq<SourceFile>, root: string, env: Collaborators)
    requires |root| > 0
    ensures Ingest(ps, files, root, env) == ps + BuiltPosts(files, root, env)
    decreases |files|
  {
    if |files| > 0 {
      var rest := BuiltPosts(files[1..], root, env);
      match BuildPost(files[0], root, env)
      case Some(p) =>
        assert Ingest(ps, files, root, env) == Ingest(ps + [p], files[1..], root, env);
        IngestAppendsBuiltPosts(ps + [p], files[1..], root, env);
        assert BuiltPosts(files, root, env) == [p] + rest;
        assert (ps + [p]) + rest == ps + ([p] + rest);
      case None =>
        assert Ingest(ps, files, root, env) == Ingest(ps, files[1..], root, env);
        IngestAppendsBuiltPosts(ps, files[1..], root, env);
        assert BuiltPosts(files, root, env) == rest;
    }
  }

  /** The whole constructor: ingest every file, then `updateLinks`. The
      graph holds the posts the files yield, in scan order, with only
      backlinks added to them. */
  function Build(files: seq<SourceFile>, root: string, env: Collaborators): (r: seq<Post>)
    requires |root| > 0
    ensures |r| <= |files|
    ensures Extends(BuiltPosts(files, root, env), r)
    ensures NoDuplicateBacklinks(r)
    ensures forall k :: 0 <= k < |r| ==> r[k].url !in r[k].links
  {
    var posts := Ingest([], files, root, env);
    IngestAppendsBuiltPosts([], files, root, env);
    assert [] + BuiltPosts(files, root, env) == BuiltPosts(files, root, env);
    UpdateLinks(posts)
  }

  /** The inversion invariant as the code realises it: a built post holds
      backlink `b` exactly when it is the first post with its url and some
      post with url `b` links to that url. */
  lemma BuildBacklinksExact(files: seq<SourceFile>, root: string, env: Collaborators)
    requires |root| > 0
    ensures var r := Build(files, root, env);
      forall k, b :: 0 <= k < |r| ==>
        (b in r[k].backlinks <==>
          IsFirstWithUrl(r, k) && exists j :: 0 <= j < |r| && r[j].url == b && r[k].url in r[j].links)
  {
    var posts := Ingest([], files, root, env);
    var r := UpdateLinks(posts);
    UpdateLinksMembership(posts);
    forall k, b | 0 <= k < |r|
      ensures b in r[k].backlinks <==>
        IsFirstWithUrl(r, k) && exists j :: 0 <= j < |r| && r[j].url == b && r[k].url in r[j].links
    {
      ExtendsKeepsLookup(posts, r, posts[k].url);
      assert posts[k].backlinks == [];
      assert b in r[k].backlinks <==>
        IsFirstWithUrl(posts, k) && LinkedFromBefore(posts, |posts|, b, posts[k].url);
      if LinkedFromBefore(posts, |posts|, b, posts[k].url) {
        var j :| 0 <= j < |posts| && j < |posts| && posts[j].url == b && posts[k].url in posts[j].links;
        assert r[j].url == b && r[k].url in r[j].links;
      }
      if exists j :: 0 <= j < |r| && r[j].url == b && r[k].url in r[j].links {
        var j :| 0 <= j < |r| && r[j].url == b && r[k].url in r[j].links;
        assert posts[j].url == b && posts[k].url in posts[j].links;
      }
    }
  }

  /** No built post is its own backlink. */
  lemma BuildNoSelfBacklinks(files: seq<SourceFile>, root: string, env: Collaborators)
    requires |root| > 0
    ensures var r := Build(files, root, env);
      forall k :: 0 <= k < |r| ==> r[k].url !in r[k].backlinks
  {
    BuildBacklinksExact(files, root, env);
  }

  /** Completeness of the built graph: every link that names a post shows
      up as a backlink on the post a lookup finds. */
  lemma BuildComplete(files: seq<SourceFile>, root: string, env: Collaborators)
    requires |root| > 0
    ensures var r := Build(files, root, env);
      forall i, t :: 0 <= i < |r| && t in r[i].links && GetPostByUrl(r, t).Some? ==>
        r[i].url in GetPostByUrl(r, t).value.backlinks
  {
    var posts := Ingest([], files, root, env);
    var r := UpdateLinks(posts);
    forall i, t | 0 <= i < |r| && t in r[i].links && GetPostByUrl(r, t).Some?
      ensures r[i].url in GetPostByUrl(r, t).value.backlinks
    {
      UpdateLinksComplete(posts, i, t);
    }
  }
}
