/** `parsePostLink` (utils/ContentGraph.ts): turns an extension-stripped
    href found in a post into the url of the post it targets, given the
    linking post's own slash-separated url, called the source below. The
    four branches are tried in the code's order: "./", "../" (recursive),
    a leading "/", and bare. */
module Resolver {
  import opened Strings

  /** The href after its leading "../", computed as `parsePostLink` does: the
      second segment alone when the href has exactly two segments, else the
      join of every segment after the first. Either way it is exactly the
      text after the three-character prefix. */
  function ParentRemainder(href: string): (r: string)
    requires StartsWith(href, "../")
    ensures r == href[3..]
  {
    var hs := Segments(href);
    assert href == ".." + "/" + href[3..];
    SegmentsOfPrefixed("..", href[3..]);
    JoinSplit(href[3..], "/");
    assert hs[1..] == Segments(href[3..]);
    if |hs| > 2 then JoinPath(hs[1..]) else hs[1]
  }

  /** The base url the "../" branch resolves against: the source minus its
      last two segments, or "" when it has no more than two. */
  function ParentBase(src: string): (r: string)
  {
    if |Segments(src)| > 2 then JoinPath(DropLast(Segments(src), 2)) else ""
  }

  /** `parsePostLink(postAbsoluteUrl, linkRelativeUrl)` */
  function ParsePostLink(src: string, href: string): (r: string)
    decreases |href|
  {
    if StartsWith(href, "./") then
      JoinPath(DropLast(Segments(src), 1) + Segments(href)[1..])
    else if StartsWith(href, "../") then
      ParsePostLink(ParentBase(src), ParentRemainder(href))
    else if |href| > 0 && href[0] == '/' then
      href
    else
      var base := if |src| > 0 then DropLast(Segments(src), 1) else [];
      var hs := Segments(href);
      var addition := if |hs| > 1 then hs[1..] else [href];
      JoinPath(base + addition)
  }

  /** `rest` placed in the directory of `src`: after the directory and a
      slash, or alone when `src` is a single segment. */
  function InDirectoryOf(src: string, rest: string): (r: string)
  {
    if NoSlash(src) then rest else Directory(src) + "/" + rest
  }

  /** Joining the source's directory segments with some non-empty list of
      further segments places their join in the source's directory. */
  lemma JoinUnderDirectory(src: string, ys: seq<string>)
    requires |ys| > 0
    ensures JoinPath(DropLast(Segments(src), 1) + ys) == InDirectoryOf(src, JoinPath(ys))
  {
    var d := DropLast(Segments(src), 1);
    if NoSlash(src) {
      SegmentsOfPlain(src);
      assert d + ys == ys;
    } else {
      SegmentsAtFirstSlash(src);
      JoinAppend(d, ys, "/");
    }
  }

  /** "./x": the rest of the href after "./" goes into the source's
      directory; from a single-segment source it stands alone. */
  lemma ResolveCurrentDirectory(src: string, href: string)
    requires StartsWith(href, "./")
    ensures ParsePostLink(src, href) == InDirectoryOf(src, href[2..])
  {
    assert href == "." + "/" + href[2..];
    SegmentsOfPrefixed(".", href[2..]);
    assert Segments(href)[1..] == Segments(href[2..]);
    JoinUnderDirectory(src, Segments(href[2..]));
    JoinSplit(href[2..], "/");
  }

  /** The base of the "../" branch is two directory levels up from the
      source url, which already names a file: one level more than the
      file's own directory. */
  lemma ParentBaseIsGrandparent(src: string)
    ensures ParentBase(src) == Directory(Directory(src))
  {
    var segs := Segments(src);
    if |segs| > 2 {
      SegmentsOfDirectory(src);
      assert DropLast(DropLast(segs, 1), 1) == DropLast(segs, 2);
    } else if |segs| == 2 {
      SegmentsNoSlash(src, "");
      assert Directory(src) == segs[0];
      SegmentsOfPlain(segs[0]);
    } else {
      SegmentsOfPlain("");
    }
  }

  /** "../x": exactly one "../" is removed from the href, and the rest is
      resolved, recursively, against the source's grandparent directory. */
  lemma ResolveParent(src: string, href: string)
    requires StartsWith(href, "../")
    ensures ParsePostLink(src, href) == ParsePostLink(Directory(Directory(src)), href[3..])
    ensures |href[3..]| < |href|
  {
    assert href[1] == '.';
    assert !StartsWith(href, "./");
    ParentBaseIsGrandparent(src);
  }

  /** "/x": an absolute href is returned unchanged, leading slash and all. */
  lemma ResolveAbsolute(src: string, href: string)
    requires |href| > 0 && href[0] == '/'
    ensures ParsePostLink(src, href) == href
  {
  }

  /** A bare href without a slash goes into the source's directory; a bare
      href with a slash loses its first segment before it does. */
  lemma ResolveBare(src: string, href: string)
    requires !StartsWith(href, "./") && !StartsWith(href, "../")
    requires |href| == 0 || href[0] != '/'
    ensures NoSlash(href) ==> ParsePostLink(src, href) == InDirectoryOf(src, href)
    ensures !NoSlash(href) ==> ParsePostLink(src, href) == InDirectoryOf(src, href[FirstSlash(href) + 1..])
  {
    BareBranch(src, href);
    if NoSlash(href) {
      SegmentsOfPlain(href);
      JoinUnderDirectory(src, [href]);
    } else {
      var k := FirstSlash(href);
      SegmentsAtFirstSlash(href);
      assert Segments(href)[1..] == Segments(href[k + 1..]);
      JoinUnderDirectory(src, Segments(href[k + 1..]));
      JoinSplit(href[k + 1..], "/");
    }
  }

  /** The bare branch, with the empty source's base written as the
      directory segments it equals. */
  lemma BareBranch(src: string, href: string)
    requires !StartsWith(href, "./") && !StartsWith(href, "../")
    requires |href| == 0 || href[0] != '/'
    ensures ParsePostLink(src, href) == JoinPath(DropLast(Segments(src), 1)
      + (if |Segments(href)| > 1 then Segments(href)[1..] else [href]))
  {
    if |src| == 0 {
      SegmentsOfPlain(src);
    }
  }

  /** The segments of "a/b", used by the examples below. */
  lemma SegmentsAB()
    ensures Segments("a/b") == ["a", "b"]
  {
    assert "a/b" == "a" + "/" + "b";
    SegmentsOfPrefixed("a", "b");
    SegmentsOfPlain("b");
  }

  /** The segments of "a/b/c". */
  lemma SegmentsABC()
    ensures Segments("a/b/c") == ["a", "b", "c"]
  {
    assert "a/b/c" == "a" + "/" + "b/c";
    assert "b/c" == "b" + "/" + "c";
    SegmentsOfPrefixed("a", "b/c");
    SegmentsOfPrefixed("b", "c");
    SegmentsOfPlain("c");
  }

  /** The segments of "a/b/c/e". */
  lemma SegmentsABCE()
    ensures Segments("a/b/c/e") == ["a", "b", "c", "e"]
  {
    assert "a/b/c/e" == "a" + "/" + "b/c/e";
    SegmentsOfPrefixed("a", "b/c/e");
    assert "b/c/e" == "b" + "/" + "c/e";
    SegmentsOfPrefixed("b", "c/e");
    assert "c/e" == "c" + "/" + "e";
    SegmentsOfPrefixed("c", "e");
    SegmentsOfPlain("e");
  }

  /** The directories of the example urls. */
  lemma ExampleDirectories()
    ensures Directory("a/b/c/e") == "a/b/c"
    ensures Directory("a/b/c") == "a/b"
    ensures Directory("a/b") == "a"
    ensures Directory("a") == "" && Directory("") == ""
  {
    assert Directory("a/b/c/e") == "a/b/c" by {
      SegmentsABCE();
      assert DropLast(["a", "b", "c", "e"], 1) == ["a", "b", "c"];
    }
    assert Directory("a/b/c") == "a/b" by {
      SegmentsABC();
      assert DropLast(["a", "b", "c"], 1) == ["a", "b"];
    }
    assert Directory("a/b") == "a" by {
      SegmentsAB();
      assert DropLast(["a", "b"], 1) == ["a"];
    }
    SegmentsOfPlain("a");
    SegmentsOfPlain("");
  }

  /** "./" from "a/b/c" and from a single-segment source. */
  lemma ResolveCurrentDirectoryExamples()
    ensures ParsePostLink("a/b/c", "./d") == "a/b/d"
    ensures ParsePostLink("c", "./d") == "d"
  {
    ExampleDirectories();
    ResolveCurrentDirectory("a/b/c", "./d");
    ResolveCurrentDirectory("c", "./d");
    assert "./d"[2..] == "d";
  }

  /** "../" climbs two levels from "a/b/c", so "../d" resolves to "d"
      rather than "a/d"; a chained "../../d" from "a/b/c/e" also reaches
      the root. */
  lemma ResolveParentExamples()
    ensures ParsePostLink("a/b/c", "../d") == "d"
    ensures ParsePostLink("a/b/c/e", "../../d") == "d"
  {
    ExampleDirectories();
    ResolveParent("a/b/c", "../d");
    assert "../d"[3..] == "d";
    ResolveBare("a", "d");
    ResolveParent("a/b/c/e", "../../d");
    assert "../../d"[3..] == "../d";
    ResolveParent("a/b", "../d");
    ResolveBare("", "d");
  }

  /** An absolute href from "a/b/c" keeps its slash. */
  lemma ResolveAbsoluteExample()
    ensures ParsePostLink("a/b/c", "/x/y") == "/x/y"
  {
    ResolveAbsolute("a/b/c", "/x/y");
  }

  /** A bare single-segment href from "a/b/c" lands in "a/b". */
  lemma ResolveBareExample()
    ensures ParsePostLink("a/b/c", "d") == "a/b/d"
  {
    var src := "a/b/c";
    assert src[1] == '/';
    assert Directory(src) == "a/b" by { ExampleDirectories(); }
    assert InDirectoryOf(src, "d") == "a/b/d";
    assert "d"[0] == 'd' && NoSlash("d");
    ResolveBare(src, "d");
  }

  /** A bare href "first/rest" whose first segment is neither "." nor
      ".." nor empty resolves as if it were just "rest". */
  lemma ResolveBareDropsFirstSegment(src: string, first: string, rest: string)
    requires NoSlash(first) && first != "" && first != "." && first != ".."
    ensures ParsePostLink(src, first + "/" + rest) == InDirectoryOf(src, rest)
  {
    var href := first + "/" + rest;
    assert href[|first|] == '/';
    assert href[0] == first[0];
    if |first| == 1 {
      assert first == [first[0]] && href[1] == '/';
    } else if |first| == 2 {
      assert first == [first[0], first[1]] && href[1] == first[1] && href[2] == '/';
    } else {
      assert href[1] == first[1] && href[2] == first[2];
    }
    assert !StartsWith(href, "./");
    assert !StartsWith(href, "../");
    assert href[0] == first[0] != '/';
    ResolveBare(src, href);
    assert FirstSlash(href) == |first|;
    assert href[|first| + 1..] == rest;
  }

  /** A bare "sub/page" from "a/b/c" loses "sub" and lands in "a/b". */
  lemma ResolveBareSubdirectoryExample()
    ensures ParsePostLink("a/b/c", "sub/page") == "a/b/page"
  {
    var src := "a/b/c";
    assert src[1] == '/';
    assert Directory(src) == "a/b" by { ExampleDirectories(); }
    assert InDirectoryOf(src, "page") == "a/b/page";
    assert "sub/page" == "sub" + "/" + "page";
    ResolveBareDropsFirstSegment(src, "sub", "page");
  }
}
