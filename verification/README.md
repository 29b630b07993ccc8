# Content graph of a markdown documentation site, in Dafny

This project models the content graph of a static documentation site
generator (`utils/ContentGraph.ts`). The graph is built once from a
directory of markdown files. Each file becomes a *post* with a url, a
title, its content, the urls it links to (`links`) and the urls of the
posts linking to it (`backlinks`).

The model has six modules, one per concern of the source file:

- `Optional`: the `Option` type, standing for the source's `null` and for
  exceptions its callers catch.
- `Strings`: the JavaScript string operations the code is built from.
  These are `split`/`join` on a separator, `replace` with a string pattern
  (first occurrence only), `replace(/\\/g, "/")`, and the regular
  expression `/.md/g`. That regular expression removes every character
  followed by "md", not only a ".md" extension.
- `Resolver`: `parsePostLink`, which turns an extension-stripped href into
  the url of the target post. It has four branches: "./", "../"
  (recursive), a leading "/", and bare.
- `Posts`: the `Post` and `DeepPost` records, `addPost`, `getPostByUrl`
  (the first post with a url) and `getDeepPostByUrl` (a one-level
  expansion of links and backlinks into posts).
- `Backlinks`: `updateLinks`, the second pass that inverts links into
  backlinks. It is a fold that returns a new sequence of posts instead of
  mutating post objects. The post that `getPostByUrl` hands back is
  addressed by its position.
- `Builder`: the constructor. It covers url and title derivation from the
  file path, link collection, the per-file `try`, and `Build`, which
  ingests all files and then runs `updateLinks`.

Everything is a pure function over sequences and strings. The file system
and the three foreign libraries are inputs:

- The corpus is a sequence of `SourceFile(path, text)`. `text` is `None`
  when reading the file throws.
- `encodeURIComponent` is a function parameter.
- `markdown-link-extractor` returns `None` when it throws.
- `gray-matter` returns `None` when it throws. Otherwise it returns the
  content without front matter.

These live in a `Collaborators` value. The project root
(`path.resolve("")`) is a non-empty string parameter.

## Behaviour of the code worth knowing

- **`../` climbs two directory levels.** "../d" from "a/b/c" resolves to
  "d". Line 155 drops the last two segments of the source url, and the
  recursive call's bare branch (line 169) drops one more
  (`Resolver.ResolveParent`, `Resolver.ResolveParentExamples`).
- **A bare multi-segment href loses its first segment.** "sub/page" from
  "a/b/c" resolves to "a/b/page", because line 174 keeps only
  `slice(1)` of the href's segments (`Resolver.ResolveBareDropsFirstSegment`).
- **An absolute href keeps its leading "/".** Line 165 returns it
  unchanged (`Resolver.ResolveAbsolute`). Lines 30-32 drop only one
  leading separator from a derived url, so an absolute link matches a
  post only when that post's url itself starts with "/". That happens
  when `/.md/g` empties the first directory below content/ and leaves
  the slash after it, as "cmd" does. The file "content/cmd/x.md" gets
  the url "/x": "/content/cmd/x.md" becomes "/content//x", then "//x",
  then "/x". The href "/x.md" from any post resolves to that same "/x".
  A deeper emptied directory gives a url like "a//x" instead
  ("content/a/cmd/x.md"). A match that swallows the slash before "md"
  gives a plain url ("content/md/x.md" gets "x").
- **`/.md/g` removes any character followed by "md".** Lines 28 and 42
  use a regular expression whose `.` is a wildcard. So "cmd.md" becomes ""
  (`Strings.StripMdQuirk`).
- **External links ending in ".md" are resolved as post links.** The
  filter at line 39 only looks at the extension, so "http://x/y.md" in
  post "a" becomes the link "/x/y" (`Builder.ExternalLinkCollected`).
- **A file whose read or link extraction throws is skipped.** The `try` at
  lines 16-72 covers the path split, `readFileSync` and the extractor. A
  failure there means no post. Only a gray-matter failure (lines 58-63)
  falls back to the raw text (`Builder.BuildPost`).
- **Only the first post with a url receives backlinks.** Line 90 looks
  the link up with `getPostByUrl`, which returns the first match. A later
  post with the same url never gets a backlink (`Builder.BuildBacklinksExact`).

## Model

| member | source | states |
|---|---|---|
| Strings.Split | utils/ContentGraph.ts:17-24 | JavaScript `split` on a string separator. It always yields at least one piece; `Strings.SplitAfterLeadingSeparator`, `Strings.JoinSplit` and `Strings.SegmentsRoundTrip` characterise it. |
| Strings.Join | utils/ContentGraph.ts:26 | JavaScript `join`. `Strings.SegmentsRoundTrip` and `Strings.JoinAppend` characterise it. |
| Strings.ReplaceChar | utils/ContentGraph.ts:18-23 | `replace(/\\/g, "/")` keeps the length, leaves a string without backslashes alone, and removes every backslash while keeping every other character. |
| Strings.ReplaceFirst | utils/ContentGraph.ts:28 | `replace` with a string pattern, first occurrence only. `Strings.ReplaceFirstSkips` and `Builder.ReplaceContentPrefix` characterise it. |
| Strings.StripMd | utils/ContentGraph.ts:28 | `replace(/.md/g, "")`, scanning left to right. `Strings.StripMdKeeps`, `Strings.StripMdShrinks` and `Strings.StripMdQuirk` characterise it. |
| Strings.SegmentsRoundTrip | utils/ContentGraph.ts:149-151 | Joining a url's `split("/")` segments gives back the url. Splitting a join of slash-free segments gives back the segments. |
| Strings.DirectorySplit | utils/ContentGraph.ts:149 | `slice(0, -1)` of the segments, joined, is the text before the url's last slash, and the last segment is slash-free. A url with no slash has an empty directory. |
| Strings.LastSegmentAfterSlash | utils/ContentGraph.ts:18-20 | The last element of `split("/")` is the text after the final slash. |
| Strings.StripMdKeeps | utils/ContentGraph.ts:42 | `replace(/.md/g, "")` leaves a string with no "md" in it unchanged. It removes exactly the ".md" extension of such a name. |
| Strings.StripMdQuirk | utils/ContentGraph.ts:28 | The regular expression removes any character followed by "md": "cmd.md" becomes "" and "./cmd.md" becomes "./". |
| Strings.StripMdShrinks | utils/ContentGraph.ts:28 | The regular expression only deletes: the result is never longer than its input. |
| Strings.SplitAfterLeadingSeparator | utils/ContentGraph.ts:17 | A string that starts with the separator and never repeats it splits into "" and the rest. |
| Strings.ReplaceFirstSkips | utils/ContentGraph.ts:52 | `replace` with a string pattern keeps every character before the first occurrence of the pattern. |
| Resolver.ParsePostLink | utils/ContentGraph.ts:144-178 | `parsePostLink`, with its four branches in the source's order. `Resolver.ResolveCurrentDirectory`, `Resolver.ResolveParent`, `Resolver.ResolveAbsolute` and `Resolver.ResolveBare` characterise each branch for all inputs. |
| Resolver.ParentBase | utils/ContentGraph.ts:153-156 | The base of the "../" branch. `Resolver.ParentBaseIsGrandparent` shows it is the directory of the source's directory. |
| Resolver.ParentRemainder | utils/ContentGraph.ts:158-161 | Both ways the source computes the remainder of a "../" href give exactly the text after "../", so each recursive call's href is three characters shorter. |
| Resolver.ResolveCurrentDirectory | utils/ContentGraph.ts:148-151 | A "./x" href resolves to x placed in the source's directory, or to x alone from a single-segment source. |
| Resolver.ParentBaseIsGrandparent | utils/ContentGraph.ts:153-156 | The "../" base (the source minus two segments, or "" when it has at most two) is the directory of the source's directory. |
| Resolver.ResolveParent | utils/ContentGraph.ts:152-163 | A "../x" href resolves as x does against the source's grandparent directory. Exactly one "../" is removed per step, and the href strictly shrinks. |
| Resolver.ResolveAbsolute | utils/ContentGraph.ts:164-165 | An href starting with "/" is returned unchanged, slash included. |
| Resolver.ResolveBare | utils/ContentGraph.ts:166-176 | A bare slash-free href lands in the source's directory. A bare href with a slash has everything up to its first slash dropped before it does. |
| Resolver.ResolveBareDropsFirstSegment | utils/ContentGraph.ts:172-176 | A bare "first/rest" (first not "", "." or "..") resolves exactly as "rest" placed in the source's directory. |
| Resolver.ResolveCurrentDirectoryExamples | utils/ContentGraph.ts:148-151 | ("a/b/c", "./d") gives "a/b/d" and ("c", "./d") gives "d". |
| Resolver.ResolveParentExamples | utils/ContentGraph.ts:152-163 | ("a/b/c", "../d") gives "d", and ("a/b/c/e", "../../d") gives "d". |
| Resolver.ResolveAbsoluteExample | utils/ContentGraph.ts:164-165 | ("a/b/c", "/x/y") gives "/x/y". |
| Resolver.ResolveBareExample | utils/ContentGraph.ts:166-176 | ("a/b/c", "d") gives "a/b/d". |
| Resolver.ResolveBareSubdirectoryExample | utils/ContentGraph.ts:172-174 | ("a/b/c", "sub/page") gives "a/b/page". |
| Posts.Matching | utils/ContentGraph.ts:104-105 | The filter `posts.filter(p => p.url === u)`, never longer than the posts. `Posts.MatchingHead` characterises it. |
| Posts.FirstIndexOf | utils/ContentGraph.ts:104-105 | The position of the first post with a url: absent exactly when no post has it, and no earlier post has it. |
| Posts.MatchingHead | utils/ContentGraph.ts:104-105 | `posts.filter(p => p.url === u)` is non-empty exactly when some post has url u, and its head is the first such post. |
| Posts.GetPostByUrl | utils/ContentGraph.ts:103-107 | null exactly when no post has the url. Otherwise the first post with it, whose url is the one asked for. |
| Posts.AddPost | utils/ContentGraph.ts:80-82 | After `addPost`, a url is present exactly when it was present before or is the new post's url. |
| Posts.AddPostFirstWins | utils/ContentGraph.ts:80-82 | Appending a post never changes what an existing url looks up to. The new post is found only for a url no earlier post has. |
| Posts.KeepExisting | utils/ContentGraph.ts:118-130 | The urls kept by the deep lookup all name an existing post. |
| Posts.ResolveAll | utils/ContentGraph.ts:118-130 | Each post kept by the deep lookup's loops is the first post with its url, and no more posts are kept than there were urls. |
| Posts.ResolveAllUrls | utils/ContentGraph.ts:118-130 | The posts kept are exactly those of the urls that name a post, in order, duplicates included. |
| Posts.GetDeepPostByUrl | utils/ContentGraph.ts:109-142 | null exactly when the url is absent. Otherwise url, title and content come from the first matching post. Its links and backlinks become the order-preserving sub-sequences that name existing posts, each mapped to the first post with that url. |
| Posts.DeepPostDropsDangling | utils/ContentGraph.ts:118-123 | A link to a url no post has is left out of the deep post's links. |
| Backlinks.ExtendsKeepsLookup | utils/ContentGraph.ts:90 | Appending backlinks never changes which post a url looks up to. |
| Backlinks.AddBacklink | utils/ContentGraph.ts:90-98 | The linking url is added to the looked-up post's backlinks exactly when it hits a post; nothing else changes and no duplicate appears. |
| Backlinks.AddBacklinks | utils/ContentGraph.ts:88-99 | The inner loop only appends backlinks and never creates a duplicate. |
| Backlinks.LinkFrom | utils/ContentGraph.ts:86-100 | The outer loop only appends backlinks and never creates a duplicate. |
| Backlinks.UpdateLinks | utils/ContentGraph.ts:84-101 | Url, title, content and links of every post are unchanged. Backlinks only grow at their end, and duplicate-free lists stay duplicate-free. |
| Backlinks.AddBacklinksMembership | utils/ContentGraph.ts:88-99 | After one post's links are processed, its url is a new backlink of exactly the posts that are first with a url among those links. |
| Backlinks.LinkStep | utils/ContentGraph.ts:86-100 | Processing one more post extends the backlink invariant to that post's links. |
| Backlinks.LinkFromMembership | utils/ContentGraph.ts:86-100 | The outer loop ends with the backlink invariant covering every post. |
| Backlinks.UpdateLinksMembership | utils/ContentGraph.ts:84-101 | After the pass, post k holds backlink b exactly when it held b before, or it is first with its url and some post with url b links to that url. |
| Backlinks.UpdateLinksComplete | utils/ContentGraph.ts:84-101 | For every link t of every post P, the post `getPostByUrl(t)` finds afterwards has P's url among its backlinks. |
| Backlinks.UpdateLinksSound | utils/ContentGraph.ts:92-98 | From empty backlinks, every backlink is the url of a post that links to the holder, and only the first post with a url holds any. |
| Backlinks.UpdateLinksIdempotent | utils/ContentGraph.ts:92-98 | Running the pass a second time changes nothing, because the duplicate check finds every backlink present. |
| Backlinks.UpdateLinksChain | utils/ContentGraph.ts:84-101 | Posts x to y to z: afterwards y has backlinks [x], z has [y] and x has none. |
| Backlinks.ChainFirstRound | utils/ContentGraph.ts:88-98 | In the chain example, processing x's links adds x to y's backlinks only. |
| Backlinks.ChainSecondRound | utils/ContentGraph.ts:88-98 | In the chain example, processing y's links adds y to z's backlinks only. |
| Builder.LinkTarget | utils/ContentGraph.ts:39-46 | One href's contribution to the links. `Builder.CollectLinksMembership` characterises it. |
| Builder.CollectLinks | utils/ContentGraph.ts:37-48 | The collected links never include the post's own url and are no more than the extracted hrefs. |
| Builder.CollectLinksAppend | utils/ContentGraph.ts:38-48 | Links are emitted in extraction order with duplicates kept: collecting over a concatenation concatenates the results. |
| Builder.CollectLinksMembership | utils/ContentGraph.ts:38-47 | A url is collected exactly when it is not the post's own url and some extracted href ending in ".md" resolves to it after `/.md/g` is stripped. |
| Builder.StripExternalLink | utils/ContentGraph.ts:42 | "http://x/y.md" is stripped to "http://x/y". |
| Builder.ExternalLinkCollected | utils/ContentGraph.ts:39-45 | With no scheme check, "http://x/y.md" in post "a" is collected as the link "/x/y". |
| Builder.RootRelative | utils/ContentGraph.ts:17 | `file.split(root)[1]`, or `undefined`. `Builder.RootRelativeOfFile` and `Builder.RootRelativeMissing` characterise it. |
| Builder.RootRelativeOfFile | utils/ContentGraph.ts:17 | `file.split(root)[1]` of root + rel is rel when rel does not contain the root again. |
| Builder.RootRelativeMissing | utils/ContentGraph.ts:17 | A path without the root has no `[1]` piece, so the post is skipped. |
| Builder.EncodeSegments | utils/ContentGraph.ts:22-26 | Each segment url-encoded, then re-joined. `Builder.EncodeSegmentsFixed` characterises it. |
| Builder.UrlOfRelative | utils/ContentGraph.ts:17-32 | The url derived from the root-relative path. `Builder.UrlOfPlainPath` characterises it. |
| Builder.EncodeSegmentsFixed | utils/ContentGraph.ts:22-26 | Encoding each segment and re-joining gives back the path when no segment needs encoding. |
| Builder.StripContentPath | utils/ContentGraph.ts:28 | For "/content/" + body + ".md" with no "md" in body, `/.md/g` removes only the extension. |
| Builder.ReplaceContentPrefix | utils/ContentGraph.ts:28 | `replace("content/", "")` on "/content/" + body leaves "/" + body. |
| Builder.UrlOfPlainPath | utils/ContentGraph.ts:17-32 | The file "/content/" + body + ".md" gets the url body when its segments need no encoding and body has no "md" and no backslash. |
| Builder.Title | utils/ContentGraph.ts:52 | The title derived from the file name. `Builder.TitleOfMarkdownFile` characterises it. |
| Builder.TitleOfMarkdownFile | utils/ContentGraph.ts:52 | The title of "dir/name.md" is "name" when the name holds no earlier ".md". |
| Builder.BuildPost | utils/ContentGraph.ts:14-73 | A post is made exactly when the path ends in ".md", it contains the root, the read succeeds and the extractor succeeds. Its url is derived from the root-relative path, its title from the file name, and its links are the collected links of the extracted hrefs. Its content is gray-matter's content, or the raw text when gray-matter fails. It has no backlinks and no self-link. |
| Builder.ExampleFileRoot | utils/ContentGraph.ts:17 | "/r/content/x.md" under root "/r" has the root-relative path "/content/x.md". |
| Builder.ExampleFileUrl | utils/ContentGraph.ts:17-32 | With an encoder that changes nothing, "/content/x.md" gets the url "x". |
| Builder.ExampleFileTitle | utils/ContentGraph.ts:52 | The title of "/r/content/x.md" is "x". |
| Builder.ExampleFileLinks | utils/ContentGraph.ts:37-48 | From post "x", the href "./y.md" is collected as the link "y". |
| Builder.BuildPlainFile | utils/ContentGraph.ts:14-66 | The file "/r/content/x.md" (root "/r") whose text has the href "./y.md" and content "c" becomes the post with url "x", title "x", content "c", links ["y"] and no backlinks. |
| Builder.Ingest | utils/ContentGraph.ts:14-74 | The loop keeps the posts it already has and appends at most one post per file. Each appended post is new: no backlinks, no self-link. |
| Builder.IngestAppendsBuiltPosts | utils/ContentGraph.ts:66 | The loop appends exactly the posts the files yield, in scan order. |
| Builder.Build | utils/ContentGraph.ts:11-77 | The built graph is the posts the files yield, in scan order, with only backlinks appended. Url, title, content and links are untouched. It has at most one post per file, no self-links and no duplicate backlinks. |
| Builder.BuildBacklinksExact | utils/ContentGraph.ts:76 | In the built graph, post k holds backlink b exactly when it is the first post with its url and some post with url b links to that url. |
| Builder.BuildNoSelfBacklinks | utils/ContentGraph.ts:44 | No built post is its own backlink. |
| Builder.BuildComplete | utils/ContentGraph.ts:76 | Every link of a built post that names a post is recorded as a backlink on the post a lookup of it finds. |

## Left out

- Directory scanning, file reading and `path.resolve` (utils/ContentGraph.ts:13, 34) are I/O. The corpus is an input sequence of paths with their text or a read failure, and the root is a parameter.
- The three foreign libraries are parameters, not models. These are `markdown-link-extractor`, `gray-matter` and `encodeURIComponent`. What hrefs a text contains, what front matter is, and how a segment is percent-encoded are not modelled.
- The asynchronous constructor and the module-level singleton (line 181) are left out. In the program, the singleton exposes `posts` while the `.then` callback is still adding posts, and before `updateLinks` has run. The model does not represent that window. Build is a pure function from the corpus to the finished sequence of posts.
- Logging of skipped files (`console.error`) is left out. It does not affect the graph.
- `Builder.RootRelative` requires a non-empty root. `path.resolve("")` is always an absolute path, and JavaScript's character-wise split on an empty separator is not modelled.
- The optional `metadata` field of `Post` and `DeepPost` is left out. This file never sets it.
- Two-hop neighbourhoods are left out. `getGraphElements` in pages/[...filePath].tsx builds one. It adds a post's link and backlink neighbours, then their links and backlinks, with no node or edge deduplication. It is page-component code mixed up with the `setGraphElements` hook setter, outside the modelled file.
- The served endpoint, search indexing and the React components are left out. They lie outside utils/ContentGraph.ts. The graph-neighbourhood code among them is covered by the previous line.
- Strings.StripMd: works on Unicode scalar values, where JavaScript strings are UTF-16 code units. Without the `u` flag, the wildcard of `/.md/g` matches a single code unit, so for a character outside the Basic Multilingual Plane followed by "md", JavaScript strips only its low surrogate; the model strips the whole character. The same holds for every length and index in `Strings`.
- Builder.BuildPost: `encodeURIComponent` throws URIError on a lone surrogate (line 25), and line 67 catches it, skipping the post. The model's `encode` parameter is total, so it never skips a post for that reason.
- Resolver.ParsePostLink: a chain of "../" deep enough to overflow the JavaScript call stack throws RangeError at line 163, and line 67 skips the whole post. The model's recursion always returns a value.
