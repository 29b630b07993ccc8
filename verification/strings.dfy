/** The JavaScript string operations the content graph is built from:
    `split` and `join` on a separator, `startsWith`/`endsWith`, `replace`
    with a string pattern (first occurrence only), `replace(/\\/g, "/")`
    and the global regular expression `/.md/g`. Strings are `seq<char>`. */
module Strings {

  /** `s.startsWith(p)` */
  predicate StartsWith(s: string, p: string) {
    p <= s
  }

  /** `s.endsWith(p)` */
  predicate EndsWith(s: string, p: string) {
    |p| <= |s| && s[|s| - |p|..] == p
  }

  // ---------------------------------------------------------------------
  // split / join

  /** `s.split(sep)` for a non-empty separator string: the pieces between
      the non-overlapping occurrences of `sep`, found left to right. Like
      JavaScript, splitting the empty string yields one empty piece. */
  function Split(s: string, sep: string): (r: seq<string>)
    requires |sep| > 0
    ensures |r| > 0
  {
    SplitFrom(s, sep, "")
  }

  /** Splitting with `cur` already collected for the current piece. */
  function SplitFrom(s: string, sep: string, cur: string): (r: seq<string>)
    requires |sep| > 0
    ensures |r| > 0
    decreases |s|
  {
    if |s| == 0 then [cur]
    else if sep <= s then [cur] + SplitFrom(s[|sep|..], sep, "")
    else SplitFrom(s[1..], sep, cur + [s[0]])
  }

  /** Without any occurrence of the separator, the rest of the string is
      one piece. */
  lemma {:induction false} SplitFromNoSeparator(s: string, sep: string, cur: string)
    requires |sep| > 0
    requires forall i: nat :: !OccursAt(s, sep, i)
    ensures SplitFrom(s, sep, cur) == [cur + s]
    decreases |s|
  {
    if |s| > 0 {
      assert !OccursAt(s, sep, 0);
      assert !(sep <= s);
      forall i: nat
        ensures !OccursAt(s[1..], sep, i)
      {
        OccursAtTail(s, sep, i);
      }
      SplitFromNoSeparator(s[1..], sep, cur + [s[0]]);
      assert (cur + [s[0]]) + s[1..] == cur + s;
    } else {
      assert cur + s == cur;
    }
  }

  /** A string that starts with the separator and never has it again
      splits into an empty piece and the rest. */
  lemma SplitAfterLeadingSeparator(sep: string, rest: string)
    requires |sep| > 0
    requires forall i: nat :: !OccursAt(rest, sep, i)
    ensures Split(sep + rest, sep) == ["", rest]
  {
    var s := sep + rest;
    assert sep <= s;
    assert s[|sep|..] == rest;
    SplitFromNoSeparator(rest, sep, "");
    assert "" + rest == rest;
  }

  /** `xs.join(sep)`; the empty array joins to the empty string. */
  function Join(xs: seq<string>, sep: string): (r: string)
  {
    if |xs| == 0 then ""
    else if |xs| == 1 then xs[0]
    else xs[0] + sep + Join(xs[1..], sep)
  }

  /** The path segments of a slash-separated url: `s.split("/")`. */
  function Segments(s: string): (r: seq<string>)
    ensures |r| > 0
  {
    Split(s, "/")
  }

  /** `xs.join("/")` */
  function JoinPath(xs: seq<string>): (r: string)
  {
    Join(xs, "/")
  }

  /** `xs.slice(0, -n)` for n > 0: everything but the last `n` elements,
      or nothing when there are no more than `n`. */
  function DropLast<T>(xs: seq<T>, n: nat): (r: seq<T>)
  {
    if |xs| <= n then [] else xs[..|xs| - n]
  }

  /** A piece that contains no separator character. */
  predicate NoSlash(x: string) {
    '/' !in x
  }

  lemma {:induction false} JoinSplitFrom(s: string, sep: string, cur: string)
    requires |sep| > 0
    ensures Join(SplitFrom(s, sep, cur), sep) == cur + s
    decreases |s|
  {
    if |s| == 0 {
    } else if sep <= s {
      var rest := SplitFrom(s[|sep|..], sep, "");
      JoinSplitFrom(s[|sep|..], sep, "");
      assert ([cur] + rest)[1..] == rest;
      assert s == sep + s[|sep|..];
    } else {
      JoinSplitFrom(s[1..], sep, cur + [s[0]]);
      assert (cur + [s[0]]) + s[1..] == cur + s;
    }
  }

  /** Joining the pieces of a split gives back the original string. */
  lemma JoinSplit(s: string, sep: string)
    requires |sep| > 0
    ensures Join(Split(s, sep), sep) == s
  {
    JoinSplitFrom(s, sep, "");
  }

  /** A piece free of the separator character is absorbed whole into the
      piece being collected. */
  lemma {:induction false} SplitFromPiece(x: string, rest: string, c: char, cur: string)
    requires c !in x
    ensures SplitFrom(x + rest, [c], cur) == SplitFrom(rest, [c], cur + x)
    decreases |x|
  {
    if |x| == 0 {
      assert x + rest == rest;
      assert cur + x == cur;
    } else {
      var s := x + rest;
      assert s[0] == x[0] && x[0] != c;
      assert !([c] <= s);
      assert s[1..] == x[1..] + rest;
      SplitFromPiece(x[1..], rest, c, cur + [x[0]]);
      assert (cur + [x[0]]) + x[1..] == cur + x;
    }
  }

  lemma {:induction false} SplitFromJoin(xs: seq<string>, c: char, cur: string)
    requires |xs| > 0
    requires forall i :: 0 <= i < |xs| ==> c !in xs[i]
    ensures SplitFrom(Join(xs, [c]), [c], cur) == [cur + xs[0]] + xs[1..]
    decreases |xs|
  {
    if |xs| == 1 {
      SplitFromPiece(xs[0], "", c, cur);
      assert xs[0] + "" == xs[0];
    } else {
      var tail := Join(xs[1..], [c]);
      assert Join(xs, [c]) == xs[0] + ([c] + tail);
      SplitFromPiece(xs[0], [c] + tail, c, cur);
      assert ([c] + tail)[1..] == tail;
      SplitFromJoin(xs[1..], c, "");
      assert "" + xs[1][0..] == xs[1];
      assert [xs[1]] + xs[2..] == xs[1..];
    }
  }

  /** Splitting a join of separator-free pieces gives back the pieces. */
  lemma SplitJoin(xs: seq<string>, c: char)
    requires |xs| > 0
    requires forall i :: 0 <= i < |xs| ==> c !in xs[i]
    ensures Split(Join(xs, [c]), [c]) == xs
  {
    SplitFromJoin(xs, c, "");
    assert "" + xs[0] == xs[0];
    assert [xs[0]] + xs[1..] == xs;
  }

  /** Segment round trip, both directions: a url is the join of its
      segments, and slash-free segments are what their join splits into. */
  lemma SegmentsRoundTrip(s: string, xs: seq<string>)
    ensures JoinPath(Segments(s)) == s
    ensures |xs| > 0 && (forall i :: 0 <= i < |xs| ==> NoSlash(xs[i])) ==> Segments(JoinPath(xs)) == xs
  {
    JoinSplit(s, "/");
    if |xs| > 0 && (forall i :: 0 <= i < |xs| ==> NoSlash(xs[i])) {
      SplitJoin(xs, '/');
    }
  }

  /** No segment of a url contains the separator. */
  lemma {:induction false} SegmentsNoSlash(s: string, cur: string)
    requires NoSlash(cur)
    ensures forall i :: 0 <= i < |SplitFrom(s, "/", cur)| ==> NoSlash(SplitFrom(s, "/", cur)[i])
    decreases |s|
  {
    if |s| == 0 {
    } else if "/" <= s {
      SegmentsNoSlash(s[|"/"|..], "");
    } else {
      assert s[0] != '/';
      SegmentsNoSlash(s[1..], cur + [s[0]]);
    }
  }

  /** A slash-free first piece followed by a slash is the first segment,
      and the rest of the url provides the remaining segments. */
  lemma SegmentsOfPrefixed(x: string, rest: string)
    requires NoSlash(x)
    ensures Segments(x + "/" + rest) == [x] + Segments(rest)
  {
    assert x + "/" + rest == x + ("/" + rest);
    SplitFromPiece(x, "/" + rest, '/', "");
    assert "" + x == x;
    assert ("/" + rest)[1..] == rest;
  }

  /** A url without any slash is a single segment. */
  lemma SegmentsOfPlain(x: string)
    requires NoSlash(x)
    ensures Segments(x) == [x]
  {
    SplitFromPiece(x, "", '/', "");
    assert x + "" == x;
    assert "" + x == x;
  }

  /** The text after a url's last slash is its last segment. */
  lemma LastSegmentAfterSlash(x: string, y: string)
    requires NoSlash(y)
    ensures LastSegment(x + "/" + y) == y
  {
    var xs := Segments(x);
    JoinSplit(x, "/");
    JoinAppend(xs, [y], "/");
    SegmentsNoSlash(x, "");
    SplitJoin(xs + [y], '/');
  }

  /** Joining two non-empty segment lists puts one separator between them. */
  lemma {:induction false} JoinAppend(xs: seq<string>, ys: seq<string>, sep: string)
    requires |xs| > 0 && |ys| > 0
    ensures Join(xs + ys, sep) == Join(xs, sep) + sep + Join(ys, sep)
    decreases |xs|
  {
    if |xs| == 1 {
      assert (xs + ys)[1..] == ys;
    } else {
      assert (xs + ys)[1..] == xs[1..] + ys;
      JoinAppend(xs[1..], ys, sep);
    }
  }

  /** The last segment of a url: `s.split("/")[s.split("/").length - 1]`. */
  function LastSegment(s: string): (r: string)
  {
    Segments(s)[|Segments(s)| - 1]
  }

  /** The url minus its last segment: `s.split("/").slice(0, -1).join("/")`. */
  function Directory(s: string): (r: string)
  {
    JoinPath(DropLast(Segments(s), 1))
  }

  /** The position of the first slash in a url that has one. */
  function FirstSlash(s: string): (k: nat)
    requires '/' in s
    ensures k < |s| && s[k] == '/' && NoSlash(s[..k])
  {
    if s[0] == '/' then 0
    else
      var k := FirstSlash(s[1..]);
      assert s[..k + 1] == [s[0]] + s[1..][..k];
      k + 1
  }

  /** A url with a slash has at least two segments: the text before its
      first slash, then the segments of the text after it. */
  lemma SegmentsAtFirstSlash(s: string)
    requires '/' in s
    ensures Segments(s) == [s[..FirstSlash(s)]] + Segments(s[FirstSlash(s) + 1..])
  {
    var k := FirstSlash(s);
    assert s == s[..k] + "/" + s[k + 1..];
    SegmentsOfPrefixed(s[..k], s[k + 1..]);
  }

  /** Directory and last segment split a url at its last slash: the last
      segment is slash-free and the directory is everything before it.
      A url with no slash is all last segment and has an empty directory. */
  lemma DirectorySplit(s: string)
    ensures NoSlash(LastSegment(s))
    ensures NoSlash(s) ==> Directory(s) == "" && LastSegment(s) == s
    ensures !NoSlash(s) ==> s == Directory(s) + "/" + LastSegment(s)
  {
    var segs := Segments(s);
    SegmentsNoSlash(s, "");
    if NoSlash(s) {
      SegmentsOfPlain(s);
    } else {
      SegmentsAtFirstSlash(s);
      assert |segs| >= 2;
      assert segs == DropLast(segs, 1) + [segs[|segs| - 1]];
      JoinAppend(DropLast(segs, 1), [segs[|segs| - 1]], "/");
      JoinSplit(s, "/");
    }
  }

  /** The directory of a url is itself made of the url's leading segments. */
  lemma SegmentsOfDirectory(s: string)
    requires |Segments(s)| >= 2
    ensures Segments(Directory(s)) == DropLast(Segments(s), 1)
  {
    var segs := Segments(s);
    SegmentsNoSlash(s, "");
    var d := DropLast(segs, 1);
    assert forall i :: 0 <= i < |d| ==> d[i] == segs[i];
    SegmentsRoundTrip("", d);
  }

  // ---------------------------------------------------------------------
  // replace

  /** `s.replace(pat, rep)` with a string pattern: only the first
      occurrence of `pat` is replaced. */
  function ReplaceFirst(s: string, pat: string, rep: string): (r: string)
    decreases |s|
  {
    if pat <= s then rep + s[|pat|..]
    else if |s| == 0 then s
    else [s[0]] + ReplaceFirst(s[1..], pat, rep)
  }

  /** Does `pat` occur in `s` starting at position `i`? */
  predicate OccursAt(s: string, pat: string, i: nat) {
    i + |pat| <= |s| && s[i..i + |pat|] == pat
  }

  /** An occurrence in the tail of a string is one position further on in
      the string. */
  lemma OccursAtTail(s: string, pat: string, i: nat)
    requires |s| > 0
    ensures OccursAt(s[1..], pat, i) <==> OccursAt(s, pat, i + 1)
  {
    if i + |pat| <= |s| - 1 {
      assert s[1..][i..i + |pat|] == s[i + 1..i + 1 + |pat|];
    }
  }

  /** The first `n` characters, in none of which the pattern starts, are
      kept as they are. */
  lemma {:induction false} ReplaceFirstSkips(s: string, pat: string, rep: string, n: nat)
    requires n <= |s|
    requires forall i: nat :: i < n ==> !OccursAt(s, pat, i)
    ensures ReplaceFirst(s, pat, rep) == s[..n] + ReplaceFirst(s[n..], pat, rep)
    decreases n
  {
    if n > 0 {
      assert !OccursAt(s, pat, 0);
      forall i: nat | i < n - 1
        ensures !OccursAt(s[1..], pat, i)
      {
        OccursAtTail(s, pat, i);
      }
      ReplaceFirstSkips(s[1..], pat, rep, n - 1);
      assert s[1..][..n - 1] == s[1..n];
      assert s[1..][n - 1..] == s[n..];
      assert [s[0]] + s[1..n] == s[..n];
    }
  }

  /** `s.replace(/<a>/g, b)` for a single character: the length is kept,
      a string without `a` is left alone, and afterwards `a` is gone and
      every other character is still there. */
  function ReplaceChar(s: string, a: char, b: char): (r: string)
    ensures |r| == |s|
    ensures a !in s ==> r == s
    ensures a != b ==> a !in r
    ensures forall c :: c != a && c in s ==> c in r
  {
    var r := seq(|s|, i requires 0 <= i < |s| => if s[i] == a then b else s[i]);
    assert forall i :: 0 <= i < |s| && s[i] != a ==> r[i] == s[i];
    r
  }

  // ---------------------------------------------------------------------
  // the regular expression /.md/g

  /** The characters the regular-expression wildcard `.` does not match. */
  predicate IsLineTerminator(c: char) {
    c == '\n' || c == '\r' || c == '\U{2028}' || c == '\U{2029}'
  }

  /** Does a match of `/.md/` start at position `i`? */
  predicate DotMdAt(s: string, i: nat) {
    i + 3 <= |s| && !IsLineTerminator(s[i]) && s[i + 1] == 'm' && s[i + 2] == 'd'
  }

  /** `s.replace(/.md/g, "")`: scanning left to right, every three
      characters made of a non-line-terminator followed by "md" are
      removed, and scanning resumes after them. This strips far more than
      a ".md" extension. */
  function StripMd(s: string): (r: string)
    decreases |s|
  {
    if |s| == 0 then ""
    else if DotMdAt(s, 0) then StripMd(s[3..])
    else [s[0]] + StripMd(s[1..])
  }

  /** No two adjacent characters read "md". */
  predicate NoMd(s: string) {
    forall i :: 0 <= i < |s| - 1 ==> !(s[i] == 'm' && s[i + 1] == 'd')
  }

  /** Without any "md" in it, a string survives the regular expression, and
      so does anything preceding a ".md" extension. */
  lemma {:induction false} StripMdKeeps(x: string)
    requires NoMd(x)
    ensures StripMd(x) == x
    ensures StripMd(x + ".md") == x
    decreases |x|
  {
    if |x| == 0 {
      assert "" + ".md" == ".md";
      assert DotMdAt(".md", 0);
      assert ".md"[3..] == "";
    } else {
      var y := x + ".md";
      assert !DotMdAt(x, 0);
      assert !DotMdAt(y, 0) by {
        if |x| >= 2 {
          assert y[1] == x[1] && y[2] == (if |x| >= 3 then x[2] else '.');
        } else {
          assert y[1] == '.';
        }
      }
      assert y[1..] == x[1..] + ".md";
      assert NoMd(x[1..]) by {
        forall i | 0 <= i < |x[1..]| - 1
          ensures !(x[1..][i] == 'm' && x[1..][i + 1] == 'd')
        {
          assert x[1..][i] == x[i + 1] && x[1..][i + 1] == x[i + 2];
        }
      }
      StripMdKeeps(x[1..]);
      assert [x[0]] + x[1..] == x;
    }
  }

  /** A prefix in which no match starts passes through the regular
      expression untouched. */
  lemma {:induction false} StripMdPrefix(x: string, y: string)
    requires forall i: nat :: i < |x| ==> !DotMdAt(x + y, i)
    ensures StripMd(x + y) == x + StripMd(y)
    decreases |x|
  {
    if |x| > 0 {
      var s := x + y;
      assert !DotMdAt(s, 0);
      assert s[1..] == x[1..] + y;
      forall i: nat | i < |x[1..]|
        ensures !DotMdAt(x[1..] + y, i)
      {
        assert !DotMdAt(s, i + 1);
        assert (x[1..] + y)[i..] == s[i + 1..];
      }
      StripMdPrefix(x[1..], y);
      assert [x[0]] + x[1..] == x;
    } else {
      assert x + y == y;
    }
  }

  /** The regular expression only ever deletes: its result is never longer. */
  lemma {:induction false} StripMdShrinks(s: string)
    ensures |StripMd(s)| <= |s|
    decreases |s|
  {
    if |s| == 0 {
    } else if DotMdAt(s, 0) {
      StripMdShrinks(s[3..]);
    } else {
      StripMdShrinks(s[1..]);
    }
  }

  /** The quirk in action: a file named "cmd.md" loses its whole name, and
      "./cmd.md" keeps only the "./". */
  lemma StripMdQuirk()
    ensures StripMd("cmd.md") == ""
    ensures StripMd("./cmd.md") == "./"
  {
    assert DotMdAt("cmd.md", 0);
    assert "cmd.md"[3..] == ".md";
    assert DotMdAt(".md", 0);
    assert ".md"[3..] == "";
    assert !DotMdAt("./cmd.md", 0);
    assert "./cmd.md"[1..] == "/cmd.md";
    assert !DotMdAt("/cmd.md", 0);
    assert "/cmd.md"[1..] == "cmd.md";
  }
}
