/** The rule that turns the path of a result's `bloggerlink` URL into a
    blogger id: `path.strip('/').split('/')[-1]`, skipped when empty. The URL
    has already been parsed; only its path component is an input here.

    `BloggerId` computes the rule directly from the end of the path;
    `BloggerIdIsSplitRule` proves it equal to the strip-split-last
    composition for every path. */
module Paths {
  import opened Text

  /** The characters after the last `/` of `s` (all of `s` when it holds
      no `/`). */
  function TailRun(s: string): (r: string)
    ensures '/' !in r
    ensures |r| <= |s| && r == s[|s| - |r|..]
    ensures |r| < |s| ==> s[|s| - |r| - 1] == '/'
  {
    if |s| == 0 || s[|s| - 1] == '/' then []
    else
      var r := TailRun(s[..|s| - 1]) + [s[|s| - 1]];
      assert s[..|s| - 1][|s| - |r|..] + [s[|s| - 1]] == s[|s| - |r|..];
      r
  }

  /** The blogger id of a URL path: trailing slashes are skipped, then the
      last run of non-slash characters is taken. */
  function BloggerId(path: string): (id: string)
    ensures '/' !in id
  {
    if |path| == 0 then []
    else if path[|path| - 1] == '/' then BloggerId(path[..|path| - 1])
    else TailRun(path)
  }

  /** The id is empty, and the result skipped, exactly when the path is
      empty or made of slashes only. */
  lemma {:induction false} EmptyIdIffOnlySlashes(path: string)
    ensures |BloggerId(path)| == 0 <==> AllDropped(path, Slash)
  {
    if |path| > 0 {
      var init := path[..|path| - 1];
      if path[|path| - 1] == '/' {
        EmptyIdIffOnlySlashes(init);
        assert AllDropped(path, Slash) <==> AllDropped(init, Slash) by {
          if AllDropped(init, Slash) {
            forall k | 0 <= k < |path| ensures Drops(Slash, path[k]) {
              if k < |init| { assert path[k] == init[k]; }
            }
          }
        }
      } else {
        assert !Drops(Slash, path[|path| - 1]);
      }
    }
  }

  /** Two ways of writing a text as "head + tail", each tail slash-free and
      each head empty or ending in a slash, have the same tail. */
  lemma LastSegmentUnique(h1: string, a: string, h2: string, b: string)
    requires h1 + a == h2 + b
    requires '/' !in a && '/' !in b
    requires |h1| == 0 || h1[|h1| - 1] == '/'
    requires |h2| == 0 || h2[|h2| - 1] == '/'
    ensures a == b
  {
    var t := h1 + a;
    assert a == t[|h1|..] && b == t[|h2|..];
  }

  /** The last piece of splitting on `/` is what follows the last `/`. */
  lemma LastPieceFollowsLastSlash(t: string) returns (head: string)
    ensures var parts := Split(t, '/');
            t == head + parts[|parts| - 1] && (|head| == 0 || head[|head| - 1] == '/')
  {
    head := HeadBeforeLast(Split(t, '/'));
  }

  /** Joined pieces are the last piece behind an empty head or one ending in
      a slash. */
  lemma HeadBeforeLast(parts: seq<string>) returns (head: string)
    requires |parts| >= 1
    ensures Join(parts, '/') == head + parts[|parts| - 1]
    ensures |head| == 0 || head[|head| - 1] == '/'
  {
    if |parts| >= 2 {
      JoinLast(parts, '/');
      head := Join(parts[..|parts| - 1], '/') + ['/'];
    } else {
      head := [];
    }
  }

  /** Trailing slashes do not change the id. */
  lemma {:induction false} TrailingSlashesIgnored(path: string, j: nat)
    requires j <= |path|
    requires forall k :: j <= k < |path| ==> path[k] == '/'
    ensures BloggerId(path) == BloggerId(path[..j])
    decreases |path| - j
  {
    if j < |path| {
      var init := path[..|path| - 1];
      assert path[|path| - 1] == '/';
      assert BloggerId(path) == BloggerId(init);
      assert init[..j] == path[..j];
      assert forall k :: j <= k < |init| ==> init[k] == path[k];
      TrailingSlashesIgnored(init, j);
    } else {
      assert path[..j] == path;
    }
  }

  /** With only slashes before position `i` and a non-slash last character,
      the tail run starts at or after `i`. */
  lemma TailRunAfter(path: string, i: nat)
    requires i < |path| && path[|path| - 1] != '/'
    requires forall k :: 0 <= k < i ==> path[k] == '/'
    ensures |TailRun(path)| <= |path| - i
  {
  }

  /** Where `strip('/')` cuts `path`: slashes only before `i` and from `j`
      on, and a kept character at each end of a non-empty `path[i..j]`. */
  lemma StripSlashBounds(path: string) returns (i: nat, j: nat)
    ensures i <= j <= |path| && Strip(path, Slash) == path[i..j]
    ensures forall k :: 0 <= k < i ==> path[k] == '/'
    ensures forall k :: j <= k < |path| ==> path[k] == '/'
    ensures i < j ==> path[j - 1] != '/'
  {
    i := LeadingCount(path, Slash);
    j := TrailingFrom(path, i);
  }

  /** The end of the stripped slice, found in `path[i..]`. */
  lemma TrailingFrom(path: string, i: nat) returns (j: nat)
    requires i <= |path|
    ensures j == i + |path[i..]| - TrailingCount(path[i..], Slash)
    ensures i <= j <= |path|
    ensures forall k :: j <= k < |path| ==> path[k] == '/'
    ensures i < j ==> path[j - 1] != '/'
  {
    var rest := path[i..];
    var t := TrailingCount(rest, Slash);
    j := i + |rest| - t;
    forall k | j <= k < |path| ensures path[k] == '/' {
      assert path[k] == rest[k - i];
    }
    if i < j {
      assert path[j - 1] == rest[|rest| - t - 1];
    }
  }

  /** `BloggerId` agrees with the source's composition
      `path.strip('/').split('/')[-1]` on every path. */
  lemma BloggerIdIsSplitRule(path: string)
    ensures var parts := Split(Strip(path, Slash), '/');
            BloggerId(path) == parts[|parts| - 1]
  {
    var i, j := StripSlashBounds(path);
    if i == j {
      OnlySlashes(path, i);
    } else {
      LastPieceOfStripped(path, i, j);
    }
  }

  /** The slash-only case: the stripped path is empty and so is the id. */
  lemma OnlySlashes(path: string, i: nat)
    requires i <= |path| && Strip(path, Slash) == path[i..i]
    requires forall k :: 0 <= k < i ==> path[k] == '/'
    requires forall k :: i <= k < |path| ==> path[k] == '/'
    ensures var parts := Split(Strip(path, Slash), '/');
            BloggerId(path) == parts[|parts| - 1]
  {
    assert AllDropped(path, Slash) by {
      forall k | 0 <= k < |path| ensures Drops(Slash, path[k]) {
        assert k < i || i <= k;
      }
    }
    EmptyIdIffOnlySlashes(path);
  }

  /** A slice `u[i..]` with only slashes before `i` and a kept last
      character ends in the tail run of `u`, after an empty head or one
      ending in a slash. */
  lemma TailOfSlice(u: string, i: nat) returns (head: string)
    requires i < |u| && u[|u| - 1] != '/'
    requires forall k :: 0 <= k < i ==> u[k] == '/'
    ensures u[i..] == head + TailRun(u)
    ensures |head| == 0 || head[|head| - 1] == '/'
  {
    TailRunAfter(u, i);
    var r := TailRun(u);
    head := u[i..|u| - |r|];
    assert u[i..] == head + r;
  }

  /** The non-slash-only case: `path[i..j]` is the stripped path, with
      slashes only outside it and a non-slash last character. */
  lemma LastPieceOfStripped(path: string, i: nat, j: nat)
    requires i < j <= |path| && path[j - 1] != '/'
    requires forall k :: 0 <= k < i ==> path[k] == '/'
    requires forall k :: j <= k < |path| ==> path[k] == '/'
    ensures var parts := Split(path[i..j], '/');
            BloggerId(path) == parts[|parts| - 1]
  {
    var t := path[i..j];
    var parts := Split(t, '/');
    var u := path[..j];
    TrailingSlashesIgnored(path, j);
    assert BloggerId(u) == TailRun(u);
    var head' := TailOfSlice(u, i);
    assert u[i..] == t;
    var head := LastPieceFollowsLastSlash(t);
    LastSegmentUnique(head, parts[|parts| - 1], head', TailRun(u));
  }

  /** A path of one non-empty segment after the root, as in a profile URL
      `https://blog.naver.com/<name>`: the segment is the id. */
  lemma SingleSegmentId(name: string)
    requires |name| > 0 && '/' !in name
    ensures BloggerId(['/'] + name) == name
  {
    var s := ['/'] + name;
    assert s[|s| - 1] == name[|name| - 1];
    var r := TailRun(s);
    assert r != [] ==> r[|r| - 1] == s[|s| - 1];
    LastSegmentUnique(['/'], name, s[..|s| - |r|], r);
  }

  /** Doubled inner slashes and a trailing slash: the last non-empty segment. */
  lemma NestedPathId()
    ensures BloggerId("/a//b/") == "b"
  {
    assert "/a//b/"[..5] == "/a//b";
    assert "/a//b"[..4] == "/a//";
  }

  /** The bare host URL `https://blog.naver.com/` yields no id. */
  lemma RootPathHasNoId()
    ensures BloggerId("/") == ""
  {
  }
}
