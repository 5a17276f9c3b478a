/** String primitives with Python `str` semantics: `strip`, `split` and the
    `join` that undoes `split`. Strings are sequences of characters. */
module Text {

  /** Python's `str.isspace()` for one character: the characters that a bare
      `strip()` removes. */
  predicate IsSpace(c: char) {
    || c == ' '
    || ('\t' <= c <= '\r')
    || ('\U{1C}' <= c <= '\U{1F}')
    || c == '\U{85}'
    || c == '\U{A0}'
    || c == '\U{1680}'
    || ('\U{2000}' <= c <= '\U{200A}')
    || c == '\U{2028}'
    || c == '\U{2029}'
    || c == '\U{202F}'
    || c == '\U{205F}'
    || c == '\U{3000}'
  }

  /** The characters one `strip` call removes: `strip()` removes
      whitespace, `strip('/')` removes slashes. */
  datatype CharSet = Whitespace | Slash

  predicate Drops(chars: CharSet, c: char) {
    match chars
    case Whitespace => IsSpace(c)
    case Slash => c == '/'
  }

  /** Every character of `s` is one that `drop` removes. */
  ghost predicate AllDropped(s: string, drop: CharSet) {
    forall i :: 0 <= i < |s| ==> Drops(drop, s[i])
  }

  /** Number of leading characters of `s` that `drop` removes. */
  function LeadingCount(s: string, drop: CharSet): (n: nat)
    ensures n <= |s|
    ensures forall i :: 0 <= i < n ==> Drops(drop, s[i])
    ensures n < |s| ==> !Drops(drop, s[n])
  {
    if |s| == 0 || !Drops(drop, s[0]) then 0 else 1 + LeadingCount(s[1..], drop)
  }

  /** Number of trailing characters of `s` that `drop` removes. */
  function TrailingCount(s: string, drop: CharSet): (n: nat)
    ensures n <= |s|
    ensures forall i :: |s| - n <= i < |s| ==> Drops(drop, s[i])
    ensures n < |s| ==> !Drops(drop, s[|s| - n - 1])
  {
    if |s| == 0 || !Drops(drop, s[|s| - 1]) then 0 else 1 + TrailingCount(s[..|s| - 1], drop)
  }

  /** Python's `s.strip(chars)`, where `drop` names the characters of
      `chars`: the longest run of removable characters is taken off each end.
      The result is the slice `s[i..j]` with everything outside it removable
      and, unless it is empty, a kept character at each of its ends. */
  function Strip(s: string, drop: CharSet): (r: string)
    ensures exists i, j :: 0 <= i <= j <= |s| && r == s[i..j]
                           && AllDropped(s[..i], drop) && AllDropped(s[j..], drop)
    ensures |r| > 0 ==> !Drops(drop, r[0]) && !Drops(drop, r[|r| - 1])
    ensures |r| == 0 <==> AllDropped(s, drop)
  {
    var i := LeadingCount(s, drop);
    var j := i + |s[i..]| - TrailingCount(s[i..], drop);
    StripCuts(s, drop, i, j);
    StripEmpty(s, drop, i, j);
    s[i..j]
  }

  /** The two cuts of `Strip`: removable characters outside `s[i..j]`, and
      kept characters at its ends. */
  lemma StripCuts(s: string, drop: CharSet, i: nat, j: int)
    requires i == LeadingCount(s, drop)
    requires j == i + |s[i..]| - TrailingCount(s[i..], drop)
    ensures i <= j <= |s|
    ensures AllDropped(s[..i], drop) && AllDropped(s[j..], drop)
    ensures i < j ==> !Drops(drop, s[i]) && !Drops(drop, s[j - 1])
  {
    var rest := s[i..];
    var t := TrailingCount(rest, drop);
    assert j == |s| - t;
    TrailingCut(s, drop, i, j);
  }

  /** The trailing cut of `Strip`, read back from the slice `s[i..]` it was
      counted on. */
  lemma TrailingCut(s: string, drop: CharSet, i: nat, j: nat)
    requires i <= j <= |s|
    requires j == |s| - TrailingCount(s[i..], drop)
    ensures AllDropped(s[j..], drop)
    ensures i < j ==> !Drops(drop, s[j - 1])
  {
    var rest := s[i..];
    forall k | 0 <= k < |s[j..]| ensures Drops(drop, s[j..][k]) {
      assert s[j..][k] == rest[j - i + k];
    }
    if i < j {
      assert s[j - 1] == rest[j - 1 - i];
    }
  }

  /** The stripped slice is empty exactly when every character is
      removable. */
  lemma StripEmpty(s: string, drop: CharSet, i: nat, j: int)
    requires i <= j <= |s|
    requires AllDropped(s[..i], drop) && AllDropped(s[j..], drop)
    requires i < j ==> !Drops(drop, s[i])
    ensures i == j <==> AllDropped(s, drop)
  {
    if i == j {
      forall k | 0 <= k < |s| ensures Drops(drop, s[k]) {
        if k < i { assert s[..i][k] == s[k]; } else { assert s[j..][k - j] == s[k]; }
      }
    }
  }

  /** How many times `c` occurs in `s`. */
  function Occurrences(s: string, c: char): (n: nat)
    ensures n <= |s|
  {
    if |s| == 0 then 0 else (if s[0] == c then 1 else 0) + Occurrences(s[1..], c)
  }

  /** The pieces joined back together with `sep` between neighbours; the
      inverse of `Split`. */
  function Join(parts: seq<string>, sep: char): string {
    if |parts| == 0 then []
    else if |parts| == 1 then parts[0]
    else parts[0] + [sep] + Join(parts[1..], sep)
  }

  /** Python's `s.split(sep)` for a one-character separator: the pieces
      between separators, in order, empty pieces kept. There is always at
      least one piece, one more than there are separators. */
  function Split(s: string, sep: char): (parts: seq<string>)
    ensures |parts| == 1 + Occurrences(s, sep)
    ensures forall k :: 0 <= k < |parts| ==> sep !in parts[k]
    ensures Join(parts, sep) == s
  {
    if |s| == 0 then [[]]
    else
      var rest := Split(s[1..], sep);
      if s[0] == sep then
        assert s == [] + [sep] + s[1..];
        [[]] + rest
      else
        var parts := [[s[0]] + rest[0]] + rest[1..];
        assert parts[1..] == rest[1..];
        assert Join(parts, sep) == s by {
          if |rest| == 1 {
          } else {
            assert Join(rest, sep) == rest[0] + [sep] + Join(rest[1..], sep);
          }
        }
        parts
  }

  /** Splitting text that starts with a separator-free piece `p`. */
  lemma {:induction false} SplitSeparatorFree(p: string, sep: char)
    requires sep !in p
    ensures Split(p, sep) == [p]
  {
    if |p| > 0 {
      SplitSeparatorFree(p[1..], sep);
      assert [p[0]] + p[1..] == p;
    }
  }

  lemma {:induction false} SplitAfterPiece(p: string, sep: char, tail: string)
    requires sep !in p
    ensures Split(p + [sep] + tail, sep) == [p] + Split(tail, sep)
  {
    var s := p + [sep] + tail;
    if |p| == 0 {
      assert s[1..] == tail;
    } else {
      assert s[1..] == p[1..] + [sep] + tail;
      SplitAfterPiece(p[1..], sep, tail);
      assert [p[0]] + p[1..] == p;
    }
  }

  /** `Split` undoes `Join`: a non-empty list of separator-free pieces is
      recovered exactly from the text they join to. Together with the
      `Join(Split(s)) == s` half in `Split`'s contract, the two are inverse. */
  lemma {:induction false} SplitOfJoin(parts: seq<string>, sep: char)
    requires |parts| >= 1
    requires forall k :: 0 <= k < |parts| ==> sep !in parts[k]
    ensures Split(Join(parts, sep), sep) == parts
  {
    if |parts| == 1 {
      SplitSeparatorFree(parts[0], sep);
    } else {
      SplitOfJoin(parts[1..], sep);
      SplitAfterPiece(parts[0], sep, Join(parts[1..], sep));
      assert [parts[0]] + parts[1..] == parts;
    }
  }

  /** Joining splits off the last piece behind the last separator. */
  lemma {:induction false} JoinLast(parts: seq<string>, sep: char)
    requires |parts| >= 2
    ensures Join(parts, sep) == Join(parts[..|parts| - 1], sep) + [sep] + parts[|parts| - 1]
  {
    if |parts| > 2 {
      JoinLast(parts[1..], sep);
      assert parts[1..][..|parts| - 2] == parts[..|parts| - 1][1..];
    }
  }

  lemma DroppedBefore(s: string, drop: CharSet, i: nat)
    requires i <= |s| && AllDropped(s[..i], drop)
    ensures forall k :: 0 <= k < i ==> Drops(drop, s[k])
  {
    forall k | 0 <= k < i ensures Drops(drop, s[k]) { assert s[..i][k] == s[k]; }
  }

  lemma DroppedFrom(s: string, drop: CharSet, j: nat)
    requires j <= |s| && AllDropped(s[j..], drop)
    ensures forall k :: j <= k < |s| ==> Drops(drop, s[k])
  {
    forall k | j <= k < |s| ensures Drops(drop, s[k]) { assert s[j..][k - j] == s[k]; }
  }

  /** `Strip` is the only slice with removable characters outside it and
      kept characters at both of its ends. */
  lemma StripUnique(s: string, drop: CharSet, i: nat, j: nat)
    requires i <= j <= |s|
    requires AllDropped(s[..i], drop) && AllDropped(s[j..], drop)
    requires i < j ==> !Drops(drop, s[i]) && !Drops(drop, s[j - 1])
    ensures Strip(s, drop) == s[i..j]
  {
    DroppedBefore(s, drop, i);
    DroppedFrom(s, drop, j);
    if i == j {
      assert AllDropped(s, drop) by {
        forall k | 0 <= k < |s| ensures Drops(drop, s[k]) {
          assert k < i || j <= k;
        }
      }
    } else {
      StripKeptEnds(s, drop, i, j);
    }
  }

  lemma StripKeptEnds(s: string, drop: CharSet, i: nat, j: nat)
    requires i < j <= |s|
    requires forall k :: 0 <= k < i ==> Drops(drop, s[k])
    requires forall k :: j <= k < |s| ==> Drops(drop, s[k])
    requires !Drops(drop, s[i]) && !Drops(drop, s[j - 1])
    ensures Strip(s, drop) == s[i..j]
  {
    var r := Strip(s, drop);
    var a, b :| 0 <= a <= b <= |s| && r == s[a..b]
                && AllDropped(s[..a], drop) && AllDropped(s[b..], drop);
    DroppedBefore(s, drop, a);
    DroppedFrom(s, drop, b);
    assert !AllDropped(s, drop) by { assert !Drops(drop, s[i]); }
    assert !Drops(drop, s[a]) && !Drops(drop, s[b - 1]) by {
      assert r[0] == s[a] && r[|r| - 1] == s[b - 1];
    }
    CutsAgree(s, drop, i, j, a, b);
  }

  /** Two cuts with removable characters outside and kept characters at
      their ends are the same cut. */
  lemma CutsAgree(s: string, drop: CharSet, i: nat, j: nat, a: nat, b: nat)
    requires i < j <= |s| && a < b <= |s|
    requires forall k :: 0 <= k < i ==> Drops(drop, s[k])
    requires forall k :: j <= k < |s| ==> Drops(drop, s[k])
    requires forall k :: 0 <= k < a ==> Drops(drop, s[k])
    requires forall k :: b <= k < |s| ==> Drops(drop, s[k])
    requires !Drops(drop, s[i]) && !Drops(drop, s[j - 1]) && !Drops(drop, s[a]) && !Drops(drop, s[b - 1])
    ensures a == i && b == j
  {
  }
}
