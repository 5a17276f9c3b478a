/** The driver's keyword list:
    `[k.strip() for k in keywords.replace(';', ',').split(',')]`.
    Commas and semicolons both separate keywords, every piece is trimmed of
    whitespace, and empty pieces are kept. */
module Keywords {
  import opened Text

  predicate IsSeparator(c: char) {
    c == ',' || c == ';'
  }

  /** How many separator characters (`,` or `;`) `raw` holds. */
  function SeparatorCount(raw: string): (n: nat)
    ensures n <= |raw|
  {
    if |raw| == 0 then 0 else (if IsSeparator(raw[0]) then 1 else 0) + SeparatorCount(raw[1..])
  }

  /** `raw.replace(';', ',')`: every separator becomes a comma and every
      other character is kept. */
  function UnifySeparators(raw: string): (r: string)
    ensures |r| == |raw|
    ensures ';' !in r
    ensures forall i :: 0 <= i < |raw| ==> (r[i] == ',' <==> IsSeparator(raw[i]))
    ensures forall i :: 0 <= i < |raw| && !IsSeparator(raw[i]) ==> r[i] == raw[i]
  {
    if |raw| == 0 then []
    else [if raw[0] == ';' then ',' else raw[0]] + UnifySeparators(raw[1..])
  }

  lemma {:induction false} UnifiedCommas(raw: string)
    ensures Occurrences(UnifySeparators(raw), ',') == SeparatorCount(raw)
  {
    if |raw| > 0 {
      UnifiedCommas(raw[1..]);
      assert UnifySeparators(raw)[1..] == UnifySeparators(raw[1..]);
    }
  }

  /** The keywords typed into the form, in input order: one per separator
      plus one, each trimmed and free of separators. */
  function SplitKeywords(raw: string): (keywords: seq<string>)
    ensures |keywords| == 1 + SeparatorCount(raw)
    ensures forall k :: 0 <= k < |keywords| ==> ',' !in keywords[k] && ';' !in keywords[k]
    ensures forall k :: 0 <= k < |keywords| && |keywords[k]| > 0 ==>
              !IsSpace(keywords[k][0]) && !IsSpace(keywords[k][|keywords[k]| - 1])
  {
    var unified := UnifySeparators(raw);
    var pieces := Split(unified, ',');
    UnifiedCommas(raw);
    assert forall k :: 0 <= k < |pieces| ==> ';' !in pieces[k] by {
      forall k | 0 <= k < |pieces| ensures ';' !in pieces[k] {
        PieceOfJoin(pieces, ',', k);
      }
    }
    seq(|pieces|, k requires 0 <= k < |pieces| => TrimPiece(pieces[k]))
  }

  /** `piece.strip()`, keeping the fact that the piece held no separator. */
  function TrimPiece(piece: string): (r: string)
    ensures |r| > 0 ==> !IsSpace(r[0]) && !IsSpace(r[|r| - 1])
    ensures forall c :: c !in piece ==> c !in r
  {
    var r := Strip(piece, Whitespace);
    assert forall c :: c !in piece ==> c !in r by {
      var i, j :| 0 <= i <= j <= |piece| && r == piece[i..j];
      forall c | c in r ensures c in piece {
        var m :| 0 <= m < |r| && r[m] == c;
        assert piece[i + m] == c;
      }
    }
    r
  }

  /** Every character of a piece occurs in the joined text. */
  lemma {:induction false} PieceOfJoin(parts: seq<string>, sep: char, k: nat)
    requires k < |parts|
    ensures forall c :: c in parts[k] ==> c in Join(parts, sep)
  {
    if |parts| > 1 && k > 0 {
      PieceOfJoin(parts[1..], sep, k - 1);
    }
  }

  /** A keyword with no whitespace at either end survives trimming. */
  lemma TrimmedKeywordUnchanged(w: string)
    requires |w| > 0 ==> !IsSpace(w[0]) && !IsSpace(w[|w| - 1])
    ensures TrimPiece(w) == w
  {
    StripUnique(w, Whitespace, 0, |w|);
  }

  /** Splitting undoes joining: clean keywords (separator-free, no
      surrounding whitespace) joined with commas come back unchanged, in
      order, empty ones included. */
  lemma KeywordsOfJoin(words: seq<string>)
    requires |words| >= 1
    requires forall k :: 0 <= k < |words| ==> ',' !in words[k] && ';' !in words[k]
    requires forall k :: 0 <= k < |words| && |words[k]| > 0 ==>
               !IsSpace(words[k][0]) && !IsSpace(words[k][|words[k]| - 1])
    ensures SplitKeywords(Join(words, ',')) == words
  {
    var raw := Join(words, ',');
    assert UnifySeparators(raw) == raw by {
      NoSemicolonInJoin(words, ',');
    }
    SplitOfJoin(words, ',');
    var keywords := SplitKeywords(raw);
    forall k | 0 <= k < |words| ensures keywords[k] == words[k] {
      TrimmedKeywordUnchanged(words[k]);
    }
  }

  lemma {:induction false} NoSemicolonInJoin(words: seq<string>, sep: char)
    requires sep != ';'
    requires forall k :: 0 <= k < |words| ==> ';' !in words[k]
    ensures ';' !in Join(words, sep)
  {
    if |words| > 1 {
      NoSemicolonInJoin(words[1..], sep);
    }
  }

  /** `w` is `piece` with whitespace, and only whitespace, removed from its
      two ends. */
  ghost predicate TrimmedFrom(w: string, piece: string) {
    exists i, j :: 0 <= i <= j <= |piece| && w == piece[i..j]
                   && AllDropped(piece[..i], Whitespace) && AllDropped(piece[j..], Whitespace)
  }

  /** Each keyword is the piece between the corresponding pair of
      separators, trimmed. */
  lemma KeywordsAreTrimmedPieces(raw: string)
    ensures |SplitKeywords(raw)| == |Split(UnifySeparators(raw), ',')|
    ensures forall k :: 0 <= k < |SplitKeywords(raw)| ==>
              TrimmedFrom(SplitKeywords(raw)[k], Split(UnifySeparators(raw), ',')[k])
  {
    var pieces := Split(UnifySeparators(raw), ',');
    var keywords := SplitKeywords(raw);
    forall k | 0 <= k < |pieces| ensures TrimmedFrom(keywords[k], pieces[k]) {
      assert keywords[k] == Strip(pieces[k], Whitespace);
    }
  }

  /** Commas and semicolons are interchangeable: inputs that differ only in
      which separator is used give the same keywords. */
  lemma SeparatorsInterchangeable(a: string, b: string)
    requires |a| == |b|
    requires forall i :: 0 <= i < |a| ==> a[i] == b[i] || (IsSeparator(a[i]) && IsSeparator(b[i]))
    ensures SplitKeywords(a) == SplitKeywords(b)
  {
    assert UnifySeparators(a) == UnifySeparators(b);
  }

  /** Empty pieces are kept rather than filtered out. */
  lemma EmptyPieceKept()
    ensures SplitKeywords("a,,b") == ["a", "", "b"]
  {
    KeywordsOfJoin(["a", "", "b"]);
    assert Join(["a", "", "b"], ',') == "a,,b";
  }
}
