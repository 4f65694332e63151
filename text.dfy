/**
 * The string operations that both the guideline parser and the symptom
 * field use: Python's `str.strip()`, `str.split(sep)`, `sep.join(...)`,
 * `str.count(sep)`, and the comprehension
 * `[p.strip() for p in s.split(sep) if p.strip()]`.
 */
module Text {

  /** The characters for which Python's `str.isspace()` holds; `str.strip()`
      with no argument removes exactly these from both ends. */
  const Whitespace: set<char> := {
    '\t', '\n', '\U{B}', '\U{C}', '\r', '\U{1C}', '\U{1D}',
    '\U{1E}', '\U{1F}', ' ', '\U{85}', '\U{A0}', '\U{1680}', '\U{2000}',
    '\U{2001}', '\U{2002}', '\U{2003}', '\U{2004}', '\U{2005}', '\U{2006}', '\U{2007}',
    '\U{2008}', '\U{2009}', '\U{200A}', '\U{2028}', '\U{2029}', '\U{202F}', '\U{205F}',
    '\U{3000}'
  }

  predicate IsSpace(c: char) {
    c in Whitespace
  }

  predicate AllSpace(s: string) {
    forall i :: 0 <= i < |s| ==> IsSpace(s[i])
  }

  /** A kept item: non-empty and with no whitespace at either end. */
  predicate IsItem(s: string) {
    |s| > 0 && !IsSpace(s[0]) && !IsSpace(s[|s| - 1])
  }

  /** Every character of `s` is whitespace or a character of `sep`. */
  predicate Blank(s: string, sep: string) {
    forall i :: 0 <= i < |s| ==> IsSpace(s[i]) || s[i] in sep
  }

  predicate StartsWith(s: string, prefix: string) {
    |prefix| <= |s| && s[..|prefix|] == prefix
  }

  /** `t` occurs somewhere in `s`. */
  ghost predicate Occurs(s: string, t: string) {
    exists i :: 0 <= i <= |s| && StartsWith(s[i..], t)
  }

  /** `s.lstrip()`: drops the run of leading whitespace. */
  function TrimStart(s: string): (r: string)
    ensures |r| <= |s|
    ensures r == [] || !IsSpace(r[0])
  {
    if |s| > 0 && IsSpace(s[0]) then TrimStart(s[1..]) else s
  }

  /** `s.rstrip()`: drops the run of trailing whitespace. */
  function TrimEnd(s: string): (r: string)
    ensures |r| <= |s|
    ensures r == [] || !IsSpace(r[|r| - 1])
  {
    if |s| > 0 && IsSpace(s[|s| - 1]) then TrimEnd(s[..|s| - 1]) else s
  }

  /** What `lstrip()` drops is a whitespace prefix; what it keeps is the rest. */
  lemma {:induction false} TrimStartSplits(s: string)
    ensures var r := TrimStart(s); r == s[|s| - |r|..] && AllSpace(s[..|s| - |r|])
  {
    if |s| > 0 && IsSpace(s[0]) {
      TrimStartSplits(s[1..]);
      var r := TrimStart(s);
      assert s[1..][..|s| - 1 - |r|] == s[1..|s| - |r|];
    }
  }

  /** What `rstrip()` drops is a whitespace suffix; what it keeps is the rest. */
  lemma {:induction false} TrimEndSplits(s: string)
    ensures var r := TrimEnd(s); r == s[..|r|] && AllSpace(s[|r|..])
  {
    if |s| > 0 && IsSpace(s[|s| - 1]) {
      TrimEndSplits(s[..|s| - 1]);
      var r := TrimEnd(s);
      assert s[|r|..] == s[..|s| - 1][|r|..] + [s[|s| - 1]];
    }
  }

  /** `s.strip()`: `s` with leading and trailing whitespace removed. The
      result is empty exactly when `s` is all whitespace, and otherwise
      begins and ends with a character that is not whitespace. */
  function Strip(s: string): (r: string)
    ensures r == [] <==> AllSpace(s)
    ensures r == [] || IsItem(r)
  {
    StripEmpty(s);
    TrimEnd(TrimStart(s))
  }

  /** Trimming leaves nothing exactly when the text is all whitespace. */
  lemma StripEmpty(s: string)
    ensures var r := TrimEnd(TrimStart(s));
      (r == [] <==> AllSpace(s)) && (r == [] || r[0] == TrimStart(s)[0])
  {
    var t := TrimStart(s);
    var k := |s| - |t|;
    var r := TrimEnd(t);
    TrimStartSplits(s);
    TrimEndSplits(t);
    if r == [] {
      assert AllSpace(t) by {
        assert t[|r|..] == t;
      }
      assert t == [];
      forall i | 0 <= i < |s| ensures IsSpace(s[i]) {
        assert s[i] == s[..k][i];
      }
    } else {
      assert t[0] == r[0];
      assert s[k] == t[0];
    }
  }

  /** What `strip()` removes is whitespace: the result is the infix of `s`
      that begins where the leading whitespace ends. */
  lemma StripInfix(s: string)
    ensures var k := |s| - |TrimStart(s)|; var r := Strip(s);
      k + |r| <= |s| && r == s[k..k + |r|] && AllSpace(s[..k]) && AllSpace(s[k + |r|..])
  {
    var t := TrimStart(s);
    TrimStartSplits(s);
    TrimEndSplits(t);
    InfixOfSuffix(s, |s| - |t|, t, TrimEnd(t));
  }

  /** A prefix `r` of the suffix `t` of `s` that starts at `k` is the infix
      of `s` from `k`, and what follows it in `t` is what follows it in `s`. */
  lemma InfixOfSuffix(s: string, k: nat, t: string, r: string)
    requires k <= |s| && t == s[k..] && |r| <= |t| && r == t[..|r|]
    ensures k + |r| <= |s| && r == s[k..k + |r|] && t[|r|..] == s[k + |r|..]
  {
  }

  /** Stripping a kept item changes nothing. */
  lemma StripKeepsItem(s: string)
    requires IsItem(s)
    ensures Strip(s) == s
  {
    assert TrimStart(s) == s;
    assert TrimEnd(s) == s;
  }

  /** `strip()` is idempotent. */
  lemma StripIdempotent(s: string)
    ensures Strip(Strip(s)) == Strip(s)
  {
    if Strip(s) != [] {
      StripKeepsItem(Strip(s));
    }
  }

  /** `s.split(sep)` for a non-empty separator: the pieces between the
      non-overlapping occurrences of `sep`, found from the left. */
  function Split(s: string, sep: string): (r: seq<string>)
    requires |sep| > 0
    ensures |r| >= 1 && StartsWith(s, r[0])
    decreases |s|
  {
    if |s| < |sep| then
      [s]
    else if StartsWith(s, sep) then
      [[]] + Split(s[|sep|..], sep)
    else
      var rest := Split(s[1..], sep);
      [[s[0]] + rest[0]] + rest[1..]
  }

  /** `sep.join(pieces)`. */
  function Join(pieces: seq<string>, sep: string): string {
    if pieces == [] then []
    else if |pieces| == 1 then pieces[0]
    else pieces[0] + sep + Join(pieces[1..], sep)
  }

  /** `s.count(sep)`: the number of non-overlapping occurrences of `sep`,
      scanning from the left. */
  function Count(s: string, sep: string): nat
    requires |sep| > 0
    decreases |s|
  {
    if |s| < |sep| then 0
    else if StartsWith(s, sep) then 1 + Count(s[|sep|..], sep)
    else Count(s[1..], sep)
  }

  /** `[p.strip() for p in pieces if p.strip()]`: the stripped pieces that
      are not empty, in their original order. */
  function Clean(pieces: seq<string>): (r: seq<string>)
    ensures |r| <= |pieces|
    ensures forall k :: 0 <= k < |r| ==> IsItem(r[k])
  {
    if pieces == [] then [] else Kept(pieces[0]) + Clean(pieces[1..])
  }

  /** What one piece contributes to the comprehension: its stripped text,
      or nothing when that is empty. */
  function Kept(piece: string): (r: seq<string>)
    ensures |r| <= 1 && (r == [] <==> AllSpace(piece))
    ensures forall k :: 0 <= k < |r| ==> IsItem(r[k])
  {
    var t := Strip(piece);
    if t == [] then [] else [t]
  }

  /** `[p.strip() for p in s.split(sep) if p.strip()]`. */
  function Items(s: string, sep: string): (r: seq<string>)
    requires |sep| > 0
    ensures |r| <= Count(s, sep) + 1
    ensures forall k :: 0 <= k < |r| ==> IsItem(r[k])
  {
    SplitCount(s, sep);
    Clean(Split(s, sep))
  }

  /** Where the separator does not start the text, the first character
      joins the first piece of the split of the rest. */
  lemma SplitGlue(s: string, sep: string)
    requires |sep| > 0 && |sep| <= |s| && !StartsWith(s, sep)
    ensures var rest := Split(s[1..], sep); Split(s, sep) == [[s[0]] + rest[0]] + rest[1..]
  {
  }

  /** A text that does not start with the separator and whose tail does not
      split is not split either. */
  lemma SplitUnbroken(s: string, sep: string)
    requires |sep| > 0 && |sep| <= |s| && !StartsWith(s, sep)
    requires Split(s[1..], sep) == [s[1..]]
    ensures Split(s, sep) == [s]
  {
    assert [s[1..]][1..] == [];
    assert [s[0]] + s[1..] == s;
  }

  /** A text in which the separator does not occur is one piece. */
  lemma {:induction false} SplitWithoutSeparator(s: string, sep: string)
    requires |sep| > 0 && !Occurs(s, sep)
    ensures Split(s, sep) == [s]
    decreases |s|
  {
    if |s| >= |sep| {
      assert s[0..] == s;
      assert !Occurs(s[1..], sep) by {
        forall i | 0 <= i <= |s[1..]| ensures !StartsWith(s[1..][i..], sep) {
          assert s[1..][i..] == s[i + 1..];
        }
      }
      SplitWithoutSeparator(s[1..], sep);
      SplitUnbroken(s, sep);
    }
  }

  /** A text is left whole by the split exactly when the separator does not
      occur in it. */
  lemma SplitWholeIffAbsent(s: string, sep: string)
    requires |sep| > 0
    ensures Split(s, sep) == [s] <==> !Occurs(s, sep)
  {
    if !Occurs(s, sep) {
      SplitWithoutSeparator(s, sep);
    }
    SplitPiecesAvoidSeparator(s, sep);
    if Split(s, sep) == [s] {
      assert Split(s, sep)[0] == s;
    }
  }

  /** Rejoining the pieces of a split with the separator gives back the
      original text. */
  lemma {:induction false} SplitJoin(s: string, sep: string)
    requires |sep| > 0
    ensures Join(Split(s, sep), sep) == s
    decreases |s|
  {
    if |s| < |sep| {
    } else if StartsWith(s, sep) {
      var t := s[|sep|..];
      SplitJoin(t, sep);
      JoinAfterEmpty(Split(t, sep), sep);
      assert s == sep + t;
    } else {
      var t := s[1..];
      SplitJoin(t, sep);
      JoinGlue(s[0], Split(t, sep), sep);
      assert s == [s[0]] + t;
    }
  }

  /** Joining after an empty first piece puts the separator in front. */
  lemma JoinAfterEmpty(pieces: seq<string>, sep: string)
    requires |pieces| >= 1
    ensures Join([[]] + pieces, sep) == sep + Join(pieces, sep)
  {
    assert ([[]] + pieces)[1..] == pieces;
  }

  /** Gluing a character to the first piece puts it in front of the join. */
  lemma JoinGlue(c: char, pieces: seq<string>, sep: string)
    requires |pieces| >= 1
    ensures Join([[c] + pieces[0]] + pieces[1..], sep) == [c] + Join(pieces, sep)
  {
    var glued := [[c] + pieces[0]] + pieces[1..];
    assert glued[1..] == pieces[1..];
    if |pieces| > 1 {
      calc {
        Join(glued, sep);
        ([c] + pieces[0]) + sep + Join(pieces[1..], sep);
        [c] + (pieces[0] + sep + Join(pieces[1..], sep));
      }
    }
  }

  /** A split yields one more piece than there are separators in the text. */
  lemma {:induction false} SplitCount(s: string, sep: string)
    requires |sep| > 0
    ensures |Split(s, sep)| == Count(s, sep) + 1
    decreases |s|
  {
    if |s| < |sep| {
    } else if StartsWith(s, sep) {
      SplitCount(s[|sep|..], sep);
    } else {
      SplitCount(s[1..], sep);
    }
  }

  /** The split is made at every occurrence: no piece holds the separator. */
  lemma {:induction false} SplitPiecesAvoidSeparator(s: string, sep: string)
    requires |sep| > 0
    ensures forall k :: 0 <= k < |Split(s, sep)| ==> !Occurs(Split(s, sep)[k], sep)
    decreases |s|
  {
    var r := Split(s, sep);
    if |s| < |sep| {
      forall i | 0 <= i <= |s| ensures !StartsWith(s[i..], sep) { }
    } else if StartsWith(s, sep) {
      var rest := Split(s[|sep|..], sep);
      SplitPiecesAvoidSeparator(s[|sep|..], sep);
      assert r == [[]] + rest;
      forall k | 0 <= k < |r| ensures !Occurs(r[k], sep) {
        if k > 0 {
          assert r[k] == rest[k - 1];
        } else {
          forall i | 0 <= i <= 0 ensures !StartsWith(r[0][i..], sep) { }
        }
      }
    } else {
      var rest := Split(s[1..], sep);
      SplitPiecesAvoidSeparator(s[1..], sep);
      var first := [s[0]] + rest[0];
      assert r == [first] + rest[1..];
      forall i | 0 <= i <= |first| ensures !StartsWith(first[i..], sep) {
        if i == 0 {
          if |sep| <= |first| {
            assert first[..|sep|] == s[..|sep|];
          }
        } else {
          assert first[i..] == rest[0][i - 1..];
          assert !StartsWith(rest[0][i - 1..], sep);
        }
      }
      forall k | 0 <= k < |r| ensures !Occurs(r[k], sep) {
        if k > 0 { assert r[k] == rest[k]; }
      }
    }
  }

  /** The comprehension works piece by piece: cleaning a concatenation is
      concatenating the cleaned parts, so order is preserved. */
  lemma {:induction false} CleanAppend(a: seq<string>, b: seq<string>)
    ensures Clean(a + b) == Clean(a) + Clean(b)
  {
    if a == [] {
      assert a + b == b;
    } else {
      assert (a + b)[0] == a[0];
      assert (a + b)[1..] == a[1..] + b;
      calc {
        Clean(a + b);
        Kept(a[0]) + Clean(a[1..] + b);
        { CleanAppend(a[1..], b); }
        Kept(a[0]) + (Clean(a[1..]) + Clean(b));
        (Kept(a[0]) + Clean(a[1..])) + Clean(b);
        Clean(a) + Clean(b);
      }
    }
  }

  /** A single piece contributes its stripped text, or nothing when that is
      empty. */
  lemma CleanOne(p: string)
    ensures Clean([p]) == if AllSpace(p) then [] else [Strip(p)]
  {
    assert [p][1..] == [];
  }

  /** Every piece is all whitespace. */
  predicate AllBlank(pieces: seq<string>) {
    pieces == [] || (AllSpace(pieces[0]) && AllBlank(pieces[1..]))
  }

  /** Nothing survives the comprehension exactly when every piece is all
      whitespace. */
  lemma {:induction false} CleanEmpty(pieces: seq<string>)
    ensures Clean(pieces) == [] <==> AllBlank(pieces)
  {
    if pieces != [] {
      CleanEmpty(pieces[1..]);
    }
  }

  /** When no occurrence of the separator starts inside `x`, splitting
      `x`, the separator and `y` gives `x` followed by the pieces of `y`. */
  lemma {:induction false} SplitAfterPiece(x: string, sep: string, y: string)
    requires |sep| > 0
    requires forall i :: 0 <= i < |x| ==> !StartsWith((x + sep + y)[i..], sep)
    ensures Split(x + sep + y, sep) == [x] + Split(y, sep)
    decreases |x|
  {
    var s := x + sep + y;
    if x == [] {
      assert s == sep + y;
      assert s[..|sep|] == sep;
      assert s[|sep|..] == y;
    } else {
      assert s[0..] == s;
      var t := x[1..] + sep + y;
      assert s[1..] == t;
      forall i | 0 <= i < |x[1..]| ensures !StartsWith(t[i..], sep) {
        assert t[i..] == s[i + 1..];
      }
      SplitAfterPiece(x[1..], sep, y);
      SplitGlue(s, sep);
      assert ([x[1..]] + Split(y, sep))[1..] == Split(y, sep);
      assert [s[0]] + x[1..] == x;
    }
  }

  /** An item free of the separator, followed by the separator, holds no
      occurrence of the separator that starts inside the item, provided the
      separator is one character or all whitespace. */
  lemma NoOccurrenceInside(x: string, sep: string, y: string)
    requires |sep| == 1 || (|sep| > 0 && AllSpace(sep))
    requires IsItem(x) && !Occurs(x, sep)
    ensures forall i :: 0 <= i < |x| ==> !StartsWith((x + sep + y)[i..], sep)
  {
    var s := x + sep + y;
    forall i | 0 <= i < |x| ensures !StartsWith(s[i..], sep) {
      if i + |sep| <= |x| {
        assert !StartsWith(x[i..], sep);
        assert s[i..][..|sep|] == x[i..][..|sep|];
      } else {
        var j := |x| - 1 - i;
        assert s[i..][j] == x[|x| - 1];
        assert IsSpace(sep[j]);
      }
    }
  }

  /** Splitting items joined with the separator gives the items back. */
  lemma {:induction false} SplitJoinItems(xs: seq<string>, sep: string)
    requires |sep| == 1 || (|sep| > 0 && AllSpace(sep))
    requires xs != []
    requires forall k :: 0 <= k < |xs| ==> IsItem(xs[k]) && !Occurs(xs[k], sep)
    ensures Split(Join(xs, sep), sep) == xs
    decreases |xs|
  {
    if |xs| == 1 {
      SplitWithoutSeparator(xs[0], sep);
    } else {
      var rest := Join(xs[1..], sep);
      NoOccurrenceInside(xs[0], sep, rest);
      SplitAfterPiece(xs[0], sep, rest);
      SplitJoinItems(xs[1..], sep);
      assert [xs[0]] + xs[1..] == xs;
    }
  }

  /** The comprehension keeps a list of items as it is. */
  lemma {:induction false} CleanItems(xs: seq<string>)
    requires forall k :: 0 <= k < |xs| ==> IsItem(xs[k])
    ensures Clean(xs) == xs
  {
    if xs != [] {
      StripKeepsItem(xs[0]);
      CleanItems(xs[1..]);
      assert [xs[0]] + xs[1..] == xs;
    }
  }

  /** The round trip of the comprehension: items that are free of the
      separator and of surrounding whitespace, joined with the separator,
      come back unchanged and in order. */
  lemma ItemsJoin(xs: seq<string>, sep: string)
    requires |sep| == 1 || (|sep| > 0 && AllSpace(sep))
    requires forall k :: 0 <= k < |xs| ==> IsItem(xs[k]) && !Occurs(xs[k], sep)
    ensures Items(Join(xs, sep), sep) == xs
  {
    if xs == [] {
      assert Split([], sep) == [[]];
      CleanOne([]);
    } else {
      SplitJoinItems(xs, sep);
      CleanItems(xs);
    }
  }

  /** For a separator of one character, or one made only of whitespace, the
      pieces are all whitespace exactly when the text holds nothing but
      whitespace and separator characters. */
  lemma {:induction false} SplitBlank(s: string, sep: string)
    requires |sep| == 1 || (|sep| > 0 && AllSpace(sep))
    ensures Blank(s, sep) <==> AllBlank(Split(s, sep))
    decreases |s|
  {
    var r := Split(s, sep);
    if |s| < |sep| {
      assert r == [s];
      assert r[1..] == [];
      assert Blank(s, sep) <==> AllSpace(s) by {
        if Blank(s, sep) && |sep| == 1 {
          assert s == [];
        }
      }
    } else if StartsWith(s, sep) {
      var t := s[|sep|..];
      var rest := Split(t, sep);
      SplitBlank(t, sep);
      assert r == [[]] + rest;
      assert r[1..] == rest;
      BlankAfterSeparator(s, sep);
    } else {
      var t := s[1..];
      var rest := Split(t, sep);
      SplitBlank(t, sep);
      var first := [s[0]] + rest[0];
      assert r == [first] + rest[1..];
      assert r[1..] == rest[1..];
      // A separator character at the front would have started a separator.
      assert s[0] in sep ==> IsSpace(s[0]) by {
        if |sep| == 1 {
          assert s[..1] == [s[0]];
          assert sep == [sep[0]];
        }
      }
      BlankCons(s, sep);
      AllSpaceCons(s[0], rest[0]);
    }
  }

  /** A separator at the front of a text does not change whether it is blank. */
  lemma BlankAfterSeparator(s: string, sep: string)
    requires StartsWith(s, sep)
    ensures Blank(s, sep) <==> Blank(s[|sep|..], sep)
  {
    var t := s[|sep|..];
    if Blank(t, sep) {
      forall i | 0 <= i < |s| ensures IsSpace(s[i]) || s[i] in sep {
        if i < |sep| { assert s[i] == sep[i]; } else { assert s[i] == t[i - |sep|]; }
      }
    }
    if Blank(s, sep) {
      forall i | 0 <= i < |t| ensures IsSpace(t[i]) || t[i] in sep {
        assert t[i] == s[i + |sep|];
      }
    }
  }

  /** A text is blank when its first character is whitespace and the rest
      is blank, provided a leading separator character is whitespace. */
  lemma BlankCons(s: string, sep: string)
    requires |s| > 0 && (s[0] in sep ==> IsSpace(s[0]))
    ensures Blank(s, sep) <==> IsSpace(s[0]) && Blank(s[1..], sep)
  {
    var t := s[1..];
    if IsSpace(s[0]) && Blank(t, sep) {
      forall i | 0 <= i < |s| ensures IsSpace(s[i]) || s[i] in sep {
        if i > 0 { assert s[i] == t[i - 1]; }
      }
    }
    if Blank(s, sep) {
      forall i | 0 <= i < |t| ensures IsSpace(t[i]) || t[i] in sep {
        assert t[i] == s[i + 1];
      }
    }
  }

  lemma AllSpaceCons(c: char, s: string)
    ensures AllSpace([c] + s) <==> IsSpace(c) && AllSpace(s)
  {
    var cs := [c] + s;
    if IsSpace(c) && AllSpace(s) {
      forall i | 0 <= i < |cs| ensures IsSpace(cs[i]) {
        if i > 0 { assert cs[i] == s[i - 1]; }
      }
    }
    if AllSpace(cs) {
      assert cs[0] == c;
      forall i | 0 <= i < |s| ensures IsSpace(s[i]) {
        assert s[i] == cs[i + 1];
      }
    }
  }

  /** The comprehension keeps nothing exactly when the text holds nothing
      but whitespace and separator characters. */
  lemma ItemsEmpty(s: string, sep: string)
    requires |sep| == 1 || (|sep| > 0 && AllSpace(sep))
    ensures Items(s, sep) == [] <==> Blank(s, sep)
  {
    SplitBlank(s, sep);
    CleanEmpty(Split(s, sep));
    assert Items(s, sep) == Clean(Split(s, sep));
  }
}
