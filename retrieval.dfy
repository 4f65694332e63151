/**
 * The guideline retriever: a guideline document is cut into paragraphs
 * ("sections"), and a query picks the section whose relevance score is
 * highest, the earliest one on a tie. The relevance scores come from a
 * fitted TF-IDF model that is not modelled here: it enters as a function
 * giving one score per section for each query.
 */
module Retrieval {
  import opened Wrappers
  import opened Text

  /** Sections are separated by exactly two newline characters. */
  const Separator: string := "\n\n"

  /** Why an index could not be built: the file is missing, it holds no
      section, or fitting the scoring model to the sections failed (the
      TF-IDF vectorizer raises when no section has a term outside its stop
      list). */
  datatype BuildError = FileNotFound(path: string) | NoSections | FitFailed(reason: string) {
    /** The text of the exception the constructor raises. */
    function Message(): (m: string)
      ensures FileNotFound? ==> |m| == 27 + |path| && m[..27] == "Guidelines file not found: " && m[27..] == path
      ensures NoSections? ==> m == "No guideline sections found in the file."
      ensures FitFailed? ==> m == reason
    {
      match this
      case FileNotFound(path) => "Guidelines file not found: " + path
      case NoSections => "No guideline sections found in the file."
      case FitFailed(reason) => reason
    }
  }

  /** What a query returns: the chosen section and its score. */
  datatype Match = Match(snippet: string, score: real)

  /** The text a text-mode `read()` returns for the characters stored in a
      file: universal newlines turn every CR LF pair and every lone CR into
      LF. The result holds no CR and is never longer than the file. */
  function ReadText(stored: string): (text: string)
    ensures |text| <= |stored|
    ensures forall i :: 0 <= i < |text| ==> text[i] != '\r'
    decreases |stored|
  {
    if stored == [] then []
    else if stored[0] == '\r' then
      if |stored| > 1 && stored[1] == '\n' then "\n" + ReadText(stored[2..])
      else "\n" + ReadText(stored[1..])
    else [stored[0]] + ReadText(stored[1..])
  }

  /** Reading works piece by piece, wherever the file is cut, as long as the
      cut does not fall inside a CR LF pair. */
  lemma {:induction false} ReadTextAppend(a: string, b: string)
    requires a == [] || b == [] || a[|a| - 1] != '\r' || b[0] != '\n'
    ensures ReadText(a + b) == ReadText(a) + ReadText(b)
    decreases |a|
  {
    var s := a + b;
    if a == [] {
      assert s == b;
    } else {
      assert s[0] == a[0];
      if a[0] == '\r' && |a| > 1 && a[1] == '\n' {
        assert s[1] == '\n';
        assert s[2..] == a[2..] + b;
        ReadTextAppend(a[2..], b);
      } else if a[0] == '\r' {
        assert !(|s| > 1 && s[1] == '\n') by {
          if |a| > 1 {
            assert s[1] == a[1];
          } else if |s| > 1 {
            assert s[1] == b[0];
          }
        }
        assert s[1..] == a[1..] + b;
        ReadTextAppend(a[1..], b);
      } else {
        assert s[1..] == a[1..] + b;
        ReadTextAppend(a[1..], b);
      }
    }
  }

  /** A CR LF pair reads as one LF, and the text on either side reads as it
      would alone. */
  lemma CrLfIsLf(x: string, y: string)
    ensures ReadText(x + "\r\n" + y) == ReadText(x) + "\n" + ReadText(y)
  {
    var t := "\r\n" + y;
    assert x + "\r\n" + y == x + t;
    ReadTextAppend(x, t);
    assert t[2..] == y;
  }

  /** A CR not followed by LF reads as one LF. */
  lemma LoneCrIsLf(x: string, y: string)
    requires y == [] || y[0] != '\n'
    ensures ReadText(x + "\r" + y) == ReadText(x) + "\n" + ReadText(y)
  {
    var t := "\r" + y;
    assert x + "\r" + y == x + t;
    ReadTextAppend(x, t);
    assert t[1..] == y;
  }

  /** Every other character is kept as it is, except an LF that completes
      a CR LF pair. */
  lemma OtherCharKept(x: string, c: char, y: string)
    requires c != '\r' && (c != '\n' || x == [] || x[|x| - 1] != '\r')
    ensures ReadText(x + [c] + y) == ReadText(x) + [c] + ReadText(y)
  {
    var t := [c] + y;
    assert x + [c] + y == x + t;
    ReadTextAppend(x, t);
    assert t[1..] == y;
  }

  /** A file without CR reads back as stored. */
  lemma {:induction false} ReadTextWithoutCr(stored: string)
    requires forall i :: 0 <= i < |stored| ==> stored[i] != '\r'
    ensures ReadText(stored) == stored
    decreases |stored|
  {
    if stored != [] {
      ReadTextWithoutCr(stored[1..]);
      assert [stored[0]] + stored[1..] == stored;
    }
  }

  /** Line-ending translation replaces whitespace by whitespace, so it does
      not change whether a file is all whitespace. */
  lemma {:induction false} ReadTextBlank(stored: string)
    ensures AllSpace(ReadText(stored)) <==> AllSpace(stored)
    decreases |stored|
  {
    if stored != [] {
      var c := stored[0];
      var tail := stored[1..];
      assert stored == [c] + tail;
      AllSpaceCons(c, tail);
      if c == '\r' {
        assert IsSpace('\r') && IsSpace('\n');
        if |stored| > 1 && stored[1] == '\n' {
          assert tail == ['\n'] + stored[2..];
          AllSpaceCons('\n', stored[2..]);
          ReadTextBlank(stored[2..]);
          AllSpaceCons('\n', ReadText(stored[2..]));
        } else {
          ReadTextBlank(tail);
          AllSpaceCons('\n', ReadText(tail));
        }
      } else {
        ReadTextBlank(tail);
        AllSpaceCons(c, ReadText(tail));
      }
    }
  }

  /** The sections of a guideline text: the pieces between occurrences of
      the separator, stripped, with the empty ones dropped, in document
      order. No section is empty or has whitespace at either end, there is
      at most one more section than there are separators, and there are
      none exactly when the text is all whitespace. */
  function ParseSections(raw: string): (sections: seq<string>)
    ensures |sections| <= Count(raw, Separator) + 1
    ensures forall k :: 0 <= k < |sections| ==> IsItem(sections[k])
    ensures sections == [] <==> AllSpace(raw)
  {
    NoSectionsIffBlank(raw);
    Items(raw, Separator)
  }

  /** A text yields no section exactly when it is all whitespace: the
      separator is itself whitespace, so an empty text, a whitespace-only
      text and a text of separators alike yield nothing. */
  lemma NoSectionsIffBlank(raw: string)
    ensures Items(raw, Separator) == [] <==> AllSpace(raw)
  {
    assert IsSpace('\n');
    ItemsEmpty(raw, Separator);
    forall i | 0 <= i < |raw| && raw[i] in Separator ensures IsSpace(raw[i]) {
      assert raw[i] == '\n';
    }
  }

  /** Sections written out separated by blank lines are read back as they
      were, in order, as long as none of them holds a blank line itself or
      has whitespace at either end. */
  lemma SectionsRoundTrip(sections: seq<string>)
    requires forall k :: 0 <= k < |sections| ==> IsItem(sections[k]) && !Occurs(sections[k], Separator)
    ensures ParseSections(Join(sections, Separator)) == sections
  {
    assert IsSpace('\n');
    assert AllSpace(Separator);
    ItemsJoin(sections, Separator);
  }

  /** Two newlines separate two sections. */
  lemma TwoSections()
    ensures ParseSections("a\n\nb") == ["a", "b"]
  {
    var sections := ["a", "b"];
    forall k | 0 <= k < 2 ensures !Occurs(sections[k], Separator) {
      forall i | 0 <= i <= 1 ensures !StartsWith(sections[k][i..], Separator) { }
    }
    assert Join(sections, Separator) == "a\n\nb" by {
      assert sections[1..] == ["b"];
    }
    SectionsRoundTrip(sections);
  }

  /** A line holding only a space is not a separator either. */
  lemma SpaceLineDoesNotSeparate()
    ensures ParseSections("a\n \nb") == ["a\n \nb"]
  {
    var s := "a\n \nb";
    assert !Occurs(s, Separator) by {
      forall i | 0 <= i <= |s| ensures !StartsWith(s[i..], Separator) {
        if i < 4 {
          assert s[i..][..2] == [s[i], s[i + 1]];
        }
      }
    }
    OneSection(s);
  }

  /** A text without a blank line that has no whitespace at either end is
      one section, unchanged. */
  lemma OneSection(s: string)
    requires IsItem(s) && !Occurs(s, Separator)
    ensures ParseSections(s) == [s]
  {
    SplitWithoutSeparator(s, Separator);
    StripKeepsItem(s);
    assert Clean([s]) == [s] by { assert [s][1..] == []; }
  }

  /** The guideline loader: a missing file and a file with no section are
      the two failures; otherwise the sections of the text as read, of which
      there is at least one. The file system is given as a map from path to
      the characters stored in the file. */
  function Load(files: map<string, string>, path: string): (r: Result<seq<string>, BuildError>)
    ensures r == Err(FileNotFound(path)) <==> path !in files
    ensures r == Err(NoSections) <==> path in files && AllSpace(files[path])
    ensures r.Ok? <==> path in files && !AllSpace(files[path])
    ensures r.Ok? ==> r.value != [] && r.value == ParseSections(ReadText(files[path]))
  {
    if path !in files then
      Err(FileNotFound(path))
    else
      ReadTextBlank(files[path]);
      var sections := ParseSections(ReadText(files[path]));
      if sections == [] then Err(NoSections) else Ok(sections)
  }

  /** A blank line written with Windows line endings separates sections,
      because reading turns CR LF into LF before the split. */
  lemma CrLfBlankLineSeparates()
    ensures Load(map["guidelines.txt" := "a\r\n\r\nb"], "guidelines.txt") == Ok(["a", "b"])
  {
    var s := "a\r\n\r\nb";
    assert ReadText(s[5..]) == "b" by {
      assert s[5..][1..] == [];
    }
    assert ReadText(s[3..]) == "\nb" by {
      assert s[3..][2..] == s[5..];
    }
    assert ReadText(s[1..]) == "\n\nb" by {
      assert s[1..][2..] == s[3..];
    }
    assert ReadText(s) == "a\n\nb" by {
      assert s[1..][0] == '\r';
    }
    TwoSections();
  }

  /** A blank line written with old Mac line endings, a lone CR each,
      separates sections too. */
  lemma LoneCrBlankLineSeparates()
    ensures Load(map["guidelines.txt" := "a\r\rb"], "guidelines.txt") == Ok(["a", "b"])
  {
    var s := "a\r\rb";
    assert ReadText(s[3..]) == "b" by {
      assert s[3..][1..] == [];
    }
    assert ReadText(s[2..]) == "\nb" by {
      assert s[2..][1..] == s[3..];
    }
    assert ReadText(s[1..]) == "\n\nb" by {
      assert s[1..][1..] == s[2..];
    }
    assert ReadText(s) == "a\n\nb" by {
      assert s[1..][0] == '\r';
    }
    TwoSections();
  }

  /** `i` is the first position holding the largest score. */
  ghost predicate IsFirstMax(scores: seq<real>, i: int) {
    0 <= i < |scores| &&
    (forall j :: 0 <= j < |scores| ==> scores[j] <= scores[i]) &&
    (forall j :: 0 <= j < i ==> scores[j] < scores[i])
  }

  /** The index that `numpy.argmax` returns: the first maximum. */
  function FirstArgMax(scores: seq<real>): (i: nat)
    requires scores != []
    ensures IsFirstMax(scores, i)
  {
    if |scores| == 1 then 0
    else
      var k := FirstArgMax(scores[..|scores| - 1]);
      if scores[k] < scores[|scores| - 1] then |scores| - 1 else k
  }

  /** At most one index is the first maximum, so the choice is determined
      by the scores alone. */
  lemma FirstMaxUnique(scores: seq<real>, i: int, j: int)
    requires IsFirstMax(scores, i) && IsFirstMax(scores, j)
    ensures i == j
  {
    assert scores[i] == scores[j];
  }

  /** A built index: its sections and the fitted scoring model, both set
      once at construction and never changed. */
  class GuidelineRag {
    const sections: seq<string>
    /** The fitted TF-IDF model: for a query, one score per section. */
    const score: string -> seq<real>

    ghost predicate Valid() {
      sections != [] &&
      (forall k :: 0 <= k < |sections| ==> IsItem(sections[k])) &&
      (forall q :: |score(q)| == |sections|)
    }

    constructor Fitted(sections: seq<string>, score: string -> seq<real>)
      requires sections != [] && forall k :: 0 <= k < |sections| ==> IsItem(sections[k])
      requires forall q :: |score(q)| == |sections|
      ensures Valid() && this.sections == sections && this.score == score
    {
      this.sections := sections;
      this.score := score;
    }

    /** Builds an index from the file at `path`, or fails as the loader
        does, or fails when fitting the TF-IDF model to the sections fails.
        `fit` stands for that fitting; when it succeeds, the model gives one
        score per section. */
    static method Open(files: map<string, string>, path: string,
                       fit: seq<string> -> Result<string -> seq<real>, string>)
      returns (r: Result<GuidelineRag, BuildError>)
      requires forall corpus, q :: fit(corpus).Ok? ==> |fit(corpus).value(q)| == |corpus|
      ensures r.Err? <==> Load(files, path).Err? || fit(Load(files, path).value).Err?
      ensures Load(files, path).Err? ==> r == Err(Load(files, path).error)
      ensures Load(files, path).Ok? && fit(Load(files, path).value).Err? ==>
        r == Err(FitFailed(fit(Load(files, path).value).error))
      ensures r.Ok? ==> fresh(r.value) && r.value.Valid()
      ensures r.Ok? ==> r.value.sections == Load(files, path).value && r.value.score == fit(r.value.sections).value
    {
      var loaded := Load(files, path);
      if loaded.Err? {
        r := Err(loaded.error);
      } else {
        var fitted := fit(loaded.value);
        if fitted.Err? {
          r := Err(FitFailed(fitted.error));
        } else {
          var index := new GuidelineRag.Fitted(loaded.value, fitted.value);
          r := Ok(index);
        }
      }
    }

    /** The best section for a query. The empty query is answered with an
        empty snippet and score 0 without scoring; any other query, even
        one of whitespace only, gets the first section of highest score,
        with that score, so its snippet is never empty. */
    function Query(q: string): (r: Match)
      requires Valid()
      ensures q == "" ==> r == Match("", 0.0)
      ensures q != "" ==> exists i :: IsFirstMax(score(q), i) && r == Match(sections[i], score(q)[i])
      ensures r.snippet == "" <==> q == ""
    {
      if q == "" then
        Match("", 0.0)
      else
        var scores := score(q);
        var i := FirstArgMax(scores);
        Match(sections[i], scores[i])
    }

    /** A query that shares no vocabulary with the document scores zero
        everywhere, and is answered with the first section and score 0. */
    lemma NoOverlapPicksFirst(q: string)
      requires Valid() && q != ""
      requires forall j :: 0 <= j < |score(q)| ==> score(q)[j] == 0.0
      ensures Query(q) == Match(sections[0], 0.0)
    {
      var i := FirstArgMax(score(q));
      FirstMaxUnique(score(q), i, 0);
    }
  }
}
