/** The list of gazette dates read from the dates file (split at line feeds, each line
    trimmed, blank lines dropped), and the date the application opens on. */
module Dates {
  import opened Common

  /** The characters JavaScript's `String.prototype.trim` strips: the white space
      characters (tab, vertical tab, form feed, the byte order mark and the space
      separators) and the line terminators. */
  predicate IsSpace(c: char)
  {
    || c in {'\t', '\n', '\U{000B}', '\U{000C}', '\r', ' ', '\U{00A0}', '\U{1680}',
             '\U{2028}', '\U{2029}', '\U{202F}', '\U{205F}', '\U{3000}', '\U{FEFF}'}
    || '\U{2000}' <= c <= '\U{200A}'
  }

  /** Where the text of `s` starts: the length of its leading white space. */
  function TextStart(s: string): (i: nat)
    ensures i <= |s|
    ensures forall k :: 0 <= k < i ==> IsSpace(s[k])
    ensures i < |s| ==> !IsSpace(s[i])
  {
    if |s| == 0 || !IsSpace(s[0]) then 0
    else
      var i := TextStart(s[1..]);
      assert forall k :: 1 <= k < i + 1 ==> s[k] == s[1..][k - 1];
      i + 1
  }

  /** Where the text of `s` ends: its length without the trailing white space. */
  function TextEnd(s: string): (j: nat)
    ensures j <= |s|
    ensures forall k :: j <= k < |s| ==> IsSpace(s[k])
    ensures 0 < j ==> !IsSpace(s[j - 1])
  {
    if |s| == 0 || !IsSpace(s[|s| - 1]) then |s|
    else TextEnd(s[..|s| - 1])
  }

  /** A string with nothing to trim at either end. */
  predicate Trimmed(s: string)
  {
    s == [] || (!IsSpace(s[0]) && !IsSpace(s[|s| - 1]))
  }

  /** `s.trim()`. */
  function Trim(s: string): (r: string)
    ensures Trimmed(r)
    ensures r == [] <==> forall k :: 0 <= k < |s| ==> IsSpace(s[k])
  {
    var i := TextStart(s);
    if i == |s| then []
    else
      var j := TextEnd(s);
      assert i < j;
      s[i..j]
  }

  /** Trimming removes white space from the two ends of `s` and nothing else: the result
      is the slice of `s` from `TextStart(s)` on, and only white space follows it. */
  lemma TrimSlice(s: string)
    ensures TextStart(s) + |Trim(s)| <= |s|
    ensures Trim(s) == s[TextStart(s)..TextStart(s) + |Trim(s)|]
    ensures forall k :: TextStart(s) + |Trim(s)| <= k < |s| ==> IsSpace(s[k])
  {
    var i := TextStart(s);
    if i == |s| {
      assert Trim(s) == [];
    } else {
      var j := TextEnd(s);
      assert i < j;
      assert Trim(s) == s[i..j];
    }
  }

  /** A trimmed string is its own trim; in particular trimming twice is trimming once. */
  lemma TrimTrimmed(s: string)
    requires Trimmed(s)
    ensures Trim(s) == s
  {
    if s != [] {
      assert TextStart(s) == 0;
      assert TextEnd(s) == |s|;
    }
  }

  /** The pieces of `s.split("\n")`, which are put back together by `Unlines`. */
  function Unlines(pieces: seq<string>): string
    requires |pieces| > 0
  {
    if |pieces| == 1 then pieces[0] else pieces[0] + "\n" + Unlines(pieces[1..])
  }

  /** `s.split("\n")`: the pieces of `s` between line feeds; none contains one. */
  function Lines(s: string): (r: seq<string>)
    ensures |r| > 0
    ensures forall k :: 0 <= k < |r| ==> '\n' !in r[k]
  {
    if |s| == 0 then [""]
    else
      var rest := Lines(s[1..]);
      if s[0] == '\n' then [""] + rest
      else [[s[0]] + rest[0]] + rest[1..]
  }

  /** The first step of the split: a line feed opens a new piece, any other character
      joins the first piece of the rest. */
  lemma LinesStep(s: string)
    requires |s| > 0
    ensures s[0] == '\n' ==> Lines(s) == [""] + Lines(s[1..])
    ensures s[0] != '\n' ==> Lines(s) == [[s[0]] + Lines(s[1..])[0]] + Lines(s[1..])[1..]
  {
  }

  /** There is one more piece than there are line feeds. */
  lemma {:induction false} LinesCount(s: string)
    ensures |Lines(s)| == multiset(s)['\n'] + 1
  {
    if |s| > 0 {
      LinesCount(s[1..]);
      LinesStep(s);
      assert s == [s[0]] + s[1..];
      assert multiset(s) == multiset([s[0]]) + multiset(s[1..]);
    }
  }

  /** Joined back by line feeds, the pieces give the string that was split. */
  lemma {:induction false} UnlinesLines(s: string)
    ensures Unlines(Lines(s)) == s
  {
    if |s| > 0 {
      var rest := Lines(s[1..]);
      UnlinesLines(s[1..]);
      LinesStep(s);
      assert s == [s[0]] + s[1..];
      if s[0] == '\n' {
        assert ([""] + rest)[1..] == rest;
        assert Unlines([""] + rest) == "" + "\n" + Unlines(rest);
      } else {
        UnlinesPrepend(s[0], rest);
      }
    }
  }

  /** Putting a character in front of the first piece puts it in front of the joined text. */
  lemma UnlinesPrepend(c: char, pieces: seq<string>)
    requires |pieces| > 0
    ensures Unlines([[c] + pieces[0]] + pieces[1..]) == [c] + Unlines(pieces)
  {
    var r := [[c] + pieces[0]] + pieces[1..];
    assert r[1..] == pieces[1..];
    if |pieces| > 1 {
      assert Unlines(r) == [c] + pieces[0] + "\n" + Unlines(pieces[1..]);
    }
  }

  /** Splitting a line-feed-free `a` followed by `b` puts `a` in front of the first piece. */
  lemma {:induction false} LinesAfterText(a: string, b: string)
    requires '\n' !in a
    ensures Lines(a + b) == [a + Lines(b)[0]] + Lines(b)[1..]
  {
    if a == [] {
      assert a + b == b;
      assert a + Lines(b)[0] == Lines(b)[0];
      assert [Lines(b)[0]] + Lines(b)[1..] == Lines(b);
    } else {
      var tail := a[1..] + b;
      assert (a + b)[1..] == tail;
      assert (a + b)[0] == a[0];
      assert a[0] in a;
      assert '\n' !in a[1..] by {
        forall c | c in a[1..] ensures c in a {
          var k :| 0 <= k < |a[1..]| && a[1..][k] == c;
          assert a[k + 1] == c;
        }
      }
      LinesAfterText(a[1..], b);
      LinesStep(a + b);
      assert Lines(a + b) == [[a[0]] + Lines(tail)[0]] + Lines(tail)[1..];
      assert Lines(tail)[0] == a[1..] + Lines(b)[0];
      assert [a[0]] + (a[1..] + Lines(b)[0]) == a + Lines(b)[0];
    }
  }

  /** The other direction of the round trip: splitting pieces joined by line feeds gives
      back the pieces, when none of them holds a line feed. */
  lemma {:induction false} LinesUnlines(pieces: seq<string>)
    requires |pieces| > 0 && forall k :: 0 <= k < |pieces| ==> '\n' !in pieces[k]
    ensures Lines(Unlines(pieces)) == pieces
  {
    if |pieces| == 1 {
      LinesAfterText(pieces[0], "");
      assert pieces[0] + "" == pieces[0];
      assert [pieces[0]] == pieces;
    } else {
      var rest := Unlines(pieces[1..]);
      LinesUnlines(pieces[1..]);
      LinesAfterText(pieces[0], "\n" + rest);
      LinesStep("\n" + rest);
      assert ("\n" + rest)[1..] == rest;
      assert Lines("\n" + rest) == [""] + pieces[1..];
      assert ([""] + pieces[1..])[1..] == pieces[1..];
      assert Unlines(pieces) == pieces[0] + ("\n" + rest);
      assert pieces[0] + "" == pieces[0];
      assert [pieces[0]] + pieces[1..] == pieces;
    }
  }

  /** A date as the parser returns it: non-empty, with no white space at either end. */
  predicate IsDate(s: string)
  {
    s != [] && Trimmed(s)
  }

  /** Trim every line, then drop the lines that trimmed to the empty string. */
  function NonBlank(lines: seq<string>): (r: seq<string>)
    ensures |r| <= |lines|
    ensures forall k :: 0 <= k < |r| ==> IsDate(r[k])
  {
    if |lines| == 0 then []
    else
      var t := Trim(lines[0]);
      (if t == [] then [] else [t]) + NonBlank(lines[1..])
  }

  /** The parse works line by line, in order: the dates of two blocks of lines are the
      dates of the first followed by the dates of the second. */
  lemma {:induction false} NonBlankConcat(a: seq<string>, b: seq<string>)
    ensures NonBlank(a + b) == NonBlank(a) + NonBlank(b)
  {
    if |a| > 0 {
      assert (a + b)[0] == a[0];
      assert (a + b)[1..] == a[1..] + b;
      NonBlankConcat(a[1..], b);
      var t := Trim(a[0]);
      var first := if t == [] then [] else [t];
      assert NonBlank(a + b) == first + (NonBlank(a[1..]) + NonBlank(b));
      assert NonBlank(a) == first + NonBlank(a[1..]);
    } else {
      assert a + b == b;
    }
  }

  /** A string is among the dates exactly when it is the trim of one of the lines and is
      not empty. */
  lemma {:induction false} NonBlankMembers(lines: seq<string>, d: string)
    ensures d in NonBlank(lines) <==> d != [] && exists k :: 0 <= k < |lines| && Trim(lines[k]) == d
  {
    if |lines| > 0 {
      NonBlankMembers(lines[1..], d);
      if d != [] && Trim(lines[0]) != d && exists k :: 0 <= k < |lines| && Trim(lines[k]) == d {
        var k :| 0 <= k < |lines| && Trim(lines[k]) == d;
        assert Trim(lines[1..][k - 1]) == d;
      }
      if exists k :: 0 <= k < |lines[1..]| && Trim(lines[1..][k]) == d {
        var k :| 0 <= k < |lines[1..]| && Trim(lines[1..][k]) == d;
        assert Trim(lines[k + 1]) == d;
      }
    }
  }

  /** The dates listed one per line in `text`. */
  function ParseDates(text: string): (dates: seq<string>)
    ensures |dates| <= multiset(text)['\n'] + 1
    ensures forall k :: 0 <= k < |dates| ==> IsDate(dates[k])
  {
    LinesCount(text);
    NonBlank(Lines(text))
  }

  /** Dates written one per line are read back as written. */
  lemma {:induction false} ParseUnlines(dates: seq<string>)
    requires |dates| > 0 && forall k :: 0 <= k < |dates| ==> IsDate(dates[k]) && '\n' !in dates[k]
    ensures ParseDates(Unlines(dates)) == dates
  {
    LinesUnlines(dates);
    NonBlankOfDates(dates);
  }

  /** Lines that are already dates pass through the parse unchanged. */
  lemma {:induction false} NonBlankOfDates(dates: seq<string>)
    requires forall k :: 0 <= k < |dates| ==> IsDate(dates[k])
    ensures NonBlank(dates) == dates
  {
    if |dates| > 0 {
      TrimTrimmed(dates[0]);
      NonBlankOfDates(dates[1..]);
      assert [dates[0]] + dates[1..] == dates;
    }
  }

  /** The date the application opens on when there is no other choice to make. */
  const PreferredDate: string := "2022-July-22"

  /** The initial-date choice: the preferred date when it is listed, the last date
      otherwise, and nothing for an empty list. */
  function InitialDate(dates: seq<string>): (r: Option<string>)
    ensures r.Some? <==> |dates| > 0
    ensures r.Some? ==> r.value in dates
    ensures PreferredDate in dates ==> r == Some(PreferredDate)
    ensures PreferredDate !in dates && |dates| > 0 ==> r == Some(dates[|dates| - 1])
  {
    if |dates| == 0 then None
    else if PreferredDate in dates then Some(PreferredDate)
    else Some(dates[|dates| - 1])
  }
}
