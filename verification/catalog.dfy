/** The catalog of works: each row of the catalog's `title` column is a
    string "Title (Year)", split by the regular expression
    `^(.*)\s+\((\d{4})\)$` (pandas `Series.str.extract`, which runs Python's
    `re.search` on each string). A row that does not match yields an entry
    whose title and year are both absent. */
module Catalog {
  import opened Options
  import opened Strings

  /** One catalog entry; `None` stands for the `NaN` pandas writes. */
  datatype Entry = Entry(title: Option<string>, year: Option<string>)

  /** What `\d{4}` captures (ASCII digits). */
  predicate IsYear(y: string) {
    |y| == 4 && forall i :: 0 <= i < 4 ==> IsDigit(y[i])
  }

  /** What `.*` can match: `.` matches every character but a line feed. */
  predicate NoLineFeed(t: string) {
    '\n' !in t
  }

  /** One way for the pattern to match all of `s`: `t` for `(.*)`, `ws` for
      `\s+`, `y` for `(\d{4})`, and `nl` for what `$` lets follow the closing
      parenthesis (nothing, or one final line feed). */
  predicate Decomposition(s: string, t: string, ws: string, y: string, nl: string) {
    && s == t + ws + "(" + y + ")" + nl
    && NoLineFeed(t)
    && |ws| > 0 && AllSpace(ws)
    && IsYear(y)
    && (nl == "" || nl == "\n")
  }

  /** Where `$` can match: before a final line feed, else at the end. */
  function MatchEnd(s: string): (e: nat)
    ensures e <= |s|
    ensures e == |s| || (e == |s| - 1 && s[e] == '\n')
    ensures |s| > 0 && s[|s| - 1] == '\n' ==> e == |s| - 1
  {
    if |s| > 0 && s[|s| - 1] == '\n' then |s| - 1 else |s|
  }

  /** `(.*)\s+` matched against all of `u`, the text before the "(": the
      title stops at the first line feed, which `.` cannot cross, and greedy
      `.*` leaves `\s+` a single character when it can; the rest must be
      whitespace. */
  function GreedyTitle(u: string): (r: Option<string>)
    ensures r.Some? ==> |r.value| < |u| && u[..|r.value|] == r.value
    ensures r.Some? ==> NoLineFeed(r.value) && AllSpace(u[|r.value|..])
  {
    var m := Min(|u| - 1, IndexOf(u, '\n'));
    if m < 0 || !AllSpace(u[m..]) then None else Some(u[..m])
  }

  /** Any split of `u` into a title without line feeds and a non-empty run
      of whitespace is found, with a title at least as long. */
  lemma GreedyTitleLongest(u: string, t: string, ws: string)
    requires u == t + ws && NoLineFeed(t) && |ws| > 0 && AllSpace(ws)
    ensures GreedyTitle(u).Some? && t <= GreedyTitle(u).value
  {
    assert u[..|t|] == t;
    var i := IndexOf(u, '\n');
    assert i >= |t| by {
      assert '\n' !in u[..|t|];
    }
    var m := Min(|u| - 1, i);
    assert AllSpace(u[m..]) by {
      assert u[m..] == ws[m - |t|..];
    }
    assert GreedyTitle(u) == Some(u[..m]);
    assert u[..m][..|t|] == t;
  }

  /** The captures of the pattern on `s`, or `None` when it does not match:
      `$` fixes where ")" must be, four digits and "(" sit before it, and
      the title and whitespace are read from what comes before those. */
  function ParseTitle(s: string): (r: Option<(string, string)>)
    ensures r.Some? ==> NoLineFeed(r.value.0) && IsYear(r.value.1)
  {
    var e := MatchEnd(s);
    if e < 7 || s[e - 1] != ')' || s[e - 6] != '(' || !IsYear(s[e - 5..e - 1]) then None
    else
      match GreedyTitle(s[..e - 6])
      case None => None
      case Some(t) => Some((t, s[e - 5..e - 1]))
  }

  /** A match is a genuine one: the row is the captured title, a non-empty
      run of whitespace, "(", the captured year, ")" and at most one final
      line feed. */
  lemma ParseTitleSound(s: string)
    requires ParseTitle(s).Some?
    ensures exists ws, nl :: Decomposition(s, ParseTitle(s).value.0, ws, ParseTitle(s).value.1, nl)
  {
    var e := MatchEnd(s);
    var u := s[..e - 6];
    var t, y := ParseTitle(s).value.0, ParseTitle(s).value.1;
    assert GreedyTitle(u) == Some(t) && y == s[e - 5..e - 1];
    var ws := s[|t|..e - 6];
    assert ws == u[|t|..] && s[..|t|] == u[..|t|];
    Reassemble(s, |t|, e);
    assert Decomposition(s, t, ws, y, s[e..]);
  }

  /** A string cut around "(" and ")" at `e - 6` and `e - 1`. */
  lemma Reassemble(s: string, k: nat, e: nat)
    requires k + 6 <= e <= |s| && s[e - 6] == '(' && s[e - 1] == ')'
    ensures s == s[..k] + s[k..e - 6] + "(" + s[e - 5..e - 1] + ")" + s[e..]
  {
    assert s[e - 6..e] == "(" + s[e - 5..e - 1] + ")";
    assert s == s[..k] + s[k..e - 6] + s[e - 6..e] + s[e..];
  }

  /** Where the parts of a decomposition sit in the string. */
  lemma DecompositionLayout(s: string, t: string, ws: string, y: string, nl: string)
    requires Decomposition(s, t, ws, y, nl)
    ensures MatchEnd(s) == |t| + |ws| + 6
    ensures s[..|t| + |ws|] == t + ws
    ensures s[|t| + |ws|] == '(' && s[|t| + |ws| + 5] == ')'
    ensures s[|t| + |ws| + 1..|t| + |ws| + 5] == y
  {
    var u := t + ws;
    assert s == u + ("(" + y + ")" + nl);
    if nl == "\n" {
      assert s[|s| - 1] == '\n';
    } else {
      assert s[|s| - 1] == ')';
    }
  }

  /** Every way the pattern could match `s` is found: the year is the one
      captured, and its title is a prefix of the captured title, which is
      therefore the longest possible one. */
  lemma ParseTitleGreedy(s: string, t: string, ws: string, y: string, nl: string)
    requires Decomposition(s, t, ws, y, nl)
    ensures ParseTitle(s).Some?
    ensures ParseTitle(s).value.1 == y
    ensures t <= ParseTitle(s).value.0
  {
    DecompositionLayout(s, t, ws, y, nl);
    GreedyTitleLongest(t + ws, t, ws);
    ParseTitleAt(s, t + ws, y);
  }

  /** With ")" at the end `$` allows, a year and "(" before it, and a
      title found in the text `u` before those, the pattern matches. */
  lemma ParseTitleAt(s: string, u: string, y: string)
    requires MatchEnd(s) == |u| + 6 && s[..|u|] == u
    requires s[|u|] == '(' && s[|u| + 5] == ')' && s[|u| + 1..|u| + 5] == y && IsYear(y)
    requires GreedyTitle(u).Some?
    ensures ParseTitle(s) == Some((GreedyTitle(u).value, y))
  {
  }

  /** No match at all exactly when no decomposition exists. */
  lemma ParseTitleNone(s: string)
    ensures ParseTitle(s).None? <==> forall t, ws, y, nl :: !Decomposition(s, t, ws, y, nl)
  {
    if ParseTitle(s).Some? {
      ParseTitleSound(s);
    } else {
      forall t, ws, y, nl ensures !Decomposition(s, t, ws, y, nl) {
        if Decomposition(s, t, ws, y, nl) {
          ParseTitleGreedy(s, t, ws, y, nl);
        }
      }
    }
  }

  /** When a single whitespace character separates title and year, the
      title cannot be extended, so that decomposition is the one found. */
  lemma ParseTitleSingleSpace(s: string, t: string, ws: string, y: string, nl: string)
    requires Decomposition(s, t, ws, y, nl) && |ws| == 1
    ensures ParseTitle(s) == Some((t, y))
  {
    ParseTitleGreedy(s, t, ws, y, nl);
    DecompositionLayout(s, t, ws, y, nl);
    var r := ParseTitle(s).value.0;
    ParseTitleSound(s);
    var ws', nl' :| Decomposition(s, r, ws', y, nl');
    DecompositionLayout(s, r, ws', y, nl');
    assert |r| <= |t|;
    assert r == r[..|t|];
  }

  /** Writing a title without line feeds and a year as "Title (Year)" and
      parsing it back gives both unchanged, even when the title itself ends
      in whitespace. */
  lemma ParseTitleRoundTrip(t: string, y: string)
    requires NoLineFeed(t) && IsYear(y)
    ensures ParseTitle(t + " (" + y + ")") == Some((t, y))
  {
    var s := t + " (" + y + ")";
    assert Decomposition(s, t, " ", y, "");
    ParseTitleSingleSpace(s, t, " ", y, "");
  }

  /** A catalog row as an entry: both parts when the pattern matches,
      neither when it does not. */
  function ParseRow(s: string): (e: Entry)
    ensures e.title.Some? <==> e.year.Some?
    ensures e.title.Some? <==> ParseTitle(s).Some?
    ensures e.title.Some? ==> ParseTitle(s) == Some((e.title.value, e.year.value))
  {
    match ParseTitle(s)
    case Some((t, y)) => Entry(Some(t), Some(y))
    case None => Entry(None, None)
  }

  /** The whole `title` column, row by row, in the order of the catalog:
      no row is dropped, so positions in the catalog are positions here. */
  function ReadCatalog(rows: seq<string>): (es: seq<Entry>)
    ensures |es| == |rows|
    ensures forall i :: 0 <= i < |rows| ==> es[i] == ParseRow(rows[i])
  {
    seq(|rows|, i requires 0 <= i < |rows| => ParseRow(rows[i]))
  }

  /** The shape the catalog is meant to hold. */
  lemma ParseTitleExample()
    ensures ParseTitle("Inception (2010)") == Some(("Inception", "2010"))
  {
    ParseTitleRoundTrip("Inception", "2010");
    assert "Inception" + " (" + "2010" + ")" == "Inception (2010)";
  }

  /** Greedy `.*` keeps all but the last of several spaces in the title. */
  lemma ParseTitleKeepsSpace()
    ensures ParseTitle("Heat  (1995)") == Some(("Heat ", "1995"))
  {
    ParseTitleRoundTrip("Heat ", "1995");
    assert "Heat " + " (" + "1995" + ")" == "Heat  (1995)";
  }

  /** `.` cannot cross a line feed, so a title ends at the first one even
      when more whitespace follows it before "(". */
  lemma ParseTitleStopsAtLineFeed()
    ensures ParseTitle("Heat \n (1995)") == Some(("Heat ", "1995"))
  {
    var s, u := "Heat \n (1995)", "Heat \n ";
    var i := IndexOf(u, '\n');
    assert u[5] == '\n' && '\n' !in u[..5];
    assert i == 5;
    assert GreedyTitle(u) == Some("Heat ") by {
      assert u[..5] == "Heat ";
    }
    assert s == u + "(" + "1995" + ")";
    assert s[..|u|] == u && s[|u| + 1..|u| + 5] == "1995";
    ParseTitleAt(s, u, "1995");
  }

  /** `$` also matches before one final line feed. */
  lemma ParseTitleFinalLineFeed()
    ensures ParseTitle("Alien (1979)\n") == Some(("Alien", "1979"))
  {
    var s := "Alien (1979)\n";
    assert Decomposition(s, "Alien", " ", "1979", "\n");
    ParseTitleSingleSpace(s, "Alien", " ", "1979", "\n");
  }

  /** Rows without a trailing parenthesised four-digit year do not match. */
  lemma ParseTitleNoYear()
    ensures ParseTitle("Untitled") == None
    ensures ParseTitle("Solaris (72)") == None
  {
  }
}
