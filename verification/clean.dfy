/** Normalisation of one lookup response (`clean_movie_data`): eight fields
    out of the response, the IMDb rating cut out of the `Ratings` list, the
    unit stripped from the running time, and the integer `0` wherever a
    copied field is missing. Nothing is dropped and nothing is parsed to a
    number. */
module Clean {
  import opened Options
  import opened Strings

  /** One element of the response's `Ratings` list. */
  datatype Rating = Rating(source: Option<string>, value: string)

  /** A decoded lookup response. The fields the normaliser reads are named;
      every other key of the response is in `others`. */
  datatype RawMovie = RawMovie(
    title: Option<string>,
    year: Option<string>,
    rated: Option<string>,
    runtime: Option<string>,
    genre: Option<string>,
    country: Option<string>,
    awards: Option<string>,
    ratings: Option<seq<Rating>>,
    others: map<string, string>)

  /** A copied field: the response's string, or the integer `0` put in its
      place when the key is missing. */
  datatype Field = Str(text: string) | Zero

  /** The normalised record, with the source's eight keys. */
  datatype Movie = Movie(
    title: Field,
    year: Field,
    rated: Field,
    runtime: Option<string>,
    genre: Field,
    country: Field,
    awards: Field,
    ratingsImdb: Option<string>)

  const ImdbSource := "Internet Movie Database"

  /** The unit suffix removed from the running time. */
  const MinuteUnit := " min"

  /** `dict.get(key, 0)`. */
  function OrZero(f: Option<string>): (r: Field)
    ensures r.Zero? <==> f.None?
    ensures f.Some? ==> r == Str(f.value)
  {
    match f
    case Some(v) => Str(v)
    case None => Zero
  }

  /** Reading a copied field back: the integer `0` means the key was missing. */
  function Present(f: Field): Option<string> {
    match f
    case Str(v) => Some(v)
    case Zero => None
  }

  /** `OrZero` loses nothing: `Present` undoes it, and the other way round. */
  lemma OrZeroRoundTrip(o: Option<string>, f: Field)
    ensures Present(OrZero(o)) == o
    ensures OrZero(Present(f)) == f
  {
  }

  predicate IsImdb(r: Rating) {
    r.source == Some(ImdbSource)
  }

  /** `k` is the position of the first IMDb entry of `rs`. */
  predicate FirstImdb(rs: seq<Rating>, k: int) {
    0 <= k < |rs| && IsImdb(rs[k]) && forall j :: 0 <= j < k ==> !IsImdb(rs[j])
  }

  /** The IMDb rating: the part before the first `/` of the value of the
      first entry whose source is the Internet Movie Database; none when no
      entry has that source. */
  function ImdbRating(rs: seq<Rating>): (r: Option<string>)
    ensures r.None? <==> forall i :: 0 <= i < |rs| ==> !IsImdb(rs[i])
    ensures r.Some? ==> exists k :: FirstImdb(rs, k) && r.value == BeforeFirst(rs[k].value, '/')
  {
    if rs == [] then None
    else if IsImdb(rs[0]) then
      assert FirstImdb(rs, 0);
      Some(BeforeFirst(rs[0].value, '/'))
    else
      var r := ImdbRating(rs[1..]);
      assert r.Some? ==> exists k :: FirstImdb(rs, k) && r.value == BeforeFirst(rs[k].value, '/') by {
        if r.Some? {
          var k :| FirstImdb(rs[1..], k) && r.value == BeforeFirst(rs[1..][k].value, '/');
          assert FirstImdb(rs, k + 1);
        }
      }
      assert r.None? <==> forall i :: 0 <= i < |rs| ==> !IsImdb(rs[i]) by {
        if r.None? {
          forall i | 0 <= i < |rs| ensures !IsImdb(rs[i]) {
            if i > 0 {
              assert rs[i] == rs[1..][i - 1];
            }
          }
        }
      }
      r
  }

  /** The running time: absent when the key is missing or its value is the
      empty string (both falsy); otherwise the value with every " min" the
      left-to-right scan finds removed and the surrounding whitespace
      stripped. It stays a string. */
  function CleanRuntime(runtime: Option<string>): (r: Option<string>)
    ensures r.None? <==> runtime.None? || runtime.value == ""
    ensures r.Some? ==> Trimmed(r.value) && |r.value| <= |runtime.value|
  {
    match runtime
    case None => None
    case Some(v) => if v == "" then None else Some(Strip(RemoveAll(v, MinuteUnit)))
  }

  /** Two occurrences of the unit can never overlap. */
  lemma MinuteUnitUnbordered()
    ensures Unbordered(MinuteUnit)
  {
    forall j | 0 < j < |MinuteUnit| ensures MinuteUnit[j..] != MinuteUnit[..|MinuteUnit| - j] {
      assert MinuteUnit[j..][0] != ' ';
    }
  }

  /** A running time written as a number of minutes and the unit comes out
      as the number alone. */
  lemma RuntimeDropsUnit(d: string)
    requires !Occurs(d, MinuteUnit)
    ensures CleanRuntime(Some(d + MinuteUnit)) == Some(Strip(d))
  {
    MinuteUnitUnbordered();
    RemoveAllAfter(d, MinuteUnit, "");
    assert d + MinuteUnit + "" == d + MinuteUnit;
    assert d + "" == d;
  }

  /** A running time without the unit, such as "N/A", is kept as a string,
      only stripped. */
  lemma RuntimeWithoutUnit(v: string)
    requires v != "" && !Occurs(v, MinuteUnit)
    ensures CleanRuntime(Some(v)) == Some(Strip(v))
  {
  }

  /** "142 min" and every other count of minutes in digits with the unit
      come out as the digits alone, still a string. */
  lemma RuntimeMinutes(d: string)
    requires forall i :: 0 <= i < |d| ==> IsDigit(d[i])
    ensures CleanRuntime(Some(d + MinuteUnit)) == Some(d)
  {
    var v := d + MinuteUnit;
    calc {
      CleanRuntime(Some(v));
      { assert |v| == |d| + 4; }
      Some(Strip(RemoveAll(v, MinuteUnit)));
      { DigitsHaveNoUnit(d);
        MinuteUnitUnbordered();
        RemoveAllAfter(d, MinuteUnit, "");
        assert v + "" == v;
        assert d + "" == d; }
      Some(Strip(d));
      { assert Trimmed(d); StripKeepsTrimmed(d); }
      Some(d);
    }
  }

  lemma DigitsHaveNoUnit(d: string)
    requires forall i :: 0 <= i < |d| ==> IsDigit(d[i])
    ensures !Occurs(d, MinuteUnit)
  {
    forall k | 0 <= k <= |d| - |MinuteUnit| ensures !OccursAt(d, MinuteUnit, k) {
      assert d[k..k + |MinuteUnit|][0] == d[k];
    }
  }

  lemma ImdbRatingExample()
    ensures ImdbRating([Rating(Some(ImdbSource), "8.8/10")]) == Some("8.8")
    ensures ImdbRating([Rating(Some("Rotten Tomatoes"), "87%")]) == None
  {
    assert BeforeFirst("8.8/10", '/') == "8.8";
  }

  /** The normalised record of one response. Every copied field is the
      response's value when present and `0` when missing; the running time
      and the IMDb rating are derived as above (`Ratings` missing counts as
      an empty list); and every record comes out, whatever is missing. */
  function CleanMovie(raw: RawMovie): (m: Movie)
    ensures Present(m.title) == raw.title && Present(m.year) == raw.year
    ensures Present(m.rated) == raw.rated && Present(m.genre) == raw.genre
    ensures Present(m.country) == raw.country && Present(m.awards) == raw.awards
  {
    Movie(
      title := OrZero(raw.title),
      year := OrZero(raw.year),
      rated := OrZero(raw.rated),
      runtime := CleanRuntime(raw.runtime),
      genre := OrZero(raw.genre),
      country := OrZero(raw.country),
      awards := OrZero(raw.awards),
      ratingsImdb := ImdbRating(raw.ratings.GetOr([])))
  }

  /** The two derived fields of a cleaned record: the running time is absent
      exactly when the response has none or an empty one, and the IMDb rating
      exactly when no rating entry (or no `Ratings` list) names that source. */
  lemma CleanMovieDerived(raw: RawMovie)
    ensures CleanMovie(raw).runtime.None? <==> raw.runtime.None? || raw.runtime.value == ""
    ensures CleanMovie(raw).ratingsImdb.None? <==>
      (raw.ratings.None? || forall i :: 0 <= i < |raw.ratings.value| ==> !IsImdb(raw.ratings.value[i]))
    ensures CleanMovie(raw).runtime == CleanRuntime(raw.runtime)
    ensures CleanMovie(raw).ratingsImdb == ImdbRating(raw.ratings.GetOr([]))
  {
  }

  /** A typical response: a running time "142 min" and an IMDb rating
      "8.8/10" give the record's "142" and "8.8". */
  lemma CleanMovieExample(raw: RawMovie)
    requires raw.runtime == Some("142 min")
    requires raw.ratings == Some([Rating(Some(ImdbSource), "8.8/10")])
    ensures CleanMovie(raw).runtime == Some("142")
    ensures CleanMovie(raw).ratingsImdb == Some("8.8")
  {
    assert "142" + MinuteUnit == "142 min";
    RuntimeMinutes("142");
    ImdbRatingExample();
    CleanMovieDerived(raw);
  }

  /** Keys of the response other than the eight read ones do not matter. */
  lemma CleanMovieIgnoresOthers(raw: RawMovie, others: map<string, string>)
    ensures CleanMovie(raw.(others := others)) == CleanMovie(raw)
  {
  }

  /** A "not found" response, which carries none of the read keys, still
      yields a record: every copied field is `0`, the rest absent. */
  lemma CleanMovieNotFound(others: map<string, string>)
    ensures CleanMovie(RawMovie(None, None, None, None, None, None, None, None, others))
         == Movie(Zero, Zero, Zero, None, Zero, Zero, Zero, None)
  {
  }
}
