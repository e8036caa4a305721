/** Worked examples of the pipeline on small catalogs. */
module Scenarios {
  import opened Wrappers
  import opened Text
  import opened Counting
  import opened Records
  import opened Filtering
  import opened Aggregation

  function Title(kind: string, year: int, genres: Option<string>): Record {
    Record(kind, None, None, None, None, None, Some(year), genres, None, None, Some(year))
  }

  const DramaComedy := Title("Movie", 2015, Some("Drama, Comedy"))
  const DramaShow := Title("TV Show", 2015, Some("Drama"))
  const LateMovie := Title("Movie", 2021, None)

  lemma FilterThree()
    ensures FilterView([DramaComedy, DramaShow, LateMovie], {"Movie"}, 2010, 2020) == [DramaComedy]
  {
    var c := [DramaComedy, DramaShow, LateMovie];
    assert c[1..] == [DramaShow, LateMovie];
    assert c[1..][1..] == [LateMovie];
    assert FilterView([LateMovie], {"Movie"}, 2010, 2020) == [];
    assert FilterView([DramaShow, LateMovie], {"Movie"}, 2010, 2020) == [];
  }

  lemma TypesOne()
    ensures TypeCounts([DramaComedy]) == [Entry("Movie", 1)]
  {
    assert Types([DramaComedy]) == ["Movie"];
    assert ["Movie"][..0] == [];
  }

  lemma SplitTwoGenres()
    ensures Split("Drama, Comedy") == ["Drama", "Comedy"]
  {
    assert !HasDelim("Drama");
    assert !HasDelim("Comedy");
    SplitOfPieceThenDelim("Drama", "Comedy");
    SplitOfPlain("Comedy");
    assert "Drama" + Delim + "Comedy" == "Drama, Comedy";
  }

  lemma TallyTwo()
    ensures Tally(["Drama", "Comedy"]) == [Entry("Drama", 1), Entry("Comedy", 1)]
  {
    var s := ["Drama", "Comedy"];
    assert s[..1] == ["Drama"];
    assert ["Drama"][..0] == [];
    assert Tally(["Drama"]) == [Entry("Drama", 1)];
    assert Bump([Entry("Drama", 1)], "Comedy") == [Entry("Drama", 1), Entry("Comedy", 1)];
  }

  lemma SortTwo()
    ensures SortByCount([Entry("Drama", 1), Entry("Comedy", 1)]) == [Entry("Drama", 1), Entry("Comedy", 1)]
  {
    var es := [Entry("Drama", 1), Entry("Comedy", 1)];
    assert es[1..] == [Entry("Comedy", 1)];
    assert SortByCount([Entry("Comedy", 1)]) == [Entry("Comedy", 1)];
  }

  lemma GenreTokensOne()
    ensures Tokens(Column([DramaComedy], ListedIn)) == ["Drama", "Comedy"]
  {
    ColumnTokensSnoc([], DramaComedy, ListedIn);
    assert [] + [DramaComedy] == [DramaComedy];
    assert Column([], ListedIn) == [];
    SplitTwoGenres();
  }

  lemma GenresOne()
    ensures TopTen([DramaComedy], ListedIn) == [Entry("Drama", 1), Entry("Comedy", 1)]
  {
    GenreTokensOne();
    TallyTwo();
    SortTwo();
  }

  /**
   * Two movies and a TV show; selecting movies released 2010-2020 keeps the
   * first movie only. Its two genres tie at one title each and are ranked in
   * the order they are first met.
   */
  lemma ThreeTitles()
    ensures var view := FilterView([DramaComedy, DramaShow, LateMovie], {"Movie"}, 2010, 2020);
      && view == [DramaComedy]
      && TypeCounts(view) == [Entry("Movie", 1)]
      && TopTen(view, ListedIn) == [Entry("Drama", 1), Entry("Comedy", 1)]
  {
    FilterThree();
    TypesOne();
    GenresOne();
  }

  /**
   * A `date_added` the parser cannot read leaves the date and both derived
   * fields missing, and the record adds nothing to the additions-by-year series.
   */
  lemma UnreadableDate(row: RawRow, parse: string -> Option<Date>)
    requires row.dateAdded == Some("not a date") && parse("not a date") == None
    ensures var r := Normalize(row, parse);
      && r.dateAdded == None && r.yearAdded == None && r.monthAdded == None
      && YearSeries([r]) == []
  {
    TrimOfTrimmed("not a date");
    var r := Normalize(row, parse);
    assert r.dateAdded == None;
    UndatedAddsNoYear(r);
  }

  lemma UndatedAddsNoYear(r: Record)
    requires r.yearAdded == None
    ensures YearSeries([r]) == []
  {
    assert [r][1..] == [];
    assert YearsAdded([r]) == [];
  }
}
