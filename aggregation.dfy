/**
 * The summaries the dashboard draws from the filtered view: the type
 * distribution, the titles added per year, the three top-10 rankings of the
 * multi-valued columns and the actor text for the word cloud.
 */
module Aggregation {
  import opened Wrappers
  import opened Text
  import opened Counting
  import opened Records
  import opened Filtering

  /** The `type` column of the view. */
  function Types(view: seq<Record>): (ts: seq<string>)
    ensures |ts| == |view|
    ensures forall i :: 0 <= i < |view| ==> ts[i] == view[i].contentType
  {
    seq(|view|, i requires 0 <= i < |view| => view[i].contentType)
  }

  /** Line 51, `filtered_df["type"].value_counts()`. */
  function TypeCounts(view: seq<Record>): (r: seq<Entry<string>>)
    ensures DistinctKeys(r) && ByCountDescending(r)
    ensures Sum(r) == |view|
  {
    ValueCounts(Types(view))
  }

  /**
   * The type distribution lists each type seen in the view and no other, once,
   * with the positive number of view records of that type, by count
   * descending; the counts add up to the size of the view.
   */
  lemma TypeCountsSpec(view: seq<Record>)
    ensures var r := TypeCounts(view);
      && DistinctKeys(r)
      && ByCountDescending(r)
      && (forall i :: 0 <= i < |r| ==> r[i].count == multiset(Types(view))[r[i].key] > 0)
      && (forall t :: t in Keys(r) <==> exists rec :: rec in view && rec.contentType == t)
      && Sum(r) == |view|
  {
    var ts, r := Types(view), TypeCounts(view);
    ValueCountsSpec(ts);
    TypesMembers(view);
    forall t ensures t in Keys(r) <==> exists rec :: rec in view && rec.contentType == t {
      assert t in Keys(r) <==> t in ts;
    }
  }

  /** A type is in the `type` column exactly when some record of the view has it. */
  lemma TypesMembers(view: seq<Record>)
    ensures forall t :: t in Types(view) <==> exists rec :: rec in view && rec.contentType == t
  {
    var ts := Types(view);
    forall t | t in ts ensures exists rec :: rec in view && rec.contentType == t {
      var j :| 0 <= j < |ts| && ts[j] == t;
      assert view[j] in view;
    }
    forall rec | rec in view ensures rec.contentType in ts {
      var j :| 0 <= j < |view| && view[j] == rec;
      assert ts[j] == rec.contentType;
    }
  }

  /**
   * The non-missing values of the `year_added` column, in view order: one per
   * dated record, so each year occurs as often as records were added in it.
   */
  function YearsAdded(view: seq<Record>): (ys: seq<int>)
    ensures |ys| == NumDated(view)
    ensures forall y :: multiset(ys)[y] == AddedIn(view, y)
  {
    if view == [] then []
    else (match view[0].yearAdded case None => [] case Some(y) => [y]) + YearsAdded(view[1..])
  }

  /** How many records of the view have a `year_added`. */
  function NumDated(view: seq<Record>): nat {
    if view == [] then 0
    else (if view[0].yearAdded.Some? then 1 else 0) + NumDated(view[1..])
  }

  /** How many records of the view were added in year `y`. */
  function AddedIn(view: seq<Record>, y: int): nat {
    if view == [] then 0
    else (if view[0].yearAdded == Some(y) then 1 else 0) + AddedIn(view[1..], y)
  }

  /** The added years of a view with one more record: its year, if it has one, comes last. */
  lemma {:induction false} YearsAddedSnoc(view: seq<Record>, r: Record)
    ensures YearsAdded(view + [r]) == YearsAdded(view) +
      match r.yearAdded case None => [] case Some(y) => [y]
  {
    if view == [] {
      assert [] + [r] == [r] && [r][1..] == [];
    } else {
      assert (view + [r])[0] == view[0] && (view + [r])[1..] == view[1..] + [r];
      YearsAddedSnoc(view[1..], r);
    }
  }

  /** A year is among the added years exactly when some record of the view was added that year. */
  lemma {:induction false} YearsAddedSpec(view: seq<Record>)
    ensures |YearsAdded(view)| == NumDated(view)
    ensures forall y :: y in YearsAdded(view) <==> exists r :: r in view && r.yearAdded == Some(y)
  {
    if view != [] {
      YearsAddedSpec(view[1..]);
      assert forall r :: r in view <==> r == view[0] || r in view[1..];
    }
  }

  /** Line 59, `filtered_df["year_added"].value_counts().sort_index()`. */
  function YearSeries(view: seq<Record>): (r: seq<Entry<int>>)
    ensures ByKeyAscending(r)
    ensures Sum(r) == NumDated(view)
  {
    SortedCountsSpec(YearsAdded(view));
    SortByKey(ValueCounts(YearsAdded(view)))
  }

  /**
   * The additions-by-year series is sparse and sorted: its years strictly
   * ascend, each is a year in which some record of the view was added and each
   * such year appears, its count is the positive number of view records added
   * that year, and the counts add up to the number of view records with a
   * `year_added`, so records without one are left out.
   */
  lemma YearSeriesSpec(view: seq<Record>)
    ensures var r := YearSeries(view);
      && ByKeyAscending(r)
      && (forall i :: 0 <= i < |r| ==> r[i].count == AddedIn(view, r[i].key) > 0)
      && (forall y :: y in Keys(r) <==> exists rec :: rec in view && rec.yearAdded == Some(y))
      && Sum(r) == NumDated(view)
  {
    var ys, r := YearsAdded(view), YearSeries(view);
    SortedCountsSpec(ys);
    YearsAddedSpec(view);
    forall i | 0 <= i < |r| ensures r[i].count == AddedIn(view, r[i].key) > 0 {
      assert r[i].count == multiset(ys)[r[i].key] > 0;
    }
    forall y ensures y in Keys(r) <==> exists rec :: rec in view && rec.yearAdded == Some(y) {
      assert y in Keys(r) <==> y in ys;
    }
  }

  /** The multi-valued columns. */
  datatype Field = ListedIn | Country | Director | Cast

  function FieldValue(r: Record, f: Field): Option<string> {
    match f
    case ListedIn => r.listedIn
    case Country => r.country
    case Director => r.director
    case Cast => r.cast
  }

  /** The column `f` of the view. */
  function Column(view: seq<Record>, f: Field): (cells: seq<Option<string>>)
    ensures |cells| == |view|
    ensures forall i :: 0 <= i < |view| ==> cells[i] == FieldValue(view[i], f)
  {
    seq(|view|, i requires 0 <= i < |view| => FieldValue(view[i], f))
  }

  /**
   * `.dropna().str.split(', ').explode()`: the pieces of every present cell,
   * cell by cell in order; a missing cell gives none.
   */
  function Tokens(cells: seq<Option<string>>): (ts: seq<string>)
    ensures forall t :: t in ts ==> !HasDelim(t)
  {
    if cells == [] then []
    else
      var c := CellTokens(cells[0]);
      assert forall t :: t in c ==> !HasDelim(t) by {
        if cells[0].Some? {
          SplitPiecesHaveNoDelim(cells[0].value);
        }
      }
      c + Tokens(cells[1..])
  }

  /** The pieces of one cell: none for a missing cell. */
  function CellTokens(c: Option<string>): seq<string> {
    match c
    case None => []
    case Some(v) => Split(v)
  }

  /** The tokens of a cell list are the tokens of its parts, in order. */
  lemma {:induction false} TokensAppend(a: seq<Option<string>>, b: seq<Option<string>>)
    ensures Tokens(a + b) == Tokens(a) + Tokens(b)
  {
    if a == [] {
      assert a + b == b;
    } else {
      var c := CellTokens(a[0]);
      assert Tokens(a + b) == c + Tokens(a[1..] + b) by {
        assert (a + b)[0] == a[0] && (a + b)[1..] == a[1..] + b;
      }
      TokensAppend(a[1..], b);
    }
  }

  /** No token holds the delimiter, and there are no tokens exactly when every cell is missing. */
  lemma {:induction false} TokensShape(cells: seq<Option<string>>)
    ensures forall t :: t in Tokens(cells) ==> !HasDelim(t)
    ensures Tokens(cells) == [] <==> forall c :: c in cells ==> c.None?
  {
    if cells != [] {
      TokensShape(cells[1..]);
      if cells[0].Some? {
        SplitPiecesHaveNoDelim(cells[0].value);
      }
      assert forall c :: c in cells <==> c == cells[0] || c in cells[1..];
    }
  }

  /** The tokens of a view with one more record: that record's cell adds its pieces, a missing cell adds nothing. */
  lemma ColumnTokensSnoc(view: seq<Record>, r: Record, f: Field)
    ensures Tokens(Column(view + [r], f)) == Tokens(Column(view, f)) +
      match FieldValue(r, f) case None => [] case Some(v) => Split(v)
  {
    assert Column(view + [r], f) == Column(view, f) + [FieldValue(r, f)];
    TokensAppend(Column(view, f), [FieldValue(r, f)]);
  }

  /**
   * Adding a record to the view adds, to the count of every token, the number
   * of times the token is a piece of the record's cell: a record with k pieces
   * adds k in all, a record with a missing cell adds nothing.
   */
  lemma RankingCountsSnoc(view: seq<Record>, r: Record, f: Field)
    ensures multiset(Tokens(Column(view + [r], f))) == multiset(Tokens(Column(view, f))) +
      match FieldValue(r, f) case None => multiset{} case Some(v) => multiset(Split(v))
    ensures |Tokens(Column(view + [r], f))| == |Tokens(Column(view, f))| +
      match FieldValue(r, f) case None => 0 case Some(v) => |Split(v)|
  {
    ColumnTokensSnoc(view, r, f);
  }

  /** Lines 69-70, 78-79 and 87-88: the ten most frequent pieces of the column `f`. */
  function TopTen(view: seq<Record>, f: Field): (r: seq<Entry<string>>)
    ensures |r| <= 10
    ensures r <= ValueCounts(Tokens(Column(view, f)))
  {
    Top(Tokens(Column(view, f)), 10)
  }

  /**
   * Each top-10 ranking has at most ten entries, no value twice, counts
   * non-increasing, each count the number of times its value is a piece of a
   * present cell of the column; values are pieces without the delimiter, and a
   * value left out is no more frequent than any value kept.
   */
  lemma TopTenSpec(view: seq<Record>, f: Field)
    ensures var s := Tokens(Column(view, f));
      var r := TopTen(view, f);
      && |r| <= 10
      && r <= ValueCounts(s)
      && DistinctKeys(r)
      && ByCountDescending(r)
      && (forall i :: 0 <= i < |r| ==> r[i].count == multiset(s)[r[i].key] > 0)
      && (forall k :: k in Keys(r) ==> k in s && !HasDelim(k))
      && (forall k :: k in s && k !in Keys(r) ==> |r| == 10)
      && (forall k, i :: k in s && k !in Keys(r) && 0 <= i < |r| ==> multiset(s)[k] <= r[i].count)
  {
    var s, r := Tokens(Column(view, f)), TopTen(view, f);
    TopSpec(s, 10);
    assert r == Top(s, 10);
  }

  /** Lines 96-98: the pieces of the present `cast` cells, joined with single spaces. */
  function CastText(view: seq<Record>): (text: string)
    ensures text == Join(CastPhrases(view), " ")
  {
    CastPhrasesJoin(view);
    Join(Tokens(Column(view, Cast)), " ")
  }

  /** The casts present in the view, in order, each with its `", "` turned into a single space. */
  function CastPhrases(view: seq<Record>): seq<string> {
    if view == [] then []
    else (match view[0].cast case None => [] case Some(c) => [DelimToSpace(c)]) + CastPhrases(view[1..])
  }

  /**
   * Space-joining the exploded cast pieces is space-joining the casts with
   * their delimiters turned into spaces; there are pieces exactly when there
   * are casts.
   */
  lemma {:induction false} CastPhrasesJoin(view: seq<Record>)
    ensures Join(Tokens(Column(view, Cast)), " ") == Join(CastPhrases(view), " ")
    ensures Tokens(Column(view, Cast)) == [] <==> CastPhrases(view) == []
  {
    if view != [] {
      var rest := view[1..];
      CastPhrasesJoin(rest);
      var a := CellTokens(view[0].cast);
      var b := Tokens(Column(rest, Cast));
      var p := CastPhrases(rest);
      assert Tokens(Column(view, Cast)) == a + b by {
        var col := Column(view, Cast);
        assert col[0] == view[0].cast && col[1..] == Column(rest, Cast);
      }
      match view[0].cast
      case None =>
        assert a + b == b;
        assert CastPhrases(view) == p;
      case Some(c) =>
        var d := DelimToSpace(c);
        JoinSpaceOfSplit(c);
        assert CastPhrases(view) == [d] + p;
        assert ([d] + p)[1..] == p;
        if b == [] {
          assert a + b == a;
        } else {
          JoinAppend(a, b, " ");
        }
    }
  }

  /** No record of the view has a cast. */
  predicate NoCast(view: seq<Record>) {
    forall r :: r in view ==> r.cast.None?
  }

  /** Without any cast, in particular for an empty view, the actor text is empty. */
  lemma CastTextEmpty(view: seq<Record>)
    requires NoCast(view)
    ensures CastText(view) == ""
  {
    TokensShape(Column(view, Cast));
    forall c | c in Column(view, Cast) ensures c.None? {
      var i :| 0 <= i < |view| && Column(view, Cast)[i] == c;
      assert view[i] in view;
    }
  }

  /**
   * The actor text, record by record: a record without a cast adds nothing, and
   * a record with cast `c` adds `c` with each `", "` turned into a space,
   * after a separating space unless it is the first cast.
   */
  lemma CastTextSnoc(view: seq<Record>, r: Record)
    ensures CastText(view + [r]) ==
      match r.cast
      case None => CastText(view)
      case Some(c) => if NoCast(view) then DelimToSpace(c) else CastText(view) + " " + DelimToSpace(c)
  {
    var before := Tokens(Column(view, Cast));
    ColumnTokensSnoc(view, r, Cast);
    if r.cast.Some? {
      var c := r.cast.value;
      JoinSpaceOfSplit(c);
      TokensShape(Column(view, Cast));
      if NoCast(view) {
        CastTextEmpty(view);
        assert before == [];
        assert before + Split(c) == Split(c);
      } else {
        assert before != [] by {
          var w :| w in view && w.cast.Some?;
          var i :| 0 <= i < |view| && view[i] == w;
          assert Column(view, Cast)[i] in Column(view, Cast);
        }
        JoinAppend(before, Split(c), " ");
      }
    } else {
      assert before + [] == before;
    }
  }

  /** Everything the dashboard shows about one filter setting. */
  datatype Summary = Summary(
    view: seq<Record>,
    rows: nat,
    typeCounts: seq<Entry<string>>,
    yearSeries: seq<Entry<int>>,
    topGenres: seq<Entry<string>>,
    topCountries: seq<Entry<string>>,
    topDirectors: seq<Entry<string>>,
    castText: string)

  /**
   * One pass of the dashboard (lines 40-98): filter the catalog, then compute
   * every summary from the view. The row count is the size of the view, the
   * type counts add up to it, and the rankings hold at most ten entries each.
   */
  function Dashboard(catalog: seq<Record>, types: set<string>, lo: int, hi: int): (s: Summary)
    ensures s.view == FilterView(catalog, types, lo, hi)
    ensures s.rows == |s.view| <= |catalog|
    ensures Sum(s.typeCounts) == s.rows
    ensures Sum(s.yearSeries) == NumDated(s.view)
    ensures |s.topGenres| <= 10 && |s.topCountries| <= 10 && |s.topDirectors| <= 10
  {
    var view := FilterView(catalog, types, lo, hi);
    TypeCountsSpec(view);
    YearSeriesSpec(view);
    TopTenSpec(view, ListedIn);
    TopTenSpec(view, Country);
    TopTenSpec(view, Director);
    Summary(
      view := view,
      rows := |view|,
      typeCounts := TypeCounts(view),
      yearSeries := YearSeries(view),
      topGenres := TopTen(view, ListedIn),
      topCountries := TopTen(view, Country),
      topDirectors := TopTen(view, Director),
      castText := CastText(view))
  }

  /** An empty view yields empty summaries, not an error. */
  lemma EmptyViewEmptySummaries(catalog: seq<Record>, types: set<string>, lo: int, hi: int)
    requires FilterView(catalog, types, lo, hi) == []
    ensures var s := Dashboard(catalog, types, lo, hi);
      && s.rows == 0 && s.typeCounts == [] && s.yearSeries == []
      && s.topGenres == [] && s.topCountries == [] && s.topDirectors == [] && s.castText == ""
  {
    var s := Dashboard(catalog, types, lo, hi);
    TypeCountsSpec([]);
    YearSeriesSpec([]);
    TopTenSpec([], ListedIn);
    TopTenSpec([], Country);
    TopTenSpec([], Director);
    CastTextEmpty([]);
  }
}
