/**
 The film catalog and the three search filters the routes apply to it, plus the
 sorted genre index shown on the genres page.
 */
module Catalog {
  import opened Text

  /** One record of the films fixture. */
  datatype Film = Film(title: string, description: string, genre: string, year: int)

  /** The one criterion a search request applies. */
  datatype Criterion =
    | Genre(genre: string)
    | Keyword(keyword: string)
    | YearRange(yearFrom: int, yearTo: int)

  /** The condition of each list comprehension: exact genre, keyword in title ignoring case,
      year in the inclusive range. */
  predicate Matches(c: Criterion, f: Film) {
    match c
    case Genre(g) => f.genre == g
    case Keyword(kw) => Contains(Lower(f.title), Lower(kw))
    case YearRange(lo, hi) => lo <= f.year <= hi
  }

  /** `a` can be obtained from `b` by deleting elements, keeping the order of the rest. */
  predicate Subsequence<T(==)>(a: seq<T>, b: seq<T>)
    decreases |b|
  {
    |a| == 0 || (|b| > 0 && ((a[0] == b[0] && Subsequence(a[1..], b[1..])) || Subsequence(a, b[1..])))
  }

  /** `[f for f in films if <criterion holds of f>]`. */
  function Filter(films: seq<Film>, c: Criterion): (r: seq<Film>)
    ensures |r| <= |films|
    ensures forall i :: 0 <= i < |r| ==> Matches(c, r[i])
    ensures forall f :: f in r <==> f in films && Matches(c, f)
    ensures Subsequence(r, films)
  {
    if |films| == 0 then []
    else if Matches(c, films[0]) then [films[0]] + Filter(films[1..], c)
    else Filter(films[1..], c)
  }

  /** Filtering a concatenation filters each part: the result is assembled film by film
      in catalog order. */
  lemma {:induction false} FilterConcat(a: seq<Film>, b: seq<Film>, c: Criterion)
    ensures Filter(a + b, c) == Filter(a, c) + Filter(b, c)
    decreases |a|
  {
    if |a| > 0 {
      assert (a + b)[0] == a[0];
      assert (a + b)[1..] == a[1..] + b;
      FilterConcat(a[1..], b, c);
      assert [a[0]] + Filter(a[1..], c) + Filter(b, c) == [a[0]] + (Filter(a[1..], c) + Filter(b, c));
      if Matches(c, a[0]) {
        assert Filter(a + b, c) == [a[0]] + (Filter(a[1..], c) + Filter(b, c));
        assert Filter(a, c) == [a[0]] + Filter(a[1..], c);
      } else {
        assert Filter(a + b, c) == Filter(a[1..], c) + Filter(b, c);
        assert Filter(a, c) == Filter(a[1..], c);
      }
    } else {
      assert a + b == b;
    }
  }

  /** Every matching film keeps all its copies and every other film loses all of them. */
  lemma {:induction false} FilterMultiplicity(films: seq<Film>, c: Criterion, f: Film)
    ensures multiset(Filter(films, c))[f] == if Matches(c, f) then multiset(films)[f] else 0
    decreases |films|
  {
    if |films| > 0 {
      var head, rest := films[0], films[1..];
      FilterMultiplicity(rest, c, f);
      assert films == [head] + rest;
      assert multiset(films)[f] == multiset([head])[f] + multiset(rest)[f];
      var r := Filter(rest, c);
      if Matches(c, head) {
        assert Filter(films, c) == [head] + r;
        assert multiset(Filter(films, c))[f] == multiset([head])[f] + multiset(r)[f];
      } else {
        assert Filter(films, c) == r;
        assert head == f ==> !Matches(c, f);
      }
    }
  }

  /** A film list in which every film matches is returned whole. */
  lemma {:induction false} FilterKeepsAllMatching(films: seq<Film>, c: Criterion)
    requires forall i :: 0 <= i < |films| ==> Matches(c, films[i])
    ensures Filter(films, c) == films
    decreases |films|
  {
    if |films| > 0 {
      FilterKeepsAllMatching(films[1..], c);
    }
  }

  /** Applying the same criterion twice changes nothing. */
  lemma FilterIdempotent(films: seq<Film>, c: Criterion)
    ensures Filter(Filter(films, c), c) == Filter(films, c)
  {
    FilterKeepsAllMatching(Filter(films, c), c);
  }

  /** The keyword search keeps a film exactly when the lowered keyword occurs somewhere
      in the lowered title. */
  lemma KeywordMatchIff(films: seq<Film>, kw: string, f: Film)
    ensures f in Filter(films, Keyword(kw)) <==>
      f in films && exists i :: OccursAt(Lower(f.title), Lower(kw), i)
  {
    assert Matches(Keyword(kw), f) == Contains(Lower(f.title), Lower(kw));
    ContainsIff(Lower(f.title), Lower(kw));
  }

  /** Two keywords that lower to the same string select the same films. */
  lemma {:induction false} KeywordCaseInsensitive(films: seq<Film>, a: string, b: string)
    requires Lower(a) == Lower(b)
    ensures Filter(films, Keyword(a)) == Filter(films, Keyword(b))
    decreases |films|
  {
    if |films| > 0 {
      KeywordCaseInsensitive(films[1..], a, b);
    }
  }

  /** In particular, searching for the uppercased keyword selects the same films. */
  lemma KeywordUpperSame(films: seq<Film>, kw: string)
    ensures Filter(films, Keyword(Upper(kw))) == Filter(films, Keyword(kw))
  {
    LowerOfUpper(kw);
    KeywordCaseInsensitive(films, Upper(kw), kw);
  }

  /** The empty keyword occurs in every title, so it returns the whole catalog. */
  lemma EmptyKeywordKeepsAll(films: seq<Film>)
    ensures Filter(films, Keyword("")) == films
  {
    forall i | 0 <= i < |films|
      ensures Matches(Keyword(""), films[i])
    {
      ContainsEmpty(Lower(films[i].title));
    }
    FilterKeepsAllMatching(films, Keyword(""));
  }

  /** A year range whose lower bound exceeds its upper bound selects nothing. */
  lemma {:induction false} EmptyYearRange(films: seq<Film>, yearFrom: int, yearTo: int)
    requires yearFrom > yearTo
    ensures Filter(films, YearRange(yearFrom, yearTo)) == []
    decreases |films|
  {
    if |films| > 0 {
      EmptyYearRange(films[1..], yearFrom, yearTo);
    }
  }

  // The genre index

  /** Every element is smaller than every later one; so no element repeats. */
  predicate StrictlyAscending(xs: seq<string>) {
    forall i, j :: 0 <= i < j < |xs| ==> Less(xs[i], xs[j])
  }

  /** `{film["genre"] for film in films}`. */
  function Genres(films: seq<Film>): set<string> {
    set f | f in films :: f.genre
  }

  /** Adds `g` to an ascending list at its place, unless it is already there. */
  function Insert(xs: seq<string>, g: string): (r: seq<string>)
    requires StrictlyAscending(xs)
    ensures StrictlyAscending(r)
    ensures forall x :: x in r <==> x in xs || x == g
  {
    if |xs| == 0 then [g]
    else if g == xs[0] then xs
    else if Less(g, xs[0]) then
      assert forall j :: 0 < j < |xs| ==> Less(g, xs[j]) by {
        forall j | 0 < j < |xs| {
          LessTransitive(g, xs[0], xs[j]);
        }
      }
      [g] + xs
    else
      LessTotal(g, xs[0]);
      var rest := Insert(xs[1..], g);
      assert forall x :: x in rest ==> Less(xs[0], x);
      [xs[0]] + rest
  }

  /** `sorted({film["genre"] for film in films})`: the distinct genres in ascending order. */
  function GenreIndex(films: seq<Film>): (r: seq<string>)
    ensures StrictlyAscending(r)
    ensures forall g :: g in r <==> g in Genres(films)
    ensures forall i, j :: 0 <= i < j < |r| ==> r[i] != r[j]
  {
    if |films| == 0 then []
    else
      var r := Insert(GenreIndex(films[1..]), films[0].genre);
      assert forall g :: g in Genres(films) <==> g == films[0].genre || g in Genres(films[1..]) by {
        assert forall f :: f in films <==> f == films[0] || f in films[1..];
      }
      assert forall i, j :: 0 <= i < j < |r| ==> r[i] != r[j] by {
        forall i, j | 0 <= i < j < |r|
          ensures r[i] != r[j]
        {
          LessIrreflexive(r[i]);
        }
      }
      r
  }

  /** Two ascending lists with the same elements are the same list. */
  lemma {:induction false} AscendingUnique(a: seq<string>, b: seq<string>)
    requires StrictlyAscending(a) && StrictlyAscending(b)
    requires forall x :: x in a <==> x in b
    ensures a == b
    decreases |a|
  {
    if |a| > 0 {
      assert a[0] in a;
    }
    if |b| > 0 {
      assert b[0] in b;
    }
    if |a| > 0 && |b| > 0 {
      assert a[0] in b;
      var k :| 0 <= k < |b| && b[k] == a[0];
      assert b[0] in a;
      var m :| 0 <= m < |a| && a[m] == b[0];
      if k != 0 && m != 0 {
        LessAsymmetric(a[0], b[0]);
      }
      assert a[0] == b[0];
      assert a == [a[0]] + a[1..] && b == [b[0]] + b[1..];
      forall x
        ensures x in a[1..] <==> x in b[1..]
      {
        if x in a[1..] {
          var k :| 0 <= k < |a[1..]| && a[1..][k] == x;
          assert Less(a[0], a[k + 1]);
          LessIrreflexive(a[0]);
          assert x in b && x != b[0];
        }
        if x in b[1..] {
          var k :| 0 <= k < |b[1..]| && b[1..][k] == x;
          assert Less(b[0], b[k + 1]);
          LessIrreflexive(b[0]);
          assert x in a && x != a[0];
        }
      }
      AscendingUnique(a[1..], b[1..]);
      assert a == [b[0]] + b[1..];
    }
  }

  /** The genre index is the one ascending listing of the catalog's genres, whatever the
      order of the films. */
  lemma GenreIndexIsSortedGenres(films: seq<Film>, listing: seq<string>)
    requires StrictlyAscending(listing)
    requires forall g :: g in listing <==> g in Genres(films)
    ensures GenreIndex(films) == listing
  {
    AscendingUnique(GenreIndex(films), listing);
  }
}
