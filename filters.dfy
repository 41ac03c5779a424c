/** The filter list the Filter button applies to the table's item binding. */
module Filters {

  datatype Operator = Contains | BT

  /** The Book properties the search form filters on; each constructor's name
      is the property path the filter names. */
  datatype Field = ISBN | Author | Title | DatePublished | Language

  /** `new Filter(path, operator, value1[, value2])`: the operands in order. */
  datatype Filter = Filter(path: Field, op: Operator, values: seq<string>)

  /** The values of the six search inputs, as the input controls return them. */
  datatype SearchInputs = SearchInputs(
    isbn: string,
    title: string,
    author: string,
    language: string,
    dateStart: string,
    dateEnd: string)

  /** A date range is incomplete when either end is empty; the controller then
      shows the dateStartOrDateEndNotSetError warning. */
  predicate DateRangeIncomplete(inp: SearchInputs) {
    inp.dateStart == "" || inp.dateEnd == ""
  }

  /** The five filters the inputs can give rise to, in the order they are pushed. */
  function Candidates(inp: SearchInputs): seq<Filter> {
    [ Filter(ISBN, Contains, [inp.isbn]),
      Filter(Author, Contains, [inp.author]),
      Filter(Title, Contains, [inp.title]),
      Filter(DatePublished, BT, [inp.dateStart, inp.dateEnd]),
      Filter(Language, Contains, [inp.language]) ]
  }

  /** Position of a filtered property in the filter list. */
  function PathRank(path: Field): nat {
    match path
    case ISBN => 0
    case Author => 1
    case Title => 2
    case DatePublished => 3
    case Language => 4
  }

  /** Every filter comes strictly before any filter on a later property. */
  predicate StrictlyRanked(fs: seq<Filter>) {
    forall i, j :: 0 <= i < j < |fs| ==> PathRank(fs[i].path) < PathRank(fs[j].path)
  }

  /** What onSearchButtonPressed promises of the list it applies: only candidate
      filters, in candidate order, one Contains filter per non-empty text input,
      and the BT filter exactly when both ends of the date range are set. */
  predicate IsFilterList(inp: SearchInputs, fs: seq<Filter>) {
    && (forall f :: f in fs ==> f in Candidates(inp))
    && StrictlyRanked(fs)
    && (Filter(ISBN, Contains, [inp.isbn]) in fs <==> inp.isbn != "")
    && (Filter(Author, Contains, [inp.author]) in fs <==> inp.author != "")
    && (Filter(Title, Contains, [inp.title]) in fs <==> inp.title != "")
    && (Filter(DatePublished, BT, [inp.dateStart, inp.dateEnd]) in fs <==> !DateRangeIncomplete(inp))
    && (Filter(Language, Contains, [inp.language]) in fs <==> inp.language != "")
  }

  /** The first `k` candidates have been considered: `fs` is ranked, holds only
      those candidates, and holds each of them exactly when its input is set. */
  ghost predicate PushedUpTo(inp: SearchInputs, fs: seq<Filter>, k: nat)
    requires k <= 5
  {
    && StrictlyRanked(fs)
    && (forall f :: f in fs ==> f in Candidates(inp) && PathRank(f.path) < k)
    && (forall i :: 0 <= i < k ==> (Candidates(inp)[i] in fs <==> Enabled(inp, i)))
  }

  /** Whether the i-th candidate filter's inputs are set. */
  predicate Enabled(inp: SearchInputs, i: nat)
    requires i < 5
  {
    match i
    case 0 => inp.isbn != ""
    case 1 => inp.author != ""
    case 2 => inp.title != ""
    case 3 => !DateRangeIncomplete(inp)
    case _ => inp.language != ""
  }

  /** Builds the filter list of onSearchButtonPressed by conditional pushes and
      reports whether the date-range warning is shown. */
  method BuildFilters(inp: SearchInputs) returns (filters: seq<Filter>, warn: bool)
    ensures IsFilterList(inp, filters)
    ensures warn <==> DateRangeIncomplete(inp)
    ensures |filters| <= 5
  {
    filters := [];
    warn := false;
    if inp.isbn != "" {
      filters := filters + [Filter(ISBN, Contains, [inp.isbn])];
    }
    assert filters == Pushed(inp, 1);
    if inp.author != "" {
      filters := filters + [Filter(Author, Contains, [inp.author])];
    }
    assert filters == Pushed(inp, 2);
    if inp.title != "" {
      filters := filters + [Filter(Title, Contains, [inp.title])];
    }
    assert filters == Pushed(inp, 3);
    if inp.dateStart != "" && inp.dateEnd != "" {
      filters := filters + [Filter(DatePublished, BT, [inp.dateStart, inp.dateEnd])];
    } else {
      warn := true;
    }
    assert filters == Pushed(inp, 4);
    if inp.language != "" {
      filters := filters + [Filter(Language, Contains, [inp.language])];
    }
    assert filters == Pushed(inp, 5);
    PushedUpToHolds(inp, 5);
    PushedAllIsFilterList(inp, filters);
    FilterListAtMostFive(inp, filters);
  }

  /** The list after the pushes for the first `k` candidates. */
  ghost function Pushed(inp: SearchInputs, k: nat): seq<Filter>
    requires k <= 5
  {
    if k == 0 then []
    else Pushed(inp, k - 1) + (if Enabled(inp, k - 1) then [Candidates(inp)[k - 1]] else [])
  }

  /** The pushes for the first `k` candidates establish PushedUpTo. */
  lemma {:induction false} PushedUpToHolds(inp: SearchInputs, k: nat)
    requires k <= 5
    ensures PushedUpTo(inp, Pushed(inp, k), k)
  {
    if k > 0 {
      PushedUpToHolds(inp, k - 1);
      PushStep(inp, Pushed(inp, k - 1), Pushed(inp, k), k - 1);
    }
  }

  /** Considering candidate `k`: pushing it exactly when its inputs are set
      extends PushedUpTo from the first `k` candidates to the first `k + 1`. */
  lemma PushStep(inp: SearchInputs, fs: seq<Filter>, fs': seq<Filter>, k: nat)
    requires k < 5 && PushedUpTo(inp, fs, k)
    requires fs' == if Enabled(inp, k) then fs + [Candidates(inp)[k]] else fs
    ensures PushedUpTo(inp, fs', k + 1)
  {
  }

  /** Once all five candidates are considered, the list is the filter list. */
  lemma PushedAllIsFilterList(inp: SearchInputs, fs: seq<Filter>)
    requires PushedUpTo(inp, fs, 5)
    ensures IsFilterList(inp, fs)
  {
    var cs := Candidates(inp);
    assert cs[0] in fs <==> Enabled(inp, 0);
    assert cs[1] in fs <==> Enabled(inp, 1);
    assert cs[2] in fs <==> Enabled(inp, 2);
    assert cs[3] in fs <==> Enabled(inp, 3);
    assert cs[4] in fs <==> Enabled(inp, 4);
  }

  /** A filter list never holds more than the five candidates. */
  lemma FilterListAtMostFive(inp: SearchInputs, fs: seq<Filter>)
    requires IsFilterList(inp, fs)
    ensures |fs| <= 5
  {
    forall f | f in fs ensures PathRank(f.path) < 5 { }
    RankedBelowBound(fs, 5);
  }

  /** All-empty inputs give the empty filter list. */
  lemma FilterListOfEmptyInputs(inp: SearchInputs, fs: seq<Filter>)
    requires IsFilterList(inp, fs)
    requires inp.isbn == "" && inp.title == "" && inp.author == "" && inp.language == ""
    requires DateRangeIncomplete(inp)
    ensures fs == []
  {
    if fs != [] {
      HeadIsMember(fs);
      assert false;
    }
  }

  /** `s[0] in s` as a lemma call, for branches that end in `assert false`. */
  lemma HeadIsMember(s: seq<Filter>)
    requires s != []
    ensures s[0] in s
  {
  }

  /** In a strictly ranked list whose ranks stay below `bound`, the i-th filter
      has rank at least i, so the list has at most `bound` entries. */
  lemma {:induction false} RankedBelowBound(fs: seq<Filter>, bound: nat)
    requires StrictlyRanked(fs)
    requires forall f :: f in fs ==> PathRank(f.path) < bound
    ensures |fs| <= bound
  {
    if fs != [] {
      var last := fs[|fs| - 1];
      assert last in fs;
      RankedBelowBound(fs[..|fs| - 1], PathRank(last.path));
    }
  }

  /** The filter list is determined by the inputs: two lists that both meet
      IsFilterList for the same inputs are equal. */
  lemma FilterListUnique(inp: SearchInputs, a: seq<Filter>, b: seq<Filter>)
    requires IsFilterList(inp, a) && IsFilterList(inp, b)
    ensures a == b
  {
    forall f ensures f in a <==> f in b {
      if f in a {
        assert f in Candidates(inp);
      }
      if f in b {
        assert f in Candidates(inp);
      }
    }
    RankedSameMembersEqual(a, b);
  }

  /** Two strictly ranked lists with the same members are the same list. */
  lemma {:induction false} RankedSameMembersEqual(a: seq<Filter>, b: seq<Filter>)
    requires StrictlyRanked(a) && StrictlyRanked(b)
    requires forall f :: f in a <==> f in b
    ensures a == b
  {
    if a == [] {
      if b != [] {
        HeadIsMember(b);
        assert false;
      }
    } else {
      assert a[0] in a;
      HeadsAgree(a, b);
      TailsSameMembers(a, b);
      RankedSameMembersEqual(a[1..], b[1..]);
      assert a == [a[0]] + a[1..];
      assert b == [b[0]] + b[1..];
    }
  }

  /** Both lists start with their lowest-ranked member, which is the same filter. */
  lemma HeadsAgree(a: seq<Filter>, b: seq<Filter>)
    requires StrictlyRanked(a) && StrictlyRanked(b)
    requires forall f :: f in a <==> f in b
    requires a != [] && b != []
    ensures a[0] == b[0]
  {
    assert a[0] in a;
    assert b[0] in b;
    var k :| 0 <= k < |b| && b[k] == a[0];
    var m :| 0 <= m < |a| && a[m] == b[0];
    assert k == 0;
  }

  /** With equal heads, the tails have the same members. */
  lemma TailsSameMembers(a: seq<Filter>, b: seq<Filter>)
    requires StrictlyRanked(a) && StrictlyRanked(b)
    requires forall f :: f in a <==> f in b
    requires a != [] && b != [] && a[0] == b[0]
    ensures StrictlyRanked(a[1..]) && StrictlyRanked(b[1..])
    ensures forall f :: f in a[1..] <==> f in b[1..]
  {
    forall f ensures f in a[1..] ==> f in b[1..] {
      if f in a[1..] {
        var i :| 0 <= i < |a[1..]| && a[1..][i] == f;
        assert a[i + 1] == f;
        assert PathRank(a[0].path) < PathRank(f.path);
        assert f in b;
        var k :| 0 <= k < |b| && b[k] == f;
        assert k != 0;
        assert b[1..][k - 1] == f;
      }
    }
    forall f ensures f in b[1..] ==> f in a[1..] {
      if f in b[1..] {
        var i :| 0 <= i < |b[1..]| && b[1..][i] == f;
        assert b[i + 1] == f;
        assert PathRank(b[0].path) < PathRank(f.path);
        assert f in a;
        var k :| 0 <= k < |a| && a[k] == f;
        assert k != 0;
        assert a[1..][k - 1] == f;
      }
    }
  }
}
