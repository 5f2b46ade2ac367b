/** The command-line report: which of the six tables the flags select, in
    which order they come out, and what each printed row holds. */
module Report {
  import opened PeeringDbDiff

  /** The parsed command-line switches (`--common`, `--ix`, `--facility`,
      `--first`, `--second`). */
  datatype Flags = Flags(common: bool, ix: bool, facility: bool, first: bool, second: bool)

  datatype Kind = Exchanges | Facilities

  datatype View = Common | FirstUnique | SecondUnique

  /** One printed table: a kind of membership seen through one accessor. */
  datatype Section = Section(kind: Kind, view: View)

  /** Facility names are cut to this many characters. */
  const NAME_WIDTH: nat := 60

  /** The kind was asked for, or no kind was asked for at all. */
  predicate KindRequested(f: Flags, k: Kind)
  {
    || (k == Exchanges && f.ix)
    || (k == Facilities && f.facility)
    || (!f.ix && !f.facility)
  }

  /** The side was asked for, or no side was asked for at all. */
  predicate SideRequested(f: Flags, v: View)
  {
    || (v == FirstUnique && f.first)
    || (v == SecondUnique && f.second)
    || (!f.first && !f.second)
  }

  /** Which tables the flags call for: common tables in common mode, each
      kind asked for, and in unique mode each side asked for. */
  predicate Selected(f: Flags, s: Section)
  {
    if f.common then s.view == Common && KindRequested(f, s.kind)
    else s.view != Common && KindRequested(f, s.kind) && SideRequested(f, s.view)
  }

  /** Printing order: exchanges before facilities, then first before second. */
  function Rank(s: Section): nat
  {
    (match s.kind case Exchanges => 0 case Facilities => 3)
      + (match s.view case Common => 0 case FirstUnique => 1 case SecondUnique => 2)
  }

  predicate InPrintOrder(r: seq<Section>)
  {
    forall i, j :: 0 <= i < j < |r| ==> Rank(r[i]) < Rank(r[j])
  }

  /** The tables printed for the given flags, as the script's nested
      conditionals pick them: exchange tables, then facility tables. */
  function Sections(f: Flags): (r: seq<Section>)
    ensures forall s :: s in r <==> Selected(f, s)
    ensures InPrintOrder(r)
  {
    var showIx := f.ix || (!f.ix && !f.facility);
    var showFac := f.facility || (!f.ix && !f.facility);
    var ixTables := if !showIx then [] else if f.common then [Section(Exchanges, Common)] else SideTables(f, Exchanges);
    var facTables := if !showFac then [] else if f.common then [Section(Facilities, Common)] else SideTables(f, Facilities);
    KindsInOrder(ixTables, facTables);
    ixTables + facTables
  }

  /** Exchange tables followed by facility tables stay in printing order. */
  lemma KindsInOrder(a: seq<Section>, b: seq<Section>)
    requires InPrintOrder(a) && InPrintOrder(b)
    requires forall s :: s in a ==> s.kind == Exchanges
    requires forall s :: s in b ==> s.kind == Facilities
    ensures InPrintOrder(a + b)
  {
    forall i, j | 0 <= i < j < |a + b|
      ensures Rank((a + b)[i]) < Rank((a + b)[j])
    {
      if j < |a| {
        assert (a + b)[i] == a[i] && (a + b)[j] == a[j];
      } else if i >= |a| {
        assert (a + b)[i] == b[i - |a|] && (a + b)[j] == b[j - |a|];
      } else {
        assert (a + b)[i] == a[i] && (a + b)[j] == b[j - |a|];
        assert a[i] in a && b[j - |a|] in b;
      }
    }
  }

  /** In unique mode, the tables of one kind: the first network's, then
      the second's, each when its side is shown. */
  function SideTables(f: Flags, k: Kind): (r: seq<Section>)
    ensures forall s :: s in r <==> s.kind == k && s.view != Common && SideRequested(f, s.view)
    ensures InPrintOrder(r)
  {
    var showFirst := f.first || (!f.first && !f.second);
    var showSecond := f.second || (!f.first && !f.second);
    (if showFirst then [Section(k, FirstUnique)] else [])
      + (if showSecond then [Section(k, SecondUnique)] else [])
  }

  /** Two sections of equal rank are the same section. */
  lemma RankInjective(s: Section, t: Section)
    requires Rank(s) == Rank(t)
    ensures s == t
  {
  }

  /** The selection and the printing order leave no freedom: any list of
      tables that holds exactly the selected ones, in printing order, is
      the list the script prints. */
  lemma {:induction false} SectionsDetermined(f: Flags, r: seq<Section>)
    requires forall s :: s in r <==> Selected(f, s)
    requires InPrintOrder(r)
    ensures r == Sections(f)
  {
    OrderedSameElements(r, Sections(f));
  }

  lemma {:induction false} OrderedSameElements(r: seq<Section>, t: seq<Section>)
    requires InPrintOrder(r) && InPrintOrder(t)
    requires forall s :: s in r <==> s in t
    ensures r == t
    decreases |r|
  {
    SameElementsSameEmptiness(r, t);
    if r != [] {
      if Rank(r[0]) < Rank(t[0]) {
        HeadHasLeastRank(t, r[0]);
        assert false;
      } else if Rank(t[0]) < Rank(r[0]) {
        HeadHasLeastRank(r, t[0]);
        assert false;
      }
      RankInjective(r[0], t[0]);
      forall s | s in r[1..]
        ensures s in t[1..]
      {
        var i :| 1 <= i < |r| && r[i] == s;
        assert Rank(r[0]) < Rank(r[i]);
        assert s in t;
        var j :| 0 <= j < |t| && t[j] == s;
        assert j != 0 && t[1..][j - 1] == s;
      }
      forall s | s in t[1..]
        ensures s in r[1..]
      {
        var i :| 1 <= i < |t| && t[i] == s;
        assert Rank(t[0]) < Rank(t[i]);
        assert s in r;
        var j :| 0 <= j < |r| && r[j] == s;
        assert j != 0 && r[1..][j - 1] == s;
      }
      OrderedSameElements(r[1..], t[1..]);
      assert r == [r[0]] + r[1..] && t == [t[0]] + t[1..];
    }
  }

  lemma HeadHasLeastRank(r: seq<Section>, s: Section)
    requires InPrintOrder(r) && s in r
    ensures Rank(r[0]) <= Rank(s)
  {
    var j :| 0 <= j < |r| && r[j] == s;
    assert j == 0 || Rank(r[0]) < Rank(r[j]);
  }

  lemma SameElementsSameEmptiness(r: seq<Section>, t: seq<Section>)
    requires forall s :: s in r <==> s in t
    ensures r == [] <==> t == []
  {
    if r != [] {
      assert r[0] in t;
    }
    if t != [] {
      assert t[0] in r;
    }
  }

  /** In common mode `--first` and `--second` change nothing. */
  lemma CommonModeIgnoresSides(f: Flags, first: bool, second: bool)
    requires f.common
    ensures Sections(f.(first := first, second := second)) == Sections(f)
  {
  }

  /** Without `--ix` and `--facility` both kinds are printed, in either mode. */
  lemma NoKindFlagShowsBothKinds(f: Flags)
    requires !f.ix && !f.facility
    ensures exists s :: s in Sections(f) && s.kind == Exchanges
    ensures exists s :: s in Sections(f) && s.kind == Facilities
  {
    var v := if f.common then Common else if f.first || !f.second then FirstUnique else SecondUnique;
    assert Selected(f, Section(Exchanges, v)) && Selected(f, Section(Facilities, v));
  }

  /** In unique mode, without `--first` and `--second` both networks'
      tables are printed for every kind that is printed. */
  lemma NoSideFlagShowsBothSides(f: Flags, k: Kind)
    requires !f.common && !f.first && !f.second
    requires Section(k, FirstUnique) in Sections(f) || Section(k, SecondUnique) in Sections(f)
    ensures Section(k, FirstUnique) in Sections(f) && Section(k, SecondUnique) in Sections(f)
  {
  }

  /** `--common --ix` prints the common exchanges table and nothing else. */
  lemma CommonExchangesOnly(first: bool, second: bool)
    ensures Sections(Flags(true, true, false, first, second)) == [Section(Exchanges, Common)]
  {
  }

  /** Python's `name[0:60]`: the whole name when it is short enough, else
      its first sixty characters. */
  function Truncate(name: string): (r: string)
    ensures |r| == if |name| < NAME_WIDTH then |name| else NAME_WIDTH
    ensures r <= name
  {
    if |name| <= NAME_WIDTH then name else name[..NAME_WIDTH]
  }

  /** A printed line: an exchange's name, or a facility's name, city and
      country. */
  datatype Row = ExchangeRow(name: string) | FacilityRow(name: string, city: string, country: string)

  /** The entries behind each table. */
  function FacilitiesOf(d: Diff, v: View): seq<Facility>
  {
    match v
    case Common => CommonFacilities(d)
    case FirstUnique => FirstUniqueFacilities(d)
    case SecondUnique => SecondUniqueFacilities(d)
  }

  function ExchangesOf(d: Diff, v: View): seq<ExchangeLan>
  {
    match v
    case Common => CommonIxes(d)
    case FirstUnique => FirstUniqueIxes(d)
    case SecondUnique => SecondUniqueIxes(d)
  }

  /** The rows of one table, one per entry of its accessor, in order. */
  function Rows(d: Diff, s: Section): seq<Row>
  {
    match s.kind
    case Exchanges =>
      var xs := ExchangesOf(d, s.view);
      seq(|xs|, i requires 0 <= i < |xs| => ExchangeRow(xs[i].name))
    case Facilities =>
      var fs := FacilitiesOf(d, s.view);
      seq(|fs|, i requires 0 <= i < |fs| => FacilityRow(Truncate(fs[i].name), fs[i].city, fs[i].country))
  }

  datatype Table = Table(section: Section, rows: seq<Row>)

  /** The whole report: the selected tables in printing order, each with
      one row per entry of its accessor; facility names are printed as
      their first sixty characters. */
  function Render(d: Diff, f: Flags): (ts: seq<Table>)
    ensures |ts| == |Sections(f)|
    ensures forall i :: 0 <= i < |ts| ==> ts[i].section == Sections(f)[i] && Selected(f, ts[i].section)
    ensures forall i :: 0 <= i < |ts| ==>
      |ts[i].rows| == if ts[i].section.kind == Exchanges then |ExchangesOf(d, ts[i].section.view)| else |FacilitiesOf(d, ts[i].section.view)|
    ensures forall i, j :: 0 <= i < |ts| && ts[i].section.kind == Exchanges && 0 <= j < |ts[i].rows| ==>
      var xs := ExchangesOf(d, ts[i].section.view);
      j < |xs| && ts[i].rows[j] == ExchangeRow(xs[j].name)
    ensures forall i, j :: 0 <= i < |ts| && ts[i].section.kind == Facilities && 0 <= j < |ts[i].rows| ==>
      var fs := FacilitiesOf(d, ts[i].section.view);
      j < |fs| && ts[i].rows[j] == FacilityRow(Truncate(fs[j].name), fs[j].city, fs[j].country)
  {
    var ss := Sections(f);
    seq(|ss|, i requires 0 <= i < |ss| => Table(ss[i], Rows(d, ss[i])))
  }
}
