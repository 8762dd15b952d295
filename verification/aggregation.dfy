/** The two summary tables of `reconcile` ("CSD ISINs Evaluated" ... and
    "Calypso ISINs Evaluated" ...).

    Both tables have the same ten insights; they differ in which list they
    count and in the sign of "Difference Total - All". The sums over the
    unmatched list read columns of a DataFrame built from that list; when
    the list is empty the DataFrame has no columns and the first column
    access raises `KeyError`, so a summary can fail.
 */
module Aggregation {
  import opened Wrappers
  import opened Numbers
  import opened Extraction
  import opened Matching

  datatype Direction = CsdToCalypso | CalypsoToCsd

  /** The values of the ten insights, in table order; the display formatting
      of the amounts is not modelled. */
  datatype Summary = Summary(
    evaluated: nat,
    matched: nat,
    unmatched: nat,
    successRate: real,
    csdUnmatched: real,
    calypsoUnmatched: real,
    differenceUnmatched: real,
    csdAll: real,
    calypsoAll: real,
    differenceAll: real)

  /** The message of the `KeyError` raised by reading a column of an empty DataFrame. */
  const MissingColumn: string := "'Total Face Value CSD'"

  /** pandas' `Series.sum()`: absent values are skipped. */
  function SumPresent(xs: seq<Option<real>>): (r: real)
    ensures xs != [] ==> r == SumPresent(xs[..|xs| - 1]) + xs[|xs| - 1].GetOr(0.0)
  {
    if xs == [] then 0.0
    else
      var r := xs[0].GetOr(0.0) + SumPresent(xs[1..]);
      if |xs| > 1 then
        assert xs[1..][..|xs| - 2] == xs[..|xs| - 1][1..];
        r
      else r
  }

  function CsdColumn(es: seq<Entry>): seq<Option<real>> {
    seq(|es|, i requires 0 <= i < |es| => es[i].csd)
  }

  function CalypsoColumn(es: seq<Entry>): seq<Option<real>> {
    seq(|es|, i requires 0 <= i < |es| => es[i].calypso)
  }

  function DifferenceColumn(es: seq<Entry>): seq<Option<real>> {
    seq(|es|, i requires 0 <= i < |es| => es[i].difference)
  }

  /** `total_csv_all`: the face values of all retained records (0 when there are none). */
  function TotalCsd(recs: seq<Retained>): (r: real)
    ensures recs != [] ==> r == TotalCsd(recs[..|recs| - 1]) + recs[|recs| - 1].value
  {
    if recs == [] then 0.0
    else
      var r := recs[0].value + TotalCsd(recs[1..]);
      if |recs| > 1 then
        assert recs[1..][..|recs| - 2] == recs[..|recs| - 1][1..];
        r
      else r
  }

  /** `total_calypso_all`: the positions of all Calypso rows, absent ones skipped. */
  function TotalCalypso(cal: seq<CalypsoRecord>): (r: real)
    ensures cal != [] ==> r == TotalCalypso(cal[..|cal| - 1]) + cal[|cal| - 1].position.GetOr(0.0)
  {
    var ps := seq(|cal|, i requires 0 <= i < |cal| => cal[i].position);
    if cal != [] then
      var init := cal[..|cal| - 1];
      assert ps[..|ps| - 1] == seq(|init|, i requires 0 <= i < |init| => init[i].position);
      SumPresent(ps)
    else SumPresent(ps)
  }

  /** "Matching Success Rate (%)": matched over evaluated, times 100, to two
      places; 0 when nothing was evaluated. */
  function SuccessRate(matched: nat, unmatched: nat): (r: real)
    ensures 0.0 <= r <= 100.0
    ensures IsCents(r)
    ensures matched + unmatched > 0 ==>
              var x := matched as real * 100.0 / (matched + unmatched) as real;
              x - 0.005 <= r <= x + 0.005
    ensures matched == 0 ==> r == 0.0
    ensures matched > 0 && unmatched == 0 ==> r == 100.0
  {
    if matched + unmatched > 0 then
      var x := matched as real * 100.0 / (matched + unmatched) as real;
      assert 0.0 <= x <= 100.0 by { RatioPercent(matched, unmatched); }
      Round2Percent(x);
      if matched == 0 then Round2Fixes(0.0); Round2(x)
      else if unmatched == 0 then
        assert x == 100.0 by { WholeShare(matched, unmatched); }
        Round2Fixes(100.0);
        Round2(x)
      else Round2(x)
    else
      Round2Fixes(0.0);
      0.0
  }

  /** The whole, in percent, is 100. */
  lemma WholeShare(matched: nat, unmatched: nat)
    requires matched > 0 && unmatched == 0
    ensures matched as real * 100.0 / (matched + unmatched) as real == 100.0
  {
    var t := (matched + unmatched) as real;
    assert t == matched as real;
    assert matched as real * 100.0 == 100.0 * t;
  }

  /** A share of a positive whole, in percent, lies in [0, 100]. */
  lemma RatioPercent(matched: nat, unmatched: nat)
    requires matched + unmatched > 0
    ensures 0.0 <= matched as real * 100.0 / (matched + unmatched) as real <= 100.0
  {
    var t := (matched + unmatched) as real;
    assert matched as real * 100.0 <= t * 100.0;
  }

  /** One summary table, from the size of the matched list, the unmatched
      list and the two all-record totals. */
  function Summarize(d: Direction, matched: nat, unmatched: seq<Entry>, csdAll: real, calypsoAll: real)
    : (r: Result<Summary, string>)
    ensures r.Failure? <==> unmatched == []
    ensures r.Failure? ==> r.error == MissingColumn
    ensures r.Success? ==>
              && r.value.evaluated == r.value.matched + r.value.unmatched
              && r.value.matched == matched && r.value.unmatched == |unmatched|
              && r.value.successRate == SuccessRate(matched, |unmatched|)
              && r.value.csdUnmatched == SumPresent(CsdColumn(unmatched))
              && r.value.calypsoUnmatched == SumPresent(CalypsoColumn(unmatched))
              && r.value.differenceUnmatched == SumPresent(DifferenceColumn(unmatched))
              && r.value.csdAll == csdAll && r.value.calypsoAll == calypsoAll
              && (d == CsdToCalypso ==> r.value.differenceAll == r.value.csdAll - r.value.calypsoAll)
              && (d == CalypsoToCsd ==> r.value.differenceAll == r.value.calypsoAll - r.value.csdAll)
  {
    if unmatched == [] then Failure(MissingColumn)
    else
      Success(Summary(
        matched + |unmatched|,
        matched,
        |unmatched|,
        SuccessRate(matched, |unmatched|),
        SumPresent(CsdColumn(unmatched)),
        SumPresent(CalypsoColumn(unmatched)),
        SumPresent(DifferenceColumn(unmatched)),
        csdAll,
        calypsoAll,
        Oriented(d, csdAll, calypsoAll)))
  }

  // ----- lemmas -----

  /** Worked cases of the success rate: 3 of 5 is 60%, nothing evaluated is 0%. */
  lemma SuccessRateExamples()
    ensures SuccessRate(3, 2) == 60.0
    ensures SuccessRate(0, 0) == 0.0
  {
    assert 3 as real / 5 as real * 100.0 == 60.0;
    Round2Fixes(60.0);
  }

  /** The two tables report the same totals, and opposite overall differences. */
  lemma SummariesMirror(mf: nat, uf: seq<Entry>, mr: nat, ur: seq<Entry>, csdAll: real, calypsoAll: real)
    requires uf != [] && ur != []
    ensures var f := Summarize(CsdToCalypso, mf, uf, csdAll, calypsoAll).value;
            var r := Summarize(CalypsoToCsd, mr, ur, csdAll, calypsoAll).value;
            && f.csdAll == r.csdAll == csdAll && f.calypsoAll == r.calypsoAll == calypsoAll
            && f.differenceAll == f.csdAll - f.calypsoAll
            && r.differenceAll == r.calypsoAll - r.csdAll
            && f.differenceAll == -r.differenceAll
  {
  }

  /** With the same number evaluated, more matches never give a lower rate. */
  lemma SuccessRateMonotone(m1: nat, u1: nat, m2: nat, u2: nat)
    requires m1 <= m2 && m1 + u1 == m2 + u2
    ensures SuccessRate(m1, u1) <= SuccessRate(m2, u2)
  {
    if m1 + u1 > 0 {
      var t := (m1 + u1) as real;
      assert m1 as real * 100.0 / t <= m2 as real * 100.0 / t by {
        assert m1 as real * 100.0 <= m2 as real * 100.0;
      }
      Round2Monotone(m1 as real * 100.0 / t, m2 as real * 100.0 / t);
    }
  }

  /** A difference in a direction's order: CSD minus Calypso forward,
      Calypso minus CSD in reverse. */
  function Oriented(d: Direction, csd: real, calypso: real): real {
    match d
    case CsdToCalypso => csd - calypso
    case CalypsoToCsd => calypso - csd
  }

  /** An unmatched entry whose rounded difference is its own amounts'
      difference, in the direction's order, absent amounts counting as 0. */
  ghost predicate Consistent(d: Direction, e: Entry) {
    var exact := Oriented(d, e.csd.GetOr(0.0), e.calypso.GetOr(0.0));
    exact - 0.005 <= e.difference.GetOr(0.0) <= exact + 0.005
  }

  /** "Difference Total - Unmatched Only" stays within half a cent per entry
      of the difference of the two unmatched-only column totals. */
  lemma {:induction false} DifferenceUnmatchedBound(d: Direction, es: seq<Entry>)
    requires forall e :: e in es ==> Consistent(d, e)
    ensures var exact := Oriented(d, SumPresent(CsdColumn(es)), SumPresent(CalypsoColumn(es)));
            var slack := |es| as real * 0.005;
            exact - slack <= SumPresent(DifferenceColumn(es)) <= exact + slack
    decreases |es|
  {
    if es != [] {
      var e, t := es[0], es[1..];
      forall x | x in t
        ensures Consistent(d, x)
      {
        var i :| 0 <= i < |t| && t[i] == x;
        assert es[i + 1] == x;
      }
      DifferenceUnmatchedBound(d, t);
      ColumnsCons(es);
      assert Consistent(d, e) by {
        assert e in es;
      }
      BoundStep(d, e.csd.GetOr(0.0), e.calypso.GetOr(0.0), e.difference.GetOr(0.0),
                SumPresent(CsdColumn(t)), SumPresent(CalypsoColumn(t)), SumPresent(DifferenceColumn(t)), |t|);
    }
  }

  /** Each column total is the first entry's amount (0 when absent) plus the rest's total. */
  lemma ColumnsCons(es: seq<Entry>)
    requires es != []
    ensures SumPresent(CsdColumn(es)) == es[0].csd.GetOr(0.0) + SumPresent(CsdColumn(es[1..]))
    ensures SumPresent(CalypsoColumn(es)) == es[0].calypso.GetOr(0.0) + SumPresent(CalypsoColumn(es[1..]))
    ensures SumPresent(DifferenceColumn(es)) == es[0].difference.GetOr(0.0) + SumPresent(DifferenceColumn(es[1..]))
  {
    assert CsdColumn(es)[1..] == CsdColumn(es[1..]);
    assert CalypsoColumn(es)[1..] == CalypsoColumn(es[1..]);
    assert DifferenceColumn(es)[1..] == DifferenceColumn(es[1..]);
  }

  /** One more entry, within half a cent, widens the bound by half a cent. */
  lemma BoundStep(d: Direction, c: real, k: real, x: real, cs: real, ks: real, xs: real, n: nat)
    requires Oriented(d, c, k) - 0.005 <= x <= Oriented(d, c, k) + 0.005
    requires Oriented(d, cs, ks) - n as real * 0.005 <= xs <= Oriented(d, cs, ks) + n as real * 0.005
    ensures Oriented(d, c + cs, k + ks) - (n + 1) as real * 0.005
         <= x + xs
         <= Oriented(d, c + cs, k + ks) + (n + 1) as real * 0.005
  {
  }

  /** Every forward-unmatched entry is consistent. */
  lemma ForwardEntriesConsistent(recs: seq<Retained>, cal: seq<CalypsoRecord>)
    ensures forall e :: e in ForwardPass(recs, cal).1 ==> Consistent(CsdToCalypso, e)
  {
    forall e | e in ForwardPass(recs, cal).1
      ensures Consistent(CsdToCalypso, e)
    {
      ForwardUnmatchedSound(recs, cal, e);
    }
  }

  /** Every reverse-unmatched entry is consistent. */
  lemma ReverseEntriesConsistent(cal: seq<CalypsoRecord>, recs: seq<Retained>)
    ensures forall e :: e in ReversePass(cal, recs).1 ==> Consistent(CalypsoToCsd, e)
  {
    forall e | e in ReversePass(cal, recs).1
      ensures Consistent(CalypsoToCsd, e)
    {
      ReverseUnmatchedSound(cal, recs, e);
      if e.reason == NotInCsd && e.calypso.Some? {
        assert e.difference == Some(Round2(e.calypso.value));
      }
    }
  }
  // ----- the all-record totals split into matched and unmatched -----

  /** The CSD amounts of a matched list. */
  function PairCsd(ps: seq<Pair>): real {
    if ps == [] then 0.0 else ps[0].csd + PairCsd(ps[1..])
  }

  /** The Calypso positions of a matched list. */
  function PairCalypso(ps: seq<Pair>): real {
    if ps == [] then 0.0 else ps[0].calypso + PairCalypso(ps[1..])
  }

  /** The CSD amount a verdict carries, an absent one counting as 0. */
  function OutcomeCsd(o: Outcome): real {
    match o
    case Matched(p) => p.csd
    case Unmatched(e) => e.csd.GetOr(0.0)
  }

  /** The Calypso position a verdict carries, an absent one counting as 0. */
  function OutcomeCalypso(o: Outcome): real {
    match o
    case Matched(p) => p.calypso
    case Unmatched(e) => e.calypso.GetOr(0.0)
  }

  function SumCsd(os: seq<Outcome>): real {
    if os == [] then 0.0 else OutcomeCsd(os[0]) + SumCsd(os[1..])
  }

  function SumCalypso(os: seq<Outcome>): real {
    if os == [] then 0.0 else OutcomeCalypso(os[0]) + SumCalypso(os[1..])
  }

  /** Splitting verdicts neither loses nor adds an amount. */
  lemma {:induction false} SplitTotals(os: seq<Outcome>)
    ensures PairCsd(Split(os).0) + SumPresent(CsdColumn(Split(os).1)) == SumCsd(os)
    ensures PairCalypso(Split(os).0) + SumPresent(CalypsoColumn(Split(os).1)) == SumCalypso(os)
    decreases |os|
  {
    if os != [] {
      SplitTotals(os[1..]);
      var rest := Split(os[1..]);
      match os[0]
      case Matched(p) =>
        assert Split(os) == ([p] + rest.0, rest.1);
        assert ([p] + rest.0)[1..] == rest.0;
      case Unmatched(e) =>
        assert Split(os) == (rest.0, [e] + rest.1);
        assert ([e] + rest.1)[1..] == rest.1;
        ColumnsCons([e] + rest.1);
    }
  }

  /** Every forward verdict carries its record's face value. */
  lemma ForwardOneCsd(rec: Retained, cal: seq<CalypsoRecord>)
    ensures OutcomeCsd(ForwardOne(rec, cal)) == rec.value
  {
  }

  lemma {:induction false} ForwardCsdSum(recs: seq<Retained>, cal: seq<CalypsoRecord>)
    ensures SumCsd(seq(|recs|, i requires 0 <= i < |recs| => ForwardOne(recs[i], cal))) == TotalCsd(recs)
    decreases |recs|
  {
    if recs != [] {
      var os := seq(|recs|, i requires 0 <= i < |recs| => ForwardOne(recs[i], cal));
      var t := recs[1..];
      assert os[1..] == seq(|t|, i requires 0 <= i < |t| => ForwardOne(t[i], cal));
      ForwardCsdSum(t, cal);
      ForwardOneCsd(recs[0], cal);
    }
  }

  /** Forward, the face values of all retained records are the matched ones
      plus "Total Face Value CSD - Unmatched Only". */
  lemma ForwardCsdTotal(recs: seq<Retained>, cal: seq<CalypsoRecord>)
    ensures TotalCsd(recs)
      == PairCsd(ForwardPass(recs, cal).0) + SumPresent(CsdColumn(ForwardPass(recs, cal).1))
  {
    var os := seq(|recs|, i requires 0 <= i < |recs| => ForwardOne(recs[i], cal));
    SplitTotals(os);
    ForwardCsdSum(recs, cal);
  }

  /** Every reverse verdict carries its row's position (0 when absent). */
  lemma ReverseOneCalypso(c: CalypsoRecord, recs: seq<Retained>)
    ensures OutcomeCalypso(ReverseOne(c, recs)) == c.position.GetOr(0.0)
  {
    var k := FirstRetained(recs, c.isin);
    if k < |recs| && c.position.Some? {
      ReverseFound(c, recs, k);
    } else {
      ReverseNotFound(c, recs);
    }
  }

  lemma {:induction false} ReverseCalypsoSum(cal: seq<CalypsoRecord>, recs: seq<Retained>)
    ensures SumCalypso(seq(|cal|, i requires 0 <= i < |cal| => ReverseOne(cal[i], recs))) == TotalCalypso(cal)
    decreases |cal|
  {
    if cal != [] {
      var os := seq(|cal|, i requires 0 <= i < |cal| => ReverseOne(cal[i], recs));
      var ps := seq(|cal|, i requires 0 <= i < |cal| => cal[i].position);
      var t := cal[1..];
      assert os[1..] == seq(|t|, i requires 0 <= i < |t| => ReverseOne(t[i], recs));
      assert ps[1..] == seq(|t|, i requires 0 <= i < |t| => t[i].position);
      ReverseCalypsoSum(t, recs);
      ReverseOneCalypso(cal[0], recs);
    }
  }

  /** Reverse, the positions of all Calypso rows are the matched ones plus
      "Calypso Position - Unmatched Only". */
  lemma ReverseCalypsoTotal(cal: seq<CalypsoRecord>, recs: seq<Retained>)
    ensures TotalCalypso(cal)
      == PairCalypso(ReversePass(cal, recs).0) + SumPresent(CalypsoColumn(ReversePass(cal, recs).1))
  {
    var os := seq(|cal|, i requires 0 <= i < |cal| => ReverseOne(cal[i], recs));
    SplitTotals(os);
    ReverseCalypsoSum(cal, recs);
  }

  // ----- the two columns each pass fills from the other side -----

  /** The position of the first Calypso row with the ISIN, 0 when that
      position is absent or no row has the ISIN. */
  function FirstPosition(cal: seq<CalypsoRecord>, isin: string): real {
    if cal == [] then 0.0
    else if cal[0].isin == isin then cal[0].position.GetOr(0.0)
    else FirstPosition(cal[1..], isin)
  }

  /** The first Calypso positions of the retained records' ISINs, summed. */
  function FoundPositions(recs: seq<Retained>, cal: seq<CalypsoRecord>): real {
    if recs == [] then 0.0 else FirstPosition(cal, recs[0].isin) + FoundPositions(recs[1..], cal)
  }

  /** The face value of the first retained record with the ISIN, 0 when no
      record has it. */
  function FirstValue(recs: seq<Retained>, isin: string): real {
    if recs == [] then 0.0
    else if recs[0].isin == isin then recs[0].value
    else FirstValue(recs[1..], isin)
  }

  /** Over the Calypso rows with a present position, the face value of the
      first retained record with the row's ISIN, summed. */
  function FoundValues(cal: seq<CalypsoRecord>, recs: seq<Retained>): real {
    if cal == [] then 0.0
    else (if cal[0].position.Some? then FirstValue(recs, cal[0].isin) else 0.0)
         + FoundValues(cal[1..], recs)
  }

  lemma {:induction false} FirstPositionAt(cal: seq<CalypsoRecord>, isin: string, k: int)
    requires IsFirstCalypso(cal, isin, k)
    ensures FirstPosition(cal, isin) == cal[k].position.GetOr(0.0)
    decreases |cal|
  {
    if k > 0 {
      assert IsFirstCalypso(cal[1..], isin, k - 1) by {
        forall j | 0 <= j < k - 1
          ensures cal[1..][j].isin != isin
        {
          assert cal[1..][j] == cal[j + 1];
        }
      }
      FirstPositionAt(cal[1..], isin, k - 1);
    }
  }

  lemma {:induction false} FirstPositionNone(cal: seq<CalypsoRecord>, isin: string)
    requires forall j :: 0 <= j < |cal| ==> cal[j].isin != isin
    ensures FirstPosition(cal, isin) == 0.0
    decreases |cal|
  {
    if cal != [] {
      assert forall j :: 0 <= j < |cal[1..]| ==> cal[1..][j] == cal[j + 1];
      FirstPositionNone(cal[1..], isin);
    }
  }

  lemma {:induction false} FirstValueAt(recs: seq<Retained>, isin: string, k: int)
    requires IsFirstRetained(recs, isin, k)
    ensures FirstValue(recs, isin) == recs[k].value
    decreases |recs|
  {
    if k > 0 {
      assert IsFirstRetained(recs[1..], isin, k - 1) by {
        forall j | 0 <= j < k - 1
          ensures recs[1..][j].isin != isin
        {
          assert recs[1..][j] == recs[j + 1];
        }
      }
      FirstValueAt(recs[1..], isin, k - 1);
    }
  }

  lemma {:induction false} FirstValueNone(recs: seq<Retained>, isin: string)
    requires forall j :: 0 <= j < |recs| ==> recs[j].isin != isin
    ensures FirstValue(recs, isin) == 0.0
    decreases |recs|
  {
    if recs != [] {
      assert forall j :: 0 <= j < |recs[1..]| ==> recs[1..][j] == recs[j + 1];
      FirstValueNone(recs[1..], isin);
    }
  }

  /** Every forward verdict carries the position of the first Calypso row
      with the record's ISIN (0 when absent or not found). */
  lemma ForwardOneCalypso(rec: Retained, cal: seq<CalypsoRecord>)
    ensures OutcomeCalypso(ForwardOne(rec, cal)) == FirstPosition(cal, rec.isin)
  {
    match FindCalypso(cal, rec.isin)
    case Some(k) =>
      ForwardFound(rec, cal, k);
      FirstPositionAt(cal, rec.isin, k);
    case None =>
      ForwardNotFound(rec, cal);
      FirstPositionNone(cal, rec.isin);
  }

  lemma {:induction false} ForwardCalypsoSum(recs: seq<Retained>, cal: seq<CalypsoRecord>)
    ensures SumCalypso(seq(|recs|, i requires 0 <= i < |recs| => ForwardOne(recs[i], cal)))
      == FoundPositions(recs, cal)
    decreases |recs|
  {
    if recs != [] {
      var os := seq(|recs|, i requires 0 <= i < |recs| => ForwardOne(recs[i], cal));
      var t := recs[1..];
      assert os[1..] == seq(|t|, i requires 0 <= i < |t| => ForwardOne(t[i], cal));
      ForwardCalypsoSum(t, cal);
      ForwardOneCalypso(recs[0], cal);
    }
  }

  /** Forward, "Calypso Position - Unmatched Only" is what the unmatched
      records find in Calypso: with the matched positions it makes up the
      first Calypso positions of all retained records' ISINs. */
  lemma ForwardCalypsoTotal(recs: seq<Retained>, cal: seq<CalypsoRecord>)
    ensures FoundPositions(recs, cal)
      == PairCalypso(ForwardPass(recs, cal).0) + SumPresent(CalypsoColumn(ForwardPass(recs, cal).1))
  {
    var os := seq(|recs|, i requires 0 <= i < |recs| => ForwardOne(recs[i], cal));
    SplitTotals(os);
    ForwardCalypsoSum(recs, cal);
  }

  /** Every reverse verdict carries the face value of the first retained
      record with the row's ISIN when the row's position is present, and
      no face value (0) when it is absent. */
  lemma ReverseOneCsd(c: CalypsoRecord, recs: seq<Retained>)
    ensures OutcomeCsd(ReverseOne(c, recs))
      == if c.position.Some? then FirstValue(recs, c.isin) else 0.0
  {
    var k := FirstRetained(recs, c.isin);
    if k < |recs| && c.position.Some? {
      ReverseFound(c, recs, k);
      FirstValueAt(recs, c.isin, k);
    } else {
      ReverseNotFound(c, recs);
      if c.position.Some? {
        FirstValueNone(recs, c.isin);
      }
    }
  }

  lemma {:induction false} ReverseCsdSum(cal: seq<CalypsoRecord>, recs: seq<Retained>)
    ensures SumCsd(seq(|cal|, i requires 0 <= i < |cal| => ReverseOne(cal[i], recs)))
      == FoundValues(cal, recs)
    decreases |cal|
  {
    if cal != [] {
      var os := seq(|cal|, i requires 0 <= i < |cal| => ReverseOne(cal[i], recs));
      var t := cal[1..];
      assert os[1..] == seq(|t|, i requires 0 <= i < |t| => ReverseOne(t[i], recs));
      ReverseCsdSum(t, recs);
      ReverseOneCsd(cal[0], recs);
    }
  }

  /** Reverse, "Total Face Value CSD - Unmatched Only" is what the unmatched
      rows find among the retained records: with the matched face values it
      makes up, over the rows with a present position, the first retained
      face value of each row's ISIN. */
  lemma ReverseCsdTotal(cal: seq<CalypsoRecord>, recs: seq<Retained>)
    ensures FoundValues(cal, recs)
      == PairCsd(ReversePass(cal, recs).0) + SumPresent(CsdColumn(ReversePass(cal, recs).1))
  {
    var os := seq(|cal|, i requires 0 <= i < |cal| => ReverseOne(cal[i], recs));
    SplitTotals(os);
    ReverseCsdSum(cal, recs);
  }
}
