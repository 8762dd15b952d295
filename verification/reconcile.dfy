/** `reconcile(csv_df, excel_df)` without the spreadsheet writing: the whole
    pipeline from the two tables' rows to the four result lists and the two
    summaries, or the message of the exception that ends the run.
 */
module Reconcile {
  import opened Wrappers
  import opened Extraction
  import opened Matching
  import opened Aggregation

  /** The six parts of the reconciliation report. */
  datatype Report = Report(
    forwardMatched: seq<Pair>,
    forwardUnmatched: seq<Entry>,
    reverseMatched: seq<Pair>,
    reverseUnmatched: seq<Entry>,
    forwardSummary: Summary,
    reverseSummary: Summary)

  function Reconcile(csd: seq<RawRow>, calypso: seq<CalypsoRow>): (r: Result<Report, string>)
    ensures r.Success? ==>
      && |r.value.forwardMatched| + |r.value.forwardUnmatched| == |RetainedRecords(csd)|
      && |r.value.reverseMatched| + |r.value.reverseUnmatched| == |calypso|
    ensures r.Success? ==>
      && (r.value.forwardMatched, r.value.forwardUnmatched)
           == ForwardPass(RetainedRecords(csd), NormalizeCalypso(calypso))
      && (r.value.reverseMatched, r.value.reverseUnmatched)
           == ReversePass(NormalizeCalypso(calypso), RetainedRecords(csd))
  {
    var recs := RetainedRecords(csd);
    var cal := NormalizeCalypso(calypso);
    var (fm, fu) := ForwardPass(recs, cal);
    var (rm, ru) := ReversePass(cal, recs);
    var csdAll := TotalCsd(recs);
    var calypsoAll := TotalCalypso(cal);
    // the forward summary is computed, and can raise, before the reverse one
    match Summarize(CsdToCalypso, |fm|, fu, csdAll, calypsoAll)
    case Failure(e) => Failure(e)
    case Success(fs) =>
      match Summarize(CalypsoToCsd, |rm|, ru, csdAll, calypsoAll)
      case Failure(e) => Failure(e)
      case Success(rs) => Success(Report(fm, fu, rm, ru, fs, rs))
  }

  /** The run fails exactly when one of the two unmatched lists is empty
      (in particular when every security matches in either direction), and
      then with the `KeyError` message. */
  lemma ReconcileFails(csd: seq<RawRow>, calypso: seq<CalypsoRow>)
    ensures var recs := RetainedRecords(csd);
            var cal := NormalizeCalypso(calypso);
            Reconcile(csd, calypso).Failure? <==>
              ForwardPass(recs, cal).1 == [] || ReversePass(cal, recs).1 == []
    ensures Reconcile(csd, calypso).Failure? ==> Reconcile(csd, calypso).error == MissingColumn
  {
  }

  /** A successful run's summaries: each table counts its own pass, success
      rates lie in [0, 100] and are each pass's matched share, both tables
      show the same all-record totals, and "Difference Total - All" is total
      CSD minus total Calypso forward and the reverse of that backward. */
  lemma ReconcileSummaries(csd: seq<RawRow>, calypso: seq<CalypsoRow>)
    ensures Reconcile(csd, calypso).Success? ==>
            var rep := Reconcile(csd, calypso).value;
            var f, r := rep.forwardSummary, rep.reverseSummary;
            && f.evaluated == f.matched + f.unmatched == |RetainedRecords(csd)|
            && r.evaluated == r.matched + r.unmatched == |calypso|
            && f.matched == |rep.forwardMatched| && r.matched == |rep.reverseMatched|
            && 0.0 <= f.successRate <= 100.0 && 0.0 <= r.successRate <= 100.0
            && f.csdAll == r.csdAll == TotalCsd(RetainedRecords(csd))
            && f.calypsoAll == r.calypsoAll == TotalCalypso(NormalizeCalypso(calypso))
            && f.differenceAll == TotalCsd(RetainedRecords(csd)) - TotalCalypso(NormalizeCalypso(calypso))
            && r.differenceAll == TotalCalypso(NormalizeCalypso(calypso)) - TotalCsd(RetainedRecords(csd))
            && f.successRate == SuccessRate(f.matched, f.unmatched)
            && r.successRate == SuccessRate(r.matched, r.unmatched)
            && f.csdUnmatched == SumPresent(CsdColumn(rep.forwardUnmatched))
            && f.calypsoUnmatched == SumPresent(CalypsoColumn(rep.forwardUnmatched))
            && f.differenceUnmatched == SumPresent(DifferenceColumn(rep.forwardUnmatched))
            && r.csdUnmatched == SumPresent(CsdColumn(rep.reverseUnmatched))
            && r.calypsoUnmatched == SumPresent(CalypsoColumn(rep.reverseUnmatched))
            && r.differenceUnmatched == SumPresent(DifferenceColumn(rep.reverseUnmatched))
  {
  }

  /** In both tables "Difference Total - Unmatched Only" is within half a
      cent per unmatched entry of the difference of the two unmatched-only
      column totals, taken in that table's order. */
  lemma ReconcileUnmatchedDifference(csd: seq<RawRow>, calypso: seq<CalypsoRow>)
    ensures Reconcile(csd, calypso).Success? ==>
            var rep := Reconcile(csd, calypso).value;
            var f, r := rep.forwardSummary, rep.reverseSummary;
            && f.csdUnmatched - f.calypsoUnmatched - f.unmatched as real * 0.005
                 <= f.differenceUnmatched
                 <= f.csdUnmatched - f.calypsoUnmatched + f.unmatched as real * 0.005
            && r.calypsoUnmatched - r.csdUnmatched - r.unmatched as real * 0.005
                 <= r.differenceUnmatched
                 <= r.calypsoUnmatched - r.csdUnmatched + r.unmatched as real * 0.005
  {
    if Reconcile(csd, calypso).Success? {
      var recs := RetainedRecords(csd);
      var cal := NormalizeCalypso(calypso);
      var (fm, fu) := ForwardPass(recs, cal);
      var (rm, ru) := ReversePass(cal, recs);
      var csdAll, calypsoAll := TotalCsd(recs), TotalCalypso(cal);
      var rep := Reconcile(csd, calypso).value;
      assert rep.forwardSummary == Summarize(CsdToCalypso, |fm|, fu, csdAll, calypsoAll).value;
      assert rep.reverseSummary == Summarize(CalypsoToCsd, |rm|, ru, csdAll, calypsoAll).value;
      ForwardEntriesConsistent(recs, cal);
      ReverseEntriesConsistent(cal, recs);
      DifferenceUnmatchedBound(CsdToCalypso, fu);
      DifferenceUnmatchedBound(CalypsoToCsd, ru);
    }
  }

  /** In a successful run, "Total Face Value CSD - All" is the matched CSD
      amounts plus the forward table's "Total Face Value CSD - Unmatched Only",
      and "Total Calypso Position - All" is the matched positions plus the
      reverse table's "Calypso Position - Unmatched Only". The two columns
      each pass reads from the other side add up the same way: the forward
      Calypso column with the matched positions gives the first Calypso
      positions of the retained ISINs, and the reverse CSD column with the
      matched face values gives the first retained face values of the
      Calypso ISINs with a present position. */
  lemma ReconcileTotalsSplit(csd: seq<RawRow>, calypso: seq<CalypsoRow>)
    ensures Reconcile(csd, calypso).Success? ==>
            var rep := Reconcile(csd, calypso).value;
            && rep.forwardSummary.csdAll
                 == PairCsd(rep.forwardMatched) + rep.forwardSummary.csdUnmatched
            && rep.reverseSummary.calypsoAll
                 == PairCalypso(rep.reverseMatched) + rep.reverseSummary.calypsoUnmatched
            && FoundPositions(RetainedRecords(csd), NormalizeCalypso(calypso))
                 == PairCalypso(rep.forwardMatched) + rep.forwardSummary.calypsoUnmatched
            && FoundValues(NormalizeCalypso(calypso), RetainedRecords(csd))
                 == PairCsd(rep.reverseMatched) + rep.reverseSummary.csdUnmatched
  {
    if Reconcile(csd, calypso).Success? {
      var recs := RetainedRecords(csd);
      var cal := NormalizeCalypso(calypso);
      var (fm, fu) := ForwardPass(recs, cal);
      var (rm, ru) := ReversePass(cal, recs);
      var csdAll, calypsoAll := TotalCsd(recs), TotalCalypso(cal);
      var rep := Reconcile(csd, calypso).value;
      assert rep.forwardSummary == Summarize(CsdToCalypso, |fm|, fu, csdAll, calypsoAll).value;
      assert rep.reverseSummary == Summarize(CalypsoToCsd, |rm|, ru, csdAll, calypsoAll).value;
      ForwardCsdTotal(recs, cal);
      ReverseCalypsoTotal(cal, recs);
      ForwardCalypsoTotal(recs, cal);
      ReverseCsdTotal(cal, recs);
    }
  }

  /** In a successful run every retained record is reported once forward and
      every Calypso row once in reverse, and every reported entry says what
      its pass decided: matched pairs agree with the first match on the
      other side, and unmatched entries carry one of their pass's reasons
      with the difference that reason implies. */
  lemma ReconcileReports(csd: seq<RawRow>, calypso: seq<CalypsoRow>)
    ensures Reconcile(csd, calypso).Success? ==>
            var rep := Reconcile(csd, calypso).value;
            var recs, cal := RetainedRecords(csd), NormalizeCalypso(calypso);
            && multiset(PairIsins(rep.forwardMatched)) + multiset(EntryIsins(rep.forwardUnmatched))
                 == multiset(seq(|recs|, i requires 0 <= i < |recs| => recs[i].isin))
            && multiset(PairIsins(rep.reverseMatched)) + multiset(EntryIsins(rep.reverseUnmatched))
                 == multiset(seq(|cal|, i requires 0 <= i < |cal| => cal[i].isin))
            && (forall p :: p in rep.forwardMatched ==>
                  Agree(p.csd, p.calypso)
                  && exists k :: IsFirstCalypso(cal, p.isin, k) && cal[k].position == Some(p.calypso))
            && (forall e :: e in rep.forwardUnmatched ==> ForwardEntrySound(cal, e))
            && (forall p :: p in rep.reverseMatched ==>
                  Agree(p.csd, p.calypso)
                  && exists k :: IsFirstRetained(recs, p.isin, k) && recs[k].value == p.csd)
            && (forall e :: e in rep.reverseUnmatched ==> ReverseEntrySound(recs, e))
  {
    if Reconcile(csd, calypso).Success? {
      var rep := Reconcile(csd, calypso).value;
      var recs, cal := RetainedRecords(csd), NormalizeCalypso(calypso);
      ForwardPassKeepsIsins(recs, cal);
      ReversePassKeepsIsins(cal, recs);
      forall p | p in rep.forwardMatched
        ensures Agree(p.csd, p.calypso)
        ensures exists k :: IsFirstCalypso(cal, p.isin, k) && cal[k].position == Some(p.calypso)
      {
        ForwardMatchedSound(recs, cal, p);
      }
      forall e | e in rep.forwardUnmatched
        ensures ForwardEntrySound(cal, e)
      {
        ForwardUnmatchedSound(recs, cal, e);
      }
      forall p | p in rep.reverseMatched
        ensures Agree(p.csd, p.calypso)
        ensures exists k :: IsFirstRetained(recs, p.isin, k) && recs[k].value == p.csd
      {
        ReverseMatchedSound(cal, recs, p);
      }
      forall e | e in rep.reverseUnmatched
        ensures ReverseEntrySound(recs, e)
      {
        ReverseUnmatchedSound(cal, recs, e);
      }
    }
  }
}
