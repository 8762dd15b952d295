/** The forward (CSD to Calypso) and reverse (Calypso to CSD) matching passes
    of `reconcile`.

    Both passes look up a security by ISIN and take the FIRST row with that
    ISIN on the other side; two amounts agree when they are equal after
    rounding to two places. The passes are independent of each other: a
    record matched forward is not removed from the reverse pass's pool.
 */
module Matching {
  import opened Wrappers
  import opened Isin
  import opened Numbers
  import opened Extraction

  /** One Calypso row: the `PRODUCT_CODE.ISIN` and `Position` cells. */
  datatype CalypsoRow = CalypsoRow(isin: Option<string>, position: Option<string>)

  /** A Calypso row after normalisation. */
  datatype CalypsoRecord = CalypsoRecord(isin: string, position: Option<real>)

  /** A matched security: the ISIN and the two agreeing amounts. */
  datatype Pair = Pair(isin: string, csd: real, calypso: real)

  /** An unmatched security: the ISIN, the two amounts as far as known, the
      reason, and the rounded difference (absent where pandas would compute NaN). */
  datatype Entry = Entry(isin: string, csd: Option<real>, calypso: Option<real>,
                         reason: string, difference: Option<real>)

  datatype Outcome = Matched(pair: Pair) | Unmatched(entry: Entry)

  const ValueMismatch: string := "Value mismatch"
  const NotInCalypso: string := "ISIN not found in Calypso"
  const NotInCsd: string := "ISIN not found in CSD"

  function NormalizeCalypsoRow(row: CalypsoRow): CalypsoRecord {
    CalypsoRecord(NormalizeIsin(row.isin), CleanNumber(row.position))
  }

  /** The `apply(normalize_isin)` / `apply(clean_number)` over the Calypso table. */
  function NormalizeCalypso(rows: seq<CalypsoRow>): (r: seq<CalypsoRecord>)
    ensures |r| == |rows|
    ensures forall k :: 0 <= k < |rows| ==> r[k] == NormalizeCalypsoRow(rows[k])
  {
    seq(|rows|, k requires 0 <= k < |rows| => NormalizeCalypsoRow(rows[k]))
  }

  /** Two amounts agree when they are equal to two places. */
  predicate Agree(a: real, b: real) {
    Round2(a) == Round2(b)
  }

  // ----- first match by ISIN -----

  /** `k` is the first Calypso row with ISIN `isin`. */
  ghost predicate IsFirstCalypso(cal: seq<CalypsoRecord>, isin: string, k: int) {
    0 <= k < |cal| && cal[k].isin == isin && forall j :: 0 <= j < k ==> cal[j].isin != isin
  }

  /** `k` is the first retained CSD record with ISIN `isin`. */
  ghost predicate IsFirstRetained(recs: seq<Retained>, isin: string, k: int) {
    0 <= k < |recs| && recs[k].isin == isin && forall j :: 0 <= j < k ==> recs[j].isin != isin
  }

  /** `excel_df[excel_df["PRODUCT_CODE.ISIN"] == isin]` followed by `iloc[0]`:
      the index of the first Calypso row with that ISIN, if any. */
  function FindCalypso(cal: seq<CalypsoRecord>, isin: string): (r: Option<nat>)
    ensures r.Some? ==> IsFirstCalypso(cal, isin, r.value)
    ensures r.None? ==> forall j :: 0 <= j < |cal| ==> cal[j].isin != isin
  {
    if cal == [] then None
    else if cal[0].isin == isin then Some(0)
    else match FindCalypso(cal[1..], isin)
      case None => None
      case Some(k) => Some(k + 1)
  }

  // ----- forward pass -----

  /** The forward verdict on one retained record. */
  function ForwardOne(rec: Retained, cal: seq<CalypsoRecord>): (r: Outcome)
    ensures OutcomeIsin(r) == rec.isin
    ensures r.Matched? ==> r.pair.csd == rec.value && Agree(r.pair.csd, r.pair.calypso)
    ensures r.Unmatched? ==>
              r.entry.csd == Some(rec.value)
              && (r.entry.reason == ValueMismatch || r.entry.reason == NotInCalypso)
  {
    match FindCalypso(cal, rec.isin)
    case Some(k) =>
      var pos := cal[k].position;
      if pos.Some? && Agree(rec.value, pos.value) then
        Matched(Pair(rec.isin, rec.value, pos.value))
      else
        Unmatched(Entry(rec.isin, Some(rec.value), pos, ValueMismatch,
                        Some(Round2(rec.value - pos.GetOr(0.0)))))
    case None =>
      Unmatched(Entry(rec.isin, Some(rec.value), None, NotInCalypso, Some(Round2(rec.value))))
  }

  /** Splits outcomes into the matched and the unmatched list, keeping order. */
  function Split(outcomes: seq<Outcome>): (r: (seq<Pair>, seq<Entry>))
    ensures |r.0| + |r.1| == |outcomes|
  {
    if outcomes == [] then ([], [])
    else
      var rest := Split(outcomes[1..]);
      match outcomes[0]
      case Matched(p) => ([p] + rest.0, rest.1)
      case Unmatched(e) => (rest.0, [e] + rest.1)
  }

  /** `forward_matched, forward_unmatched`: one verdict per retained record, in order. */
  function ForwardPass(recs: seq<Retained>, cal: seq<CalypsoRecord>): (r: (seq<Pair>, seq<Entry>))
    ensures |r.0| + |r.1| == |recs|
  {
    Split(seq(|recs|, i requires 0 <= i < |recs| => ForwardOne(recs[i], cal)))
  }

  // ----- reverse pass -----

  /** The inner loop over the retained records for one Calypso row. It stops
      at the first record with the row's ISIN only when the row's position is
      present (the retained record's face value always is); with an absent
      position it runs to the end without deciding. */
  function ReverseScan(c: CalypsoRecord, recs: seq<Retained>): (r: Option<Outcome>)
    ensures r.Some? ==> c.position.Some?
    ensures r.Some? && r.value.Matched? ==>
              c.position == Some(r.value.pair.calypso) && Agree(r.value.pair.calypso, r.value.pair.csd)
    ensures r.Some? && r.value.Unmatched? ==>
              r.value.entry.calypso == c.position && r.value.entry.reason == ValueMismatch
  {
    if recs == [] then None
    else if c.isin == recs[0].isin && c.position.Some? then
      var p := c.position.value;
      var v := recs[0].value;
      if Agree(p, v) then Some(Matched(Pair(c.isin, v, p)))
      else Some(Unmatched(Entry(c.isin, Some(v), Some(p), ValueMismatch, Some(Round2(p - v)))))
    else ReverseScan(c, recs[1..])
  }

  /** `round(x, 2)` of a possibly-absent amount (NaN stays NaN). */
  function RoundPresent(x: Option<real>): (r: Option<real>)
    ensures r.Some? <==> x.Some?
  {
    match x
    case Some(v) => Some(Round2(v))
    case None => None
  }

  /** The reverse verdict on one Calypso row: when the scan decides nothing,
      the row is reported as not found in the CSD. */
  function ReverseOne(c: CalypsoRecord, recs: seq<Retained>): (r: Outcome)
    ensures OutcomeIsin(r) == c.isin
    ensures r.Matched? ==> c.position == Some(r.pair.calypso) && Agree(r.pair.calypso, r.pair.csd)
    ensures r.Unmatched? ==>
              r.entry.calypso == c.position
              && (r.entry.reason == ValueMismatch || r.entry.reason == NotInCsd)
  {
    ReverseScanIsin(c, recs);
    match ReverseScan(c, recs)
    case Some(o) => o
    case None => Unmatched(Entry(c.isin, None, c.position, NotInCsd, RoundPresent(c.position)))
  }

  /** `reverse_matched, reverse_unmatched`: one verdict per Calypso row, in order. */
  function ReversePass(cal: seq<CalypsoRecord>, recs: seq<Retained>): (r: (seq<Pair>, seq<Entry>))
    ensures |r.0| + |r.1| == |cal|
  {
    Split(seq(|cal|, i requires 0 <= i < |cal| => ReverseOne(cal[i], recs)))
  }

  // ----- what one verdict is -----

  /** Forward, ISIN found: matched exactly when the first Calypso row with the
      ISIN has a position that agrees; otherwise a value mismatch whose
      difference is CSD minus Calypso, an absent position counting as 0. */
  lemma ForwardFound(rec: Retained, cal: seq<CalypsoRecord>, k: int)
    requires IsFirstCalypso(cal, rec.isin, k)
    ensures var pos := cal[k].position;
      ForwardOne(rec, cal) ==
        if pos.Some? && Agree(rec.value, pos.value) then Matched(Pair(rec.isin, rec.value, pos.value))
        else Unmatched(Entry(rec.isin, Some(rec.value), pos, ValueMismatch,
                             Some(Round2(rec.value - pos.GetOr(0.0)))))
  {
    var r := FindCalypso(cal, rec.isin);
    assert r == Some(k) by {
      if r.Some? {
        assert !(r.value < k) && !(k < r.value);
      }
    }
  }

  /** Forward, ISIN absent from Calypso: unmatched, difference the CSD amount. */
  lemma ForwardNotFound(rec: Retained, cal: seq<CalypsoRecord>)
    requires forall j :: 0 <= j < |cal| ==> cal[j].isin != rec.isin
    ensures ForwardOne(rec, cal)
      == Unmatched(Entry(rec.isin, Some(rec.value), None, NotInCalypso, Some(Round2(rec.value))))
  {
  }

  lemma {:induction false} ReverseScanFinds(c: CalypsoRecord, recs: seq<Retained>, k: int)
    requires IsFirstRetained(recs, c.isin, k) && c.position.Some?
    ensures var p := c.position.value;
      var v := recs[k].value;
      ReverseScan(c, recs) ==
        if Agree(p, v) then Some(Matched(Pair(c.isin, v, p)))
        else Some(Unmatched(Entry(c.isin, Some(v), Some(p), ValueMismatch, Some(Round2(p - v)))))
    decreases |recs|
  {
    if k > 0 {
      assert recs[0].isin != c.isin;
      assert IsFirstRetained(recs[1..], c.isin, k - 1) by {
        forall j | 0 <= j < k - 1
          ensures recs[1..][j].isin != c.isin
        {
          assert recs[1..][j] == recs[j + 1];
        }
      }
      ReverseScanFinds(c, recs[1..], k - 1);
    }
  }

  lemma {:induction false} ReverseScanMisses(c: CalypsoRecord, recs: seq<Retained>)
    requires c.position.None? || forall j :: 0 <= j < |recs| ==> recs[j].isin != c.isin
    ensures ReverseScan(c, recs).None?
    decreases |recs|
  {
    if recs != [] {
      assert forall j :: 0 <= j < |recs[1..]| ==> recs[1..][j] == recs[j + 1];
      ReverseScanMisses(c, recs[1..]);
    }
  }

  /** Reverse, position present and ISIN retained: matched exactly when the
      first retained record with the ISIN agrees; otherwise a value mismatch
      whose difference is Calypso minus CSD. */
  lemma ReverseFound(c: CalypsoRecord, recs: seq<Retained>, k: int)
    requires IsFirstRetained(recs, c.isin, k) && c.position.Some?
    ensures var p := c.position.value;
      var v := recs[k].value;
      ReverseOne(c, recs) ==
        if Agree(p, v) then Matched(Pair(c.isin, v, p))
        else Unmatched(Entry(c.isin, Some(v), Some(p), ValueMismatch, Some(Round2(p - v))))
  {
    ReverseScanFinds(c, recs, k);
  }

  /** Reverse, ISIN not retained OR position absent: reported as "ISIN not
      found in CSD", with the rounded position as the difference. The absent
      position case applies even when a retained record has the ISIN. */
  lemma ReverseNotFound(c: CalypsoRecord, recs: seq<Retained>)
    requires c.position.None? || forall j :: 0 <= j < |recs| ==> recs[j].isin != c.isin
    ensures ReverseOne(c, recs)
      == Unmatched(Entry(c.isin, None, c.position, NotInCsd, RoundPresent(c.position)))
  {
    ReverseScanMisses(c, recs);
  }

  /** A record and a Calypso row that are each the other's first match get
      the same verdict in both passes. With a present position, mismatch
      differences are opposite; with an absent one, forward reports a value
      mismatch and reverse reports the ISIN as not found in the CSD. */
  lemma ForwardReverseAgree(recs: seq<Retained>, k: int, cal: seq<CalypsoRecord>, m: int)
    requires 0 <= m < |cal| && IsFirstRetained(recs, cal[m].isin, k)
    requires IsFirstCalypso(cal, recs[k].isin, m)
    ensures ForwardOne(recs[k], cal).Matched? <==> ReverseOne(cal[m], recs).Matched?
    ensures cal[m].position.Some? && ForwardOne(recs[k], cal).Unmatched? ==>
      && ReverseOne(cal[m], recs).Unmatched?
      && ForwardOne(recs[k], cal).entry.difference.Some?
      && ReverseOne(cal[m], recs).entry.difference.Some?
      && ForwardOne(recs[k], cal).entry.difference.value == -ReverseOne(cal[m], recs).entry.difference.value
    ensures cal[m].position.None? ==>
      && ForwardOne(recs[k], cal).Unmatched? && ForwardOne(recs[k], cal).entry.reason == ValueMismatch
      && ReverseOne(cal[m], recs).Unmatched? && ReverseOne(cal[m], recs).entry.reason == NotInCsd
  {
    var v := recs[k].value;
    var fo, ro := ForwardOne(recs[k], cal), ReverseOne(cal[m], recs);
    ForwardFound(recs[k], cal, m);
    if cal[m].position.Some? {
      var p := cal[m].position.value;
      ReverseFound(cal[m], recs, k);
      assert fo.Matched? <==> Agree(v, p);
      assert ro.Matched? <==> Agree(p, v);
      if fo.Unmatched? {
        assert fo.entry.difference == Some(Round2(v - p));
        assert ro.entry.difference == Some(Round2(p - v));
        Round2Antisymmetric(v, p);
      }
    } else {
      ReverseNotFound(cal[m], recs);
    }
  }

  // ----- the passes as a whole -----

  lemma {:induction false} SplitAppend(a: seq<Outcome>, b: seq<Outcome>)
    ensures Split(a + b) == (Split(a).0 + Split(b).0, Split(a).1 + Split(b).1)
    decreases |a|
  {
    if a == [] {
      assert a + b == b;
      assert Split(a) == ([], []);
      assert [] + Split(b).0 == Split(b).0 && [] + Split(b).1 == Split(b).1;
    } else {
      assert (a + b)[0] == a[0];
      assert (a + b)[1..] == a[1..] + b;
      SplitAppend(a[1..], b);
      var ra, rb := Split(a[1..]), Split(b);
      match a[0]
      case Matched(p) =>
        assert [p] + (ra.0 + rb.0) == ([p] + ra.0) + rb.0;
      case Unmatched(e) =>
        assert [e] + (ra.1 + rb.1) == ([e] + ra.1) + rb.1;
    }
  }

  function PairIsins(ps: seq<Pair>): seq<string> {
    if ps == [] then [] else [ps[0].isin] + PairIsins(ps[1..])
  }

  function EntryIsins(es: seq<Entry>): seq<string> {
    if es == [] then [] else [es[0].isin] + EntryIsins(es[1..])
  }

  function OutcomeIsin(o: Outcome): string {
    match o
    case Matched(p) => p.isin
    case Unmatched(e) => e.isin
  }

  function OutcomeIsins(os: seq<Outcome>): seq<string> {
    seq(|os|, i requires 0 <= i < |os| => OutcomeIsin(os[i]))
  }

  /** The ISINs of both lists of a split, as one multiset. */
  ghost function SplitIsins(os: seq<Outcome>): multiset<string> {
    multiset(PairIsins(Split(os).0)) + multiset(EntryIsins(Split(os).1))
  }

  /** Each outcome lands in exactly one of the two lists. */
  lemma {:induction false} SplitKeepsIsins(os: seq<Outcome>)
    ensures SplitIsins(os) == multiset(OutcomeIsins(os))
    decreases |os|
  {
    if os != [] {
      var x, tail := OutcomeIsin(os[0]), OutcomeIsins(os[1..]);
      assert OutcomeIsins(os) == [x] + tail;
      calc {
        SplitIsins(os);
        { SplitIsinsCons(os); }
        multiset{x} + SplitIsins(os[1..]);
        { SplitKeepsIsins(os[1..]); }
        multiset{x} + multiset(tail);
        multiset([x] + tail);
      }
    }
  }

  lemma SplitIsinsCons(os: seq<Outcome>)
    requires os != []
    ensures SplitIsins(os) == multiset{OutcomeIsin(os[0])} + SplitIsins(os[1..])
  {
    var rest := Split(os[1..]);
    match os[0]
    case Matched(p) =>
      assert Split(os) == ([p] + rest.0, rest.1);
      PairIsinsCons(p, rest.0);
    case Unmatched(e) =>
      assert Split(os) == (rest.0, [e] + rest.1);
      EntryIsinsCons(e, rest.1);
  }

  lemma PairIsinsCons(p: Pair, ps: seq<Pair>)
    ensures PairIsins([p] + ps) == [p.isin] + PairIsins(ps)
  {
    assert ([p] + ps)[1..] == ps;
  }

  lemma EntryIsinsCons(e: Entry, es: seq<Entry>)
    ensures EntryIsins([e] + es) == [e.isin] + EntryIsins(es)
  {
    assert ([e] + es)[1..] == es;
  }

  lemma {:induction false} SplitMembers(os: seq<Outcome>)
    ensures forall p :: p in Split(os).0 <==> Matched(p) in os
    ensures forall e :: e in Split(os).1 <==> Unmatched(e) in os
    decreases |os|
  {
    if os != [] {
      SplitMembers(os[1..]);
      assert os == [os[0]] + os[1..];
    }
  }

  /** Every retained record is evaluated exactly once: its ISIN appears once,
      in either the matched or the unmatched list. */
  lemma ForwardPassKeepsIsins(recs: seq<Retained>, cal: seq<CalypsoRecord>)
    ensures multiset(PairIsins(ForwardPass(recs, cal).0)) + multiset(EntryIsins(ForwardPass(recs, cal).1))
      == multiset(seq(|recs|, i requires 0 <= i < |recs| => recs[i].isin))
  {
    var os := seq(|recs|, i requires 0 <= i < |recs| => ForwardOne(recs[i], cal));
    SplitKeepsIsins(os);
    forall i | 0 <= i < |recs|
      ensures OutcomeIsin(os[i]) == recs[i].isin
    {
    }
    assert OutcomeIsins(os) == seq(|recs|, i requires 0 <= i < |recs| => recs[i].isin);
  }

  /** Every Calypso row is evaluated exactly once. */
  lemma ReversePassKeepsIsins(cal: seq<CalypsoRecord>, recs: seq<Retained>)
    ensures multiset(PairIsins(ReversePass(cal, recs).0)) + multiset(EntryIsins(ReversePass(cal, recs).1))
      == multiset(seq(|cal|, i requires 0 <= i < |cal| => cal[i].isin))
  {
    var os := seq(|cal|, i requires 0 <= i < |cal| => ReverseOne(cal[i], recs));
    SplitKeepsIsins(os);
    forall i | 0 <= i < |cal|
      ensures OutcomeIsin(os[i]) == cal[i].isin
    {
      ReverseScanIsin(cal[i], recs);
    }
    assert OutcomeIsins(os) == seq(|cal|, i requires 0 <= i < |cal| => cal[i].isin);
  }

  lemma {:induction false} ReverseScanIsin(c: CalypsoRecord, recs: seq<Retained>)
    ensures ReverseScan(c, recs).Some? ==> OutcomeIsin(ReverseScan(c, recs).value) == c.isin
    decreases |recs|
  {
    if recs != [] {
      ReverseScanIsin(c, recs[1..]);
    }
  }

  /** The forward pass treats each record on its own: the pass over a
      concatenation is the concatenation of the passes. */
  lemma ForwardPassAppend(a: seq<Retained>, b: seq<Retained>, cal: seq<CalypsoRecord>)
    ensures ForwardPass(a + b, cal)
      == (ForwardPass(a, cal).0 + ForwardPass(b, cal).0, ForwardPass(a, cal).1 + ForwardPass(b, cal).1)
  {
    var oa := seq(|a|, i requires 0 <= i < |a| => ForwardOne(a[i], cal));
    var ob := seq(|b|, i requires 0 <= i < |b| => ForwardOne(b[i], cal));
    assert seq(|a + b|, i requires 0 <= i < |a + b| => ForwardOne((a + b)[i], cal)) == oa + ob;
    SplitAppend(oa, ob);
  }

  /** The reverse pass treats each Calypso row on its own. */
  lemma ReversePassAppend(a: seq<CalypsoRecord>, b: seq<CalypsoRecord>, recs: seq<Retained>)
    ensures ReversePass(a + b, recs)
      == (ReversePass(a, recs).0 + ReversePass(b, recs).0, ReversePass(a, recs).1 + ReversePass(b, recs).1)
  {
    var oa := seq(|a|, i requires 0 <= i < |a| => ReverseOne(a[i], recs));
    var ob := seq(|b|, i requires 0 <= i < |b| => ReverseOne(b[i], recs));
    assert seq(|a + b|, i requires 0 <= i < |a + b| => ReverseOne((a + b)[i], recs)) == oa + ob;
    SplitAppend(oa, ob);
  }

  /** Every forward-matched pair agrees to two places with the position of the
      first Calypso row with its ISIN. */
  lemma ForwardMatchedSound(recs: seq<Retained>, cal: seq<CalypsoRecord>, p: Pair)
    requires p in ForwardPass(recs, cal).0
    ensures Agree(p.csd, p.calypso)
    ensures exists k :: IsFirstCalypso(cal, p.isin, k) && cal[k].position == Some(p.calypso)
  {
    var os := seq(|recs|, i requires 0 <= i < |recs| => ForwardOne(recs[i], cal));
    SplitMembers(os);
    var i :| 0 <= i < |os| && os[i] == Matched(p);
    var k := FindCalypso(cal, recs[i].isin).value;
    assert IsFirstCalypso(cal, p.isin, k);
  }

  /** What an entry of the forward unmatched list says: its reason is one of
      the two forward reasons, with the difference `reconcile` computes for it. */
  ghost predicate ForwardEntrySound(cal: seq<CalypsoRecord>, e: Entry) {
    && e.csd.Some?
    && (e.reason == NotInCalypso ==>
      && (forall j :: 0 <= j < |cal| ==> cal[j].isin != e.isin)
      && e.calypso.None? && e.difference == Some(Round2(e.csd.value)))
    && (e.reason == ValueMismatch ==>
      && (exists k :: IsFirstCalypso(cal, e.isin, k) && cal[k].position == e.calypso)
      && (e.calypso.None? || !Agree(e.csd.value, e.calypso.value))
      && e.difference == Some(Round2(e.csd.value - e.calypso.GetOr(0.0))))
    && (e.reason == NotInCalypso || e.reason == ValueMismatch)
  }

  lemma ForwardOneSound(rec: Retained, cal: seq<CalypsoRecord>)
    requires ForwardOne(rec, cal).Unmatched?
    ensures ForwardOne(rec, cal).entry.isin == rec.isin
    ensures ForwardEntrySound(cal, ForwardOne(rec, cal).entry)
  {
    match FindCalypso(cal, rec.isin)
    case Some(k) =>
      ForwardFound(rec, cal, k);
    case None =>
      ForwardNotFound(rec, cal);
  }

  /** Every forward-unmatched entry carries one of the two forward reasons,
      with the difference `reconcile` computes for that reason. */
  lemma ForwardUnmatchedSound(recs: seq<Retained>, cal: seq<CalypsoRecord>, e: Entry)
    requires e in ForwardPass(recs, cal).1
    ensures ForwardEntrySound(cal, e)
  {
    var os := seq(|recs|, i requires 0 <= i < |recs| => ForwardOne(recs[i], cal));
    SplitMembers(os);
    var i :| 0 <= i < |os| && os[i] == Unmatched(e);
    ForwardOneSound(recs[i], cal);
  }

  /** Every reverse-matched pair agrees with the first retained record with its ISIN. */
  lemma ReverseMatchedSound(cal: seq<CalypsoRecord>, recs: seq<Retained>, p: Pair)
    ensures p in ReversePass(cal, recs).0 ==> Agree(p.csd, p.calypso)
    ensures p in ReversePass(cal, recs).0 ==>
              exists k :: IsFirstRetained(recs, p.isin, k) && recs[k].value == p.csd
  {
    if p in ReversePass(cal, recs).0 {
      var os := seq(|cal|, i requires 0 <= i < |cal| => ReverseOne(cal[i], recs));
      SplitMembers(os);
      var i :| 0 <= i < |os| && os[i] == Matched(p);
      var k := ReverseDecided(cal[i], recs);
      ReverseFound(cal[i], recs, k);
    }
  }

  /** When the scan decides, it decided on the first retained record with the ISIN. */
  lemma ReverseDecided(c: CalypsoRecord, recs: seq<Retained>) returns (k: int)
    requires ReverseScan(c, recs).Some?
    ensures IsFirstRetained(recs, c.isin, k) && c.position.Some?
  {
    if c.position.None? {
      ReverseScanMisses(c, recs);
    }
    k := FirstRetained(recs, c.isin);
    if k == |recs| {
      ReverseScanMisses(c, recs);
    }
  }

  function FirstRetained(recs: seq<Retained>, isin: string): (k: nat)
    ensures k <= |recs|
    ensures k < |recs| ==> IsFirstRetained(recs, isin, k)
    ensures k == |recs| ==> forall j :: 0 <= j < |recs| ==> recs[j].isin != isin
  {
    if recs == [] then 0
    else if recs[0].isin == isin then 0
    else 1 + FirstRetained(recs[1..], isin)
  }

  /** What an entry of the reverse unmatched list says: its reason is one of
      the two reverse reasons, with the difference `reconcile` computes for it. */
  ghost predicate ReverseEntrySound(recs: seq<Retained>, e: Entry) {
    && (e.reason == NotInCsd ==>
      && (e.calypso.None? || forall j :: 0 <= j < |recs| ==> recs[j].isin != e.isin)
      && e.csd.None? && e.difference == RoundPresent(e.calypso))
    && (e.reason == ValueMismatch ==>
      && e.calypso.Some?
      && (exists k :: IsFirstRetained(recs, e.isin, k) && Some(recs[k].value) == e.csd)
      && !Agree(e.calypso.value, e.csd.value)
      && e.difference == Some(Round2(e.calypso.value - e.csd.value)))
    && (e.reason == NotInCsd || e.reason == ValueMismatch)
  }

  lemma ReverseOneSound(c: CalypsoRecord, recs: seq<Retained>)
    requires ReverseOne(c, recs).Unmatched?
    ensures ReverseOne(c, recs).entry.isin == c.isin
    ensures ReverseEntrySound(recs, ReverseOne(c, recs).entry)
  {
    var k := FirstRetained(recs, c.isin);
    if k < |recs| && c.position.Some? {
      ReverseFound(c, recs, k);
    } else {
      ReverseNotFound(c, recs);
    }
  }

  /** Every reverse-unmatched entry carries one of the two reverse reasons,
      with the difference `reconcile` computes for that reason. */
  lemma ReverseUnmatchedSound(cal: seq<CalypsoRecord>, recs: seq<Retained>, e: Entry)
    requires e in ReversePass(cal, recs).1
    ensures ReverseEntrySound(recs, e)
  {
    var os := seq(|cal|, i requires 0 <= i < |cal| => ReverseOne(cal[i], recs));
    SplitMembers(os);
    var i :| 0 <= i < |os| && os[i] == Unmatched(e);
    ReverseOneSound(cal[i], recs);
  }
}
