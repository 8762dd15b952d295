/** Rebuilding one record per ISIN row from the CSD report (the loop over
    `csv_df.iterrows()` in `reconcile`), and the Stanbic filter.

    The CSD report spreads a security over several rows: the narration
    column, the ISIN column and the face-value column of one security need
    not be on the same row. The loop walks the rows in order; a row with an
    ISIN opens a new record, and a later row without an ISIN but with a
    face value sets the face value of the most recently opened record.

    The narration column is converted with `astype(str)` before the loop, so
    a missing narration becomes the text "nan" and the loop's "is the
    narration present" test always holds: every record carries the narration
    text of its own ISIN row.
 */
module Extraction {
  import opened Wrappers
  import opened Isin
  import opened Numbers

  /** One CSD row: the narration, ISIN and face-value cells (`Unnamed: 5`,
      `Unnamed: 7`, `Unnamed: 20`), each possibly missing. */
  datatype RawRow = RawRow(narration: Option<string>, id: Option<string>, value: Option<string>)

  /** An aligned record: `{"ISIN", "Narration", "Total Face Value CSD"}`. */
  datatype CsdRecord = CsdRecord(isin: string, narration: string, value: Option<real>)

  /** The loop's state: the records so far and `current_narration`. */
  datatype LoopState = LoopState(records: seq<CsdRecord>, narration: string)

  /** `astype(str)`: a missing cell becomes the text "nan". */
  function NarrationText(cell: Option<string>): (r: string)
    ensures cell.Some? ==> r == cell.value
    ensures cell.None? ==> r == "nan"
  {
    cell.GetOr("nan")
  }

  function IsinOf(row: RawRow): string {
    NormalizeIsin(row.id)
  }

  function ValueOf(row: RawRow): Option<real> {
    CleanNumber(row.value)
  }

  predicate IsIsinRow(row: RawRow) {
    IsinOf(row) != ""
  }

  /** Gives the last record the face value `v`, if there is a last record
      and `v` is present; otherwise changes nothing. */
  function SetLast(records: seq<CsdRecord>, v: Option<real>): (r: seq<CsdRecord>)
    ensures |r| == |records|
    ensures forall k :: 0 <= k < |records| ==>
      r[k].isin == records[k].isin && r[k].narration == records[k].narration
  {
    if records == [] || v.None? then records
    else records[..|records| - 1] + [records[|records| - 1].(value := v)]
  }

  /** One iteration of the loop. */
  function Step(st: LoopState, row: RawRow): LoopState {
    // `pd.notna(narration)` holds for every text, so the narration is always taken
    var text := NarrationText(row.narration);
    if IsIsinRow(row) then
      LoopState(st.records + [CsdRecord(IsinOf(row), text, None)], text)
    else
      LoopState(SetLast(st.records, ValueOf(row)), text)
  }

  /** The loop, from state `st`, over `rows` in order. */
  function Fold(st: LoopState, rows: seq<RawRow>): LoopState
    decreases |rows|
  {
    if rows == [] then st else Fold(Step(st, rows[0]), rows[1..])
  }

  /** `aligned_records` after the loop. */
  function Extract(rows: seq<RawRow>): (r: seq<CsdRecord>)
    ensures |r| <= |rows|
    ensures forall k :: 0 <= k < |r| ==> r[k].isin != ""
  {
    FoldRecords(LoopState([], ""), rows);
    Fold(LoopState([], ""), rows).records
  }

  /** The loop opens at most one record per row, and only for a row whose
      ISIN is not blank. */
  lemma {:induction false} FoldRecords(st: LoopState, rows: seq<RawRow>)
    requires forall k :: 0 <= k < |st.records| ==> st.records[k].isin != ""
    ensures |Fold(st, rows).records| <= |st.records| + |rows|
    ensures forall k :: 0 <= k < |Fold(st, rows).records| ==> Fold(st, rows).records[k].isin != ""
    decreases |rows|
  {
    if rows != [] {
      FoldRecords(Step(st, rows[0]), rows[1..]);
    }
  }

  // ----- a reference definition by segments -----

  /** The index of the first ISIN row, or `|rows|` when there is none. */
  function FirstIsinRow(rows: seq<RawRow>): (i: nat)
    ensures i <= |rows|
    ensures forall j :: 0 <= j < i ==> !IsIsinRow(rows[j])
    ensures i < |rows| ==> IsIsinRow(rows[i])
  {
    if rows == [] then 0
    else if IsIsinRow(rows[0]) then 0
    else 1 + FirstIsinRow(rows[1..])
  }

  /** The last present face value among `rows`, if any. */
  function LastValue(rows: seq<RawRow>): Option<real>
    decreases |rows|
  {
    if rows == [] then None
    else match LastValue(rows[1..])
      case Some(v) => Some(v)
      case None => ValueOf(rows[0])
  }

  /** The records described directly: rows before the first ISIN row are
      ignored; every ISIN row opens a segment that runs to the next ISIN row,
      and its record holds its own ISIN, its own narration text and the last
      face value present on the segment's other rows. */
  function Segmented(rows: seq<RawRow>): seq<CsdRecord>
    decreases |rows|
  {
    var i := FirstIsinRow(rows);
    if i == |rows| then []
    else
      var tail := rows[i + 1..];
      var j := FirstIsinRow(tail);
      [CsdRecord(IsinOf(rows[i]), NarrationText(rows[i].narration), LastValue(tail[..j]))]
        + Segmented(tail[j..])
  }

  /** The ISIN and narration of every ISIN row, in order. */
  function IsinRowKeys(rows: seq<RawRow>): seq<(string, string)> {
    if rows == [] then []
    else
      (if IsIsinRow(rows[0]) then [(IsinOf(rows[0]), NarrationText(rows[0].narration))] else [])
        + IsinRowKeys(rows[1..])
  }

  function Keys(records: seq<CsdRecord>): seq<(string, string)> {
    seq(|records|, k requires 0 <= k < |records| => (records[k].isin, records[k].narration))
  }

  // ----- the loop meets the reference -----

  lemma {:induction false} FoldAppend(st: LoopState, a: seq<RawRow>, b: seq<RawRow>)
    ensures Fold(st, a + b) == Fold(Fold(st, a), b)
    decreases |a|
  {
    if a == [] {
      assert a + b == b;
    } else {
      assert (a + b)[0] == a[0];
      assert (a + b)[1..] == a[1..] + b;
      FoldAppend(Step(st, a[0]), a[1..], b);
    }
  }

  /** The records the loop produces do not depend on the narration it starts with. */
  lemma {:induction false} FoldIgnoresStartNarration(st: LoopState, st': LoopState, rows: seq<RawRow>)
    requires st.records == st'.records
    ensures Fold(st, rows).records == Fold(st', rows).records
    decreases |rows|
  {
    if rows != [] {
      FoldIgnoresStartNarration(Step(st, rows[0]), Step(st', rows[0]), rows[1..]);
    }
  }

  /** Rows without an ISIN only ever set the last record's face value: the last present one wins. */
  lemma {:induction false} FoldValueRows(st: LoopState, rows: seq<RawRow>)
    requires forall j :: 0 <= j < |rows| ==> !IsIsinRow(rows[j])
    ensures Fold(st, rows).records == SetLast(st.records, LastValue(rows))
    decreases |rows|
  {
    if rows != [] {
      var st1 := Step(st, rows[0]);
      FoldValueRows(st1, rows[1..]);
      var rs := st.records;
      if rs != [] {
        var n := |rs| - 1;
        match LastValue(rows[1..])
        case None =>
        case Some(v) =>
          assert SetLast(rs, ValueOf(rows[0]))[..n] == rs[..n];
      }
    }
  }

  lemma SegmentedSkipsValueRows(rows: seq<RawRow>)
    ensures Segmented(rows) == Segmented(rows[FirstIsinRow(rows)..])
  {
    var i := FirstIsinRow(rows);
    var r := rows[i..];
    if i < |rows| {
      assert r[0] == rows[i];
      assert FirstIsinRow(r) == 0;
      assert r[1..] == rows[i + 1..];
      SegmentedStep(rows);
      SegmentedStep(r);
    } else {
      assert r == [];
    }
  }

  /** Splitting the loop at the first ISIN row. */
  lemma FoldAtIsinRow(st: LoopState, rows: seq<RawRow>, i: nat)
    requires i < |rows|
    ensures Fold(st, rows) == Fold(Step(Fold(st, rows[..i]), rows[i]), rows[i + 1..])
  {
    assert rows == rows[..i] + [rows[i]] + rows[i + 1..];
    FoldAppend(st, rows[..i] + [rows[i]], rows[i + 1..]);
    FoldAppend(st, rows[..i], [rows[i]]);
  }

  /** Opening a record and then setting the last face value sets the new record's value. */
  lemma SetLastOfOpened(records: seq<CsdRecord>, rec: CsdRecord, v: Option<real>)
    requires rec.value.None?
    ensures SetLast(records + [rec], v) == records + [rec.(value := v)]
  {
    if v.Some? {
      assert (records + [rec])[..|records|] == records;
    }
  }

  lemma SegmentedUnfold(rows: seq<RawRow>)
    requires FirstIsinRow(rows) < |rows|
    ensures var i := FirstIsinRow(rows);
            var tail := rows[i + 1..];
            var j := FirstIsinRow(tail);
            Segmented(rows)
              == [CsdRecord(IsinOf(rows[i]), NarrationText(rows[i].narration), LastValue(tail[..j]))]
                 + Segmented(tail)
  {
    var tail := rows[FirstIsinRow(rows) + 1..];
    SegmentedStep(rows);
    assert Segmented(tail[FirstIsinRow(tail)..]) == Segmented(tail) by {
      SegmentedSkipsValueRows(tail);
    }
  }

  lemma SegmentedStep(rows: seq<RawRow>)
    requires FirstIsinRow(rows) < |rows|
    ensures var i := FirstIsinRow(rows);
            var tail := rows[i + 1..];
            var j := FirstIsinRow(tail);
            Segmented(rows)
              == [CsdRecord(IsinOf(rows[i]), NarrationText(rows[i].narration), LastValue(tail[..j]))]
                 + Segmented(tail[j..])
  {
  }

  /** The loop, from any state, over any rows: the rows before the first ISIN
      row set the face value of the state's last record, and the remaining
      rows add the records of the reference definition. */
  lemma {:induction false} FoldMeetsSegmented(st: LoopState, rows: seq<RawRow>)
    ensures Fold(st, rows).records
      == SetLast(st.records, LastValue(rows[..FirstIsinRow(rows)])) + Segmented(rows)
    decreases |rows|
  {
    var i := FirstIsinRow(rows);
    FoldLeadingRows(st, rows);
    if i == |rows| {
      assert rows[..i] == rows;
    } else {
      var tail := rows[i + 1..];
      var j := FirstIsinRow(tail);
      var lv := LastValue(tail[..j]);
      var st1 := Fold(st, rows[..i]);
      var rec := CsdRecord(IsinOf(rows[i]), NarrationText(rows[i].narration), None);
      var st2 := Step(st1, rows[i]);
      assert st2.records == st1.records + [rec];
      assert Fold(st, rows).records == Fold(st2, tail).records by {
        FoldAtIsinRow(st, rows, i);
      }
      assert Fold(st2, tail).records == st1.records + [rec.(value := lv)] + Segmented(tail) by {
        FoldMeetsSegmented(st2, tail);
        SetLastOfOpened(st1.records, rec, lv);
      }
      SegmentedUnfold(rows);
      ConcatAssoc(st1.records, [rec.(value := lv)], Segmented(tail));
    }
  }

  /** The rows before the first ISIN row only set the last record's face value. */
  lemma FoldLeadingRows(st: LoopState, rows: seq<RawRow>)
    ensures var i := FirstIsinRow(rows);
            Fold(st, rows[..i]).records == SetLast(st.records, LastValue(rows[..i]))
  {
    var i := FirstIsinRow(rows);
    assert forall k :: 0 <= k < |rows[..i]| ==> rows[..i][k] == rows[k];
    FoldValueRows(st, rows[..i]);
  }

  lemma ConcatAssoc<T>(a: seq<T>, b: seq<T>, c: seq<T>)
    ensures a + b + c == a + (b + c)
  {
  }

  /** The loop builds exactly the records of the reference definition. */
  lemma ExtractIsSegmented(rows: seq<RawRow>)
    ensures Extract(rows) == Segmented(rows)
  {
    FoldMeetsSegmented(LoopState([], ""), rows);
  }

  // ----- consequences -----

  lemma {:induction false} FoldKeys(st: LoopState, rows: seq<RawRow>)
    ensures Keys(Fold(st, rows).records) == Keys(st.records) + IsinRowKeys(rows)
    decreases |rows|
  {
    if rows != [] {
      var st1 := Step(st, rows[0]);
      var head := if IsIsinRow(rows[0]) then [(IsinOf(rows[0]), NarrationText(rows[0].narration))] else [];
      assert IsinRowKeys(rows) == head + IsinRowKeys(rows[1..]);
      assert Keys(st1.records) == Keys(st.records) + head;
      calc {
        Keys(Fold(st, rows).records);
        Keys(Fold(st1, rows[1..]).records);
        { FoldKeys(st1, rows[1..]); }
        Keys(st1.records) + IsinRowKeys(rows[1..]);
        (Keys(st.records) + head) + IsinRowKeys(rows[1..]);
        { ConcatAssoc(Keys(st.records), head, IsinRowKeys(rows[1..])); }
        Keys(st.records) + IsinRowKeys(rows);
      }
    }
  }

  /** One record per ISIN row, in row order, carrying that row's ISIN and that
      row's own narration text: a narration on an earlier row is not carried
      into a record. */
  lemma ExtractKeys(rows: seq<RawRow>)
    ensures Keys(Extract(rows)) == IsinRowKeys(rows)
  {
    FoldKeys(LoopState([], ""), rows);
  }

  /** Face-value rows before the first ISIN row are dropped. */
  lemma ExtractDropsLeadingValueRows(pre: seq<RawRow>, rows: seq<RawRow>)
    requires forall j :: 0 <= j < |pre| ==> !IsIsinRow(pre[j])
    ensures Extract(pre + rows) == Extract(rows)
  {
    var init := LoopState([], "");
    FoldAppend(init, pre, rows);
    FoldValueRows(init, pre);
    FoldIgnoresStartNarration(Fold(init, pre), init, rows);
  }

  /** A face value on the ISIN row itself is ignored. */
  lemma ExtractIgnoresIsinRowValue(rows: seq<RawRow>, i: nat, v: Option<string>)
    requires i < |rows| && IsIsinRow(rows[i])
    ensures Extract(rows[i := rows[i].(value := v)]) == Extract(rows)
  {
    var rows' := rows[i := rows[i].(value := v)];
    var init := LoopState([], "");
    assert rows == rows[..i] + [rows[i]] + rows[i + 1..];
    assert rows' == rows[..i] + [rows'[i]] + rows[i + 1..];
    FoldAppend(init, rows[..i] + [rows[i]], rows[i + 1..]);
    FoldAppend(init, rows[..i], [rows[i]]);
    FoldAppend(init, rows[..i] + [rows'[i]], rows[i + 1..]);
    FoldAppend(init, rows[..i], [rows'[i]]);
    assert IsinOf(rows'[i]) == IsinOf(rows[i]);
  }

  /** A later row without an ISIN but with a face value overwrites the last
      record's face value; one without a face value changes nothing. */
  lemma ExtractValueRow(rows: seq<RawRow>, row: RawRow)
    requires !IsIsinRow(row)
    ensures Extract(rows + [row]) == SetLast(Extract(rows), ValueOf(row))
  {
    FoldAppend(LoopState([], ""), rows, [row]);
  }

  // ----- the Stanbic filter -----

  /** The counterparty marker the narration must contain. */
  const Marker: string := "STANBIC BANK GHANA LIMITED"

  /** `sub` occurs in `s` starting at index `i`. */
  ghost predicate OccursAt(s: string, sub: string, i: int) {
    0 <= i && i + |sub| <= |s| && s[i..i + |sub|] == sub
  }

  /** Python's `sub in s`. */
  predicate Contains(s: string, sub: string)
    decreases |s|
  {
    if |s| < |sub| then false
    else s[..|sub|] == sub || Contains(s[1..], sub)
  }

  lemma {:induction false} ContainsIff(s: string, sub: string)
    ensures Contains(s, sub) <==> exists i :: OccursAt(s, sub, i)
    decreases |s|
  {
    if |s| >= |sub| && s == [] {
      assert OccursAt(s, sub, 0);
    } else if |s| >= |sub| {
      ContainsIff(s[1..], sub);
      if Contains(s[1..], sub) {
        var i :| OccursAt(s[1..], sub, i);
        assert s[1..][i..i + |sub|] == s[i + 1..i + 1 + |sub|];
        assert OccursAt(s, sub, i + 1);
      }
      if s[..|sub|] == sub {
        assert OccursAt(s, sub, 0);
      }
      if exists i :: OccursAt(s, sub, i) {
        var i :| OccursAt(s, sub, i);
        if i > 0 {
          assert s[1..][i - 1..i - 1 + |sub|] == s[i..i + |sub|];
          assert OccursAt(s[1..], sub, i - 1);
        }
      }
    }
  }

  /** A record kept for matching: its face value is known to be present. */
  datatype Retained = Retained(isin: string, narration: string, value: real)

  predicate Keep(rec: CsdRecord) {
    Contains(rec.narration, Marker) && rec.value.Some?
  }

  /** `stanbic_records`: the records whose narration contains the marker and
      whose face value is present, in order. */
  function Retain(records: seq<CsdRecord>): (r: seq<Retained>)
    ensures |r| <= |records|
    ensures forall k :: 0 <= k < |r| ==> Contains(r[k].narration, Marker)
  {
    if records == [] then []
    else Kept(records[0]) + Retain(records[1..])
  }

  /** What the filter contributes for one record: the record itself when kept, else nothing. */
  function Kept(rec: CsdRecord): seq<Retained> {
    if Keep(rec) then [Retained(rec.isin, rec.narration, rec.value.value)] else []
  }

  /** A retained record is exactly a kept record, unchanged apart from the
      face value being known present. */
  lemma {:induction false} RetainMembers(records: seq<CsdRecord>, x: Retained)
    ensures x in Retain(records) <==>
      exists k :: 0 <= k < |records| && Keep(records[k])
        && records[k] == CsdRecord(x.isin, x.narration, Some(x.value))
    decreases |records|
  {
    if records != [] {
      RetainMembers(records[1..], x);
      if exists k :: (0 <= k < |records| && Keep(records[k])
        && records[k] == CsdRecord(x.isin, x.narration, Some(x.value)))
      {
        var k :| 0 <= k < |records| && Keep(records[k])
          && records[k] == CsdRecord(x.isin, x.narration, Some(x.value));
        if k > 0 {
          assert records[1..][k - 1] == records[k];
        }
      }
      if x in Retain(records[1..]) {
        var k :| 0 <= k < |records[1..]| && Keep(records[1..][k])
          && records[1..][k] == CsdRecord(x.isin, x.narration, Some(x.value));
        assert records[k + 1] == records[1..][k];
      }
    }
  }

  /** The filter keeps relative order: filtering a concatenation filters each part. */
  lemma {:induction false} RetainAppend(a: seq<CsdRecord>, b: seq<CsdRecord>)
    ensures Retain(a + b) == Retain(a) + Retain(b)
    decreases |a|
  {
    if a == [] {
      assert a + b == b;
    } else {
      assert (a + b)[0] == a[0];
      assert (a + b)[1..] == a[1..] + b;
      RetainAppend(a[1..], b);
      calc {
        Retain(a + b);
        Kept(a[0]) + Retain(a[1..] + b);
        Kept(a[0]) + (Retain(a[1..]) + Retain(b));
        { ConcatAssoc(Kept(a[0]), Retain(a[1..]), Retain(b)); }
        Retain(a) + Retain(b);
      }
    }
  }

  /** A narration cell that is missing becomes "nan", which cannot contain the
      marker: the record of such an ISIN row is never retained, even when an
      earlier row carried the Stanbic narration. */
  lemma MissingNarrationNeverRetained(rec: CsdRecord)
    requires rec.narration == NarrationText(None)
    ensures !Keep(rec)
  {
  }

  /** The retained records of a CSD report. */
  function RetainedRecords(rows: seq<RawRow>): seq<Retained> {
    Retain(Extract(rows))
  }
}
