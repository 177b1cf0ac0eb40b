/** The data path of the trade-off plot script (plot_param_tradeoff.py) up to the plotting:
    both input files must exist, the OKVS table yields its alpha and success columns, the
    threshold table its threshold and communication columns, and the communication is
    averaged per threshold. The file system is a map from path to parsed table. */
module Tradeoff {
  import opened Wrappers
  import opened Columns
  import opened GroupBy

  /** A parsed CSV file: its header row and rectangular numeric rows. */
  datatype Table = Table(headers: seq<string>, rows: seq<seq<real>>)

  predicate Rectangular(t: Table)
  {
    forall r :: 0 <= r < |t.rows| ==> |t.rows[r]| == |t.headers|
  }

  const OkvsPath: string := "okvs_bench.csv"
  const RtPath: string := "rt_vs_n_by_t.csv"

  /** The column whose resolution failed. */
  datatype Column = AlphaColumn | SuccColumn | ThresholdColumn | CommColumn

  /** The exceptions the script raises before plotting: FileNotFoundError, the IndexError
      of taking [0] of an empty list of matching headers, and the ValueError of reset_index
      when the threshold column is also the communication column (the group key and the
      mean would both be inserted under one name). */
  datatype ScriptError = FileNotFound | NoColumn(at: Column) | ColumnClash

  /** The resolved column names and the per-threshold mean communication. */
  datatype Analysis = Analysis(alphaCol: string, succCol: string, tCol: string, commCol: string,
                               commByT: seq<(real, real)>)

  /** One column of a table, by position. */
  function ColumnValues(t: Table, c: nat): (vs: seq<real>)
    requires Rectangular(t) && c < |t.headers|
    ensures |vs| == |t.rows|
    ensures forall r :: 0 <= r < |t.rows| ==> vs[r] == t.rows[r][c]
  {
    seq(|t.rows|, r requires 0 <= r < |t.rows| => t.rows[r][c])
  }

  /** A column resolved against the lower-cased headers, with the error naming it. */
  function ResolveIn(cols: seq<string>, cands: seq<string>, which: Column): (r: Result<nat, ScriptError>)
    ensures r.Failure? <==> FirstMatch(cols, cands).None?
    ensures r.Failure? ==> r.error == NoColumn(which)
    ensures r.Success? ==> r.value == FirstMatch(cols, cands).value
  {
    var m := FirstMatch(cols, cands);
    if m.None? then Failure(NoColumn(which)) else Success(m.value)
  }

  /** The OKVS table's part of the script: its alpha column, then its success column. */
  function OkvsColumns(okvs: Table): Result<(string, string), ScriptError>
  {
    var cols := LowerAll(okvs.headers);
    var alpha :- ResolveIn(cols, AlphaCands, AlphaColumn);
    var succ :- ResolveIn(cols, SuccCands, SuccColumn);
    Success((cols[alpha], cols[succ]))
  }

  /** The threshold table's part of the script: its threshold column, its communication
      column, and the group-by, whose reset_index fails when the two columns coincide. */
  function RtMeans(rt: Table): Result<(string, string, seq<(real, real)>), ScriptError>
    requires Rectangular(rt)
  {
    var cols := LowerAll(rt.headers);
    var t :- ResolveIn(cols, ThresholdCands, ThresholdColumn);
    var comm :- ResolveIn(cols, CommCands, CommColumn);
    if cols[t] == cols[comm] then Failure(ColumnClash)
    else Success((cols[t], cols[comm], GroupMean(ColumnValues(rt, t), ColumnValues(rt, comm))))
  }

  /** The script from the existence check to the group-by: the existence check comes first,
      then the OKVS table's alpha and success columns, then the threshold table's threshold
      and communication columns. */
  function Analyse(fs: map<string, Table>): (r: Result<Analysis, ScriptError>)
    requires forall p :: p in fs ==> Rectangular(fs[p])
  {
    if OkvsPath !in fs || RtPath !in fs then Failure(FileNotFound)
    else
      var okvs :- OkvsColumns(fs[OkvsPath]);
      var rt :- RtMeans(fs[RtPath]);
      Success(Analysis(okvs.0, okvs.1, rt.0, rt.1, rt.2))
  }

  /** A missing input file stops the script before either file is read: the outcome does
      not depend on any table. */
  lemma AnalyseMissingFile(fs: map<string, Table>)
    requires forall p :: p in fs ==> Rectangular(fs[p])
    requires OkvsPath !in fs || RtPath !in fs
    ensures Analyse(fs) == Failure(FileNotFound)
  {
  }

  /** With both files present, the errors come in script order: no alpha column is reported
      first, then no success column, both whatever the threshold table holds. */
  lemma AnalyseOkvsErrorsFirst(fs: map<string, Table>)
    requires forall p :: p in fs ==> Rectangular(fs[p])
    requires OkvsPath in fs && RtPath in fs
    ensures FirstMatch(LowerAll(fs[OkvsPath].headers), AlphaCands).None? ==>
      Analyse(fs) == Failure(NoColumn(AlphaColumn))
    ensures (FirstMatch(LowerAll(fs[OkvsPath].headers), AlphaCands).Some?
             && FirstMatch(LowerAll(fs[OkvsPath].headers), SuccCands).None?) ==>
      Analyse(fs) == Failure(NoColumn(SuccColumn))
  {
  }

  /** The threshold table's errors, once the OKVS table has both columns. */
  lemma AnalyseRtErrors(fs: map<string, Table>)
    requires forall p :: p in fs ==> Rectangular(fs[p])
    requires OkvsPath in fs && RtPath in fs
    requires FirstMatch(LowerAll(fs[OkvsPath].headers), AlphaCands).Some?
    requires FirstMatch(LowerAll(fs[OkvsPath].headers), SuccCands).Some?
    ensures FirstMatch(LowerAll(fs[RtPath].headers), ThresholdCands).None? ==>
      Analyse(fs) == Failure(NoColumn(ThresholdColumn))
    ensures (FirstMatch(LowerAll(fs[RtPath].headers), ThresholdCands).Some?
             && FirstMatch(LowerAll(fs[RtPath].headers), CommCands).None?) ==>
      Analyse(fs) == Failure(NoColumn(CommColumn))
  {
  }

  /** Once all four columns resolve, the script fails exactly when the threshold and the
      communication column have the same name. */
  lemma AnalyseColumnClash(fs: map<string, Table>)
    requires forall p :: p in fs ==> Rectangular(fs[p])
    requires OkvsPath in fs && RtPath in fs
    requires FirstMatch(LowerAll(fs[OkvsPath].headers), AlphaCands).Some?
    requires FirstMatch(LowerAll(fs[OkvsPath].headers), SuccCands).Some?
    requires FirstMatch(LowerAll(fs[RtPath].headers), ThresholdCands).Some?
    requires FirstMatch(LowerAll(fs[RtPath].headers), CommCands).Some?
    ensures var rtCols := LowerAll(fs[RtPath].headers);
      Analyse(fs) == Failure(ColumnClash) <==>
        rtCols[FirstMatch(rtCols, ThresholdCands).value] == rtCols[FirstMatch(rtCols, CommCands).value]
    ensures Analyse(fs).Success? || Analyse(fs) == Failure(ColumnClash)
  {
  }

  /** "bytes" contains "t": a threshold table headed bytes, t picks "bytes" for both columns,
      and the group-by's reset_index fails. */
  lemma AnalyseSameColumnFails(okvs: Table, rows: seq<seq<real>>)
    requires Rectangular(okvs) && OkvsColumns(okvs).Success?
    requires forall r :: 0 <= r < |rows| ==> |rows[r]| == 2
    ensures Analyse(map[OkvsPath := okvs, RtPath := Table(["bytes", "t"], rows)]) == Failure(ColumnClash)
  {
    assert OkvsPath != RtPath;
    BytesFirst();
  }

  /** The left-most header of bytes, t matches both the threshold and the communication
      candidates. */
  lemma BytesFirst()
    ensures FirstMatch(LowerAll(["bytes", "t"]), ThresholdCands) == Some(0)
    ensures FirstMatch(LowerAll(["bytes", "t"]), CommCands) == Some(0)
  {
    var cols := LowerAll(["bytes", "t"]);
    assert cols[0] == "bytes" by {
      assert Lower("bytes") == "bytes";
    }
    assert Contains("bytes", "t") by {
      ContainsIff("bytes", "t");
      assert OccursAt("bytes", "t", 2);
    }
    assert Contains("bytes", "bytes") by {
      ContainsIff("bytes", "bytes");
      assert OccursAt("bytes", "bytes", 0);
    }
    assert Matches(cols[0], ThresholdCands) && Matches(cols[0], CommCands);
  }

  /** On success every column is the left-most lower-cased header matching its candidates,
      the threshold and communication columns differ, and the means are the group-by of the
      threshold table's two resolved columns. */
  lemma AnalyseSuccess(fs: map<string, Table>)
    requires forall p :: p in fs ==> Rectangular(fs[p])
    requires Analyse(fs).Success?
    ensures OkvsPath in fs && RtPath in fs
    ensures Resolve(LowerAll(fs[OkvsPath].headers), AlphaCands) == Success(Analyse(fs).value.alphaCol)
    ensures Resolve(LowerAll(fs[OkvsPath].headers), SuccCands) == Success(Analyse(fs).value.succCol)
    ensures Resolve(LowerAll(fs[RtPath].headers), ThresholdCands) == Success(Analyse(fs).value.tCol)
    ensures Resolve(LowerAll(fs[RtPath].headers), CommCands) == Success(Analyse(fs).value.commCol)
    ensures Analyse(fs).value.tCol != Analyse(fs).value.commCol
    ensures var rt, rtCols := fs[RtPath], LowerAll(fs[RtPath].headers);
      FirstMatch(rtCols, ThresholdCands).Some? && FirstMatch(rtCols, CommCands).Some?
      && Analyse(fs).value.commByT
           == GroupMean(ColumnValues(rt, FirstMatch(rtCols, ThresholdCands).value),
                        ColumnValues(rt, FirstMatch(rtCols, CommCands).value))
  {
    var okvsCols, rtCols := LowerAll(fs[OkvsPath].headers), LowerAll(fs[RtPath].headers);
    ResolveIsFirstMatch(okvsCols, AlphaCands);
    ResolveIsFirstMatch(okvsCols, SuccCands);
    ResolveIsFirstMatch(rtCols, ThresholdCands);
    ResolveIsFirstMatch(rtCols, CommCands);
  }

  /** The OKVS columns depend on the OKVS table only. */
  lemma AnalyseOkvsColumnsLocal(fs: map<string, Table>, fs': map<string, Table>)
    requires forall p :: p in fs ==> Rectangular(fs[p])
    requires forall p :: p in fs' ==> Rectangular(fs'[p])
    requires Analyse(fs).Success? && Analyse(fs').Success?
    requires OkvsPath in fs && OkvsPath in fs' && fs[OkvsPath] == fs'[OkvsPath]
    ensures Analyse(fs).value.alphaCol == Analyse(fs').value.alphaCol
    ensures Analyse(fs).value.succCol == Analyse(fs').value.succCol
  {
  }

  /** The threshold column and the means depend on the threshold table only. */
  lemma AnalyseMeansLocal(fs: map<string, Table>, fs': map<string, Table>)
    requires forall p :: p in fs ==> Rectangular(fs[p])
    requires forall p :: p in fs' ==> Rectangular(fs'[p])
    requires Analyse(fs).Success? && Analyse(fs').Success?
    requires RtPath in fs && RtPath in fs' && fs[RtPath] == fs'[RtPath]
    ensures Analyse(fs).value.tCol == Analyse(fs').value.tCol
    ensures Analyse(fs).value.commCol == Analyse(fs').value.commCol
    ensures Analyse(fs).value.commByT == Analyse(fs').value.commByT
  {
  }
}
