/**
 The reactive callbacks of the dashboard, as pure functions of their inputs:
 the filter that fills the `dados-filtrados-store`, the year-range filter
 every chart applies first, and the reduction each chart renders.
 */
module Callbacks {
  import opened Optional
  import opened Sequences
  import opened Text
  import opened Order
  import opened Tally
  import opened Calendar
  import opened Records

  /** A `[lo, hi]` pair from a range slider. */
  datatype Range = Range(lo: int, hi: int)

  /** `Series.between(lo, hi)`: inclusive at both ends. */
  predicate InRange(x: int, g: Range)
    ensures InRange(x, g) ==> g.lo <= g.hi
    ensures x == g.lo || x == g.hi ==> (InRange(x, g) <==> g.lo <= g.hi)
  {
    g.lo <= x <= g.hi
  }

  /** A multi-select dropdown value restricts only when it is truthy: present and non-empty. */
  predicate Active(sel: Option<seq<string>>)
    ensures !Active(sel) <==> sel == None || sel == Some([])
  {
    sel.Some? && sel.value != []
  }

  /** `Series.isin(names)` on one cell: a missing cell is never in the list. */
  predicate IsIn(cell: Option<string>, names: seq<string>)
    ensures IsIn(cell, names) ==> cell.Some?
    ensures IsIn(cell, names) <==> exists i :: 0 <= i < |names| && cell == Some(names[i])
  {
    cell.Some? && cell.value in names
  }

  /** A cell that matches keeps matching when more names are listed; a missing cell matches no list. */
  lemma IsInMonotone(cell: Option<string>, names: seq<string>, more: seq<string>)
    requires forall x :: x in names ==> x in more
    ensures IsIn(cell, names) ==> IsIn(cell, more)
    ensures !IsIn(None, more)
  {
  }

  /** The three controls that drive the stored filtered data. */
  datatype FilterSpec = FilterSpec(estados: Option<seq<string>>, status: Option<seq<string>>, faixaTexto: Option<Range>)

  // ---------------------------------------------------------------- filtrar_e_armazenar_dados

  function ByEstado(rows: seq<Record>, sel: Option<seq<string>>): (r: seq<Record>)
    ensures forall x :: x in r ==> x in rows && (Active(sel) ==> IsIn(x.estado, sel.value))
  {
    if Active(sel) then
      var names := sel.value;
      Where(rows, (r: Record) => IsIn(r.estado, names))
    else rows
  }

  function ByStatus(rows: seq<Record>, sel: Option<seq<string>>): (r: seq<Record>)
    ensures forall x :: x in r ==> x in rows && (Active(sel) ==> IsIn(x.raw.status, sel.value))
  {
    if Active(sel) then
      var names := sel.value;
      Where(rows, (r: Record) => IsIn(r.raw.status, names))
    else rows
  }

  /**
   A falsy state selection keeps every row as often as it occurs; a truthy
   one keeps exactly the rows whose state is listed, with their multiplicity.
   */
  lemma EstadoFilterExactly(rows: seq<Record>, sel: Option<seq<string>>, x: Record)
    ensures Count(ByEstado(rows, sel), x) == if !Active(sel) || IsIn(x.estado, sel.value) then Count(rows, x) else 0
  {
    if Active(sel) {
      var names := sel.value;
      WhereCount(rows, (r: Record) => IsIn(r.estado, names), x);
    }
  }

  /** The same for the status selection. */
  lemma StatusFilterExactly(rows: seq<Record>, sel: Option<seq<string>>, x: Record)
    ensures Count(ByStatus(rows, sel), x) == if !Active(sel) || IsIn(x.raw.status, sel.value) then Count(rows, x) else 0
  {
    if Active(sel) {
      var names := sel.value;
      WhereCount(rows, (r: Record) => IsIn(r.raw.status, names), x);
    }
  }

  function ByTextLength(rows: seq<Record>, faixa: Option<Range>): (r: seq<Record>)
    ensures forall x :: x in r ==> x in rows && (faixa.Some? ==> InRange(x.tamanho, faixa.value))
  {
    if faixa.Some? then
      var g := faixa.value;
      Where(rows, (r: Record) => InRange(r.tamanho, g))
    else rows
  }

  /** The three filters applied one after the other, as the callback does. */
  function FilterAndStore(rows: seq<Record>, spec: FilterSpec): (r: seq<Record>)
    ensures |r| <= |rows|
    ensures forall i :: 0 <= i < |r| ==> Admits(spec, r[i])
  {
    var a := ByEstado(rows, spec.estados);
    var b := ByStatus(a, spec.status);
    var c := ByTextLength(b, spec.faixaTexto);
    assert forall i :: 0 <= i < |c| ==> c[i] in c;
    c
  }

  /** The conjunction of the supplied predicates; an absent one admits everything. */
  predicate Admits(spec: FilterSpec, r: Record) {
    && (Active(spec.estados) ==> IsIn(r.estado, spec.estados.value))
    && (Active(spec.status) ==> IsIn(r.raw.status, spec.status.value))
    && (spec.faixaTexto.Some? ==> InRange(r.tamanho, spec.faixaTexto.value))
  }

  /** The sequential filters select exactly the records admitted by the conjunction. */
  lemma FilterIsConjunction(rows: seq<Record>, spec: FilterSpec)
    ensures FilterAndStore(rows, spec) == Where(rows, (r: Record) => Admits(spec, r))
  {
    var pe := (r: Record) => Active(spec.estados) ==> IsIn(r.estado, spec.estados.value);
    var ps := (r: Record) => Active(spec.status) ==> IsIn(r.raw.status, spec.status.value);
    var pt := (r: Record) => spec.faixaTexto.Some? ==> InRange(r.tamanho, spec.faixaTexto.value);
    var pes := (r: Record) => pe(r) && ps(r);
    var all := (r: Record) => Admits(spec, r);
    var a := ByEstado(rows, spec.estados);
    var b := ByStatus(a, spec.status);
    assert a == Where(rows, pe) by {
      if Active(spec.estados) {
        var names := spec.estados.value;
        WhereSame(rows, (r: Record) => IsIn(r.estado, names), pe);
      } else {
        WhereAll(rows, pe);
      }
    }
    assert b == Where(a, ps) by {
      if Active(spec.status) {
        var names := spec.status.value;
        WhereSame(a, (r: Record) => IsIn(r.raw.status, names), ps);
      } else {
        WhereAll(a, ps);
      }
    }
    assert ByTextLength(b, spec.faixaTexto) == Where(b, pt) by {
      if spec.faixaTexto.Some? {
        var g := spec.faixaTexto.value;
        WhereSame(b, (r: Record) => InRange(r.tamanho, g), pt);
      } else {
        WhereAll(b, pt);
      }
    }
    WhereWhere(rows, pe, ps, pes);
    WhereWhere(rows, pes, pt, all);
  }

  /** Two predicates that agree on every element select the same elements. */
  lemma {:induction false} WhereSame<T>(xs: seq<T>, p: T -> bool, q: T -> bool)
    requires forall x :: p(x) == q(x)
    ensures Where(xs, p) == Where(xs, q)
  {
    if xs != [] {
      WhereSame(xs[1..], p, q);
    }
  }

  /**
   A record is kept, with all its occurrences, exactly when every supplied
   predicate holds of it; otherwise it is dropped entirely.
   */
  lemma FilterKeepsExactly(rows: seq<Record>, spec: FilterSpec, x: Record)
    ensures Count(FilterAndStore(rows, spec), x) == if Admits(spec, x) then Count(rows, x) else 0
  {
    FilterIsConjunction(rows, spec);
    WhereCount(rows, (r: Record) => Admits(spec, r), x);
  }

  /** The stored data is a subsequence of the input: nothing invented, nothing reordered. */
  lemma FilterIsSubsequence(rows: seq<Record>, spec: FilterSpec)
    ensures IsSubseq(FilterAndStore(rows, spec), rows)
  {
    FilterIsConjunction(rows, spec);
    WhereIsSubseq(rows, (r: Record) => Admits(spec, r));
  }

  /** With no state, no status and no text range selected, the stored data is the whole table. */
  lemma FilterNoSelection(rows: seq<Record>, spec: FilterSpec)
    requires !Active(spec.estados) && !Active(spec.status) && spec.faixaTexto.None?
    ensures FilterAndStore(rows, spec) == rows
  {
  }

  /** `b` restricts each field no more than `a` does. */
  predicate Widens(a: FilterSpec, b: FilterSpec) {
    && (Active(b.estados) ==> Active(a.estados) && forall x :: x in a.estados.value ==> x in b.estados.value)
    && (Active(b.status) ==> Active(a.status) && forall x :: x in a.status.value ==> x in b.status.value)
    && (b.faixaTexto.Some? ==> a.faixaTexto.Some? && b.faixaTexto.value.lo <= a.faixaTexto.value.lo && a.faixaTexto.value.hi <= b.faixaTexto.value.hi)
  }

  /** Enlarging a selection or widening the range never removes a record, nor reorders any. */
  lemma FilterMonotone(rows: seq<Record>, a: FilterSpec, b: FilterSpec)
    requires Widens(a, b)
    ensures IsSubseq(FilterAndStore(rows, a), FilterAndStore(rows, b))
  {
    FilterIsConjunction(rows, a);
    FilterIsConjunction(rows, b);
    WhereMonotone(rows, (r: Record) => Admits(a, r), (r: Record) => Admits(b, r));
  }

  // ---------------------------------------------------------------- the year filter of the charts

  /** `dff[dff['ANO'].between(faixa[0], faixa[1])]` when a year range is given. */
  function ByYear(rows: seq<Record>, faixa: Option<Range>): (r: seq<Record>)
    ensures |r| <= |rows|
    ensures forall x :: x in r ==> x in rows
    ensures faixa.Some? ==> forall i :: 0 <= i < |r| ==> InRange(r[i].ano, faixa.value)
  {
    if faixa.Some? then
      var g := faixa.value;
      Where(rows, (r: Record) => InRange(r.ano, g))
    else rows
  }

  /** The year filter keeps exactly the rows whose year lies in the range, in order. */
  lemma YearFilterExactly(rows: seq<Record>, faixa: Option<Range>, x: Record)
    ensures Count(ByYear(rows, faixa), x) == if faixa.None? || InRange(x.ano, faixa.value) then Count(rows, x) else 0
    ensures IsSubseq(ByYear(rows, faixa), rows)
  {
    if faixa.Some? {
      var g := faixa.value;
      WhereCount(rows, (r: Record) => InRange(r.ano, g), x);
      WhereIsSubseq(rows, (r: Record) => InRange(r.ano, g));
    } else {
      IsSubseqRefl(rows);
    }
  }

  lemma {:induction false} IsSubseqRefl<T>(xs: seq<T>)
    ensures IsSubseq(xs, xs)
  {
    if xs != [] {
      IsSubseqRefl(xs[1..]);
    }
  }

  // ---------------------------------------------------------------- charts

  /** A chart's data, or the "Sem dados para exibir." placeholder shown when the store is empty. */
  datatype Chart<T> = NoData | Ready(data: T)

  function MonthNumbers(rows: seq<Record>): (ms: seq<int>)
    ensures |ms| == |rows| && forall i :: 0 <= i < |rows| ==> ms[i] == MonthNumber(MonthOf(rows[i].raw.data))
  {
    seq(|rows|, i requires 0 <= i < |rows| => MonthNumber(MonthOf(rows[i].raw.data)))
  }

  /** `atualizar_serie_temporal`: complaints per calendar month of DATA, over the year-filtered rows. */
  function TimeSeries(dados: seq<Record>, faixa: Option<Range>): (c: Chart<seq<MonthCount>>)
    ensures c.NoData? <==> dados == []
    ensures c.Ready? ==> TotalCount(c.data) == |ByYear(dados, faixa)|
    ensures c.Ready? ==> forall k :: 0 <= k < |c.data| - 1 ==> MonthNumber(c.data[k + 1].month) == MonthNumber(c.data[k].month) + 1
    ensures c.Ready? ==> forall k :: 0 <= k < |c.data| ==>
      && 1 <= c.data[k].month.month <= 12
      && c.data[k].count == Count(MonthNumbers(ByYear(dados, faixa)), MonthNumber(c.data[k].month))
    ensures c.Ready? && c.data != [] ==> c.data[0].count > 0 && c.data[|c.data| - 1].count > 0
    ensures c.Ready? ==> (c.data == [] <==> ByYear(dados, faixa) == [])
  {
    if dados == [] then NoData
    else Ready(Monthly(MonthNumbers(ByYear(dados, faixa))))
  }

  /** `atualizar_grafico_status`: `value_counts` of STATUS over the year-filtered rows. */
  function StatusCounts(dados: seq<Record>, faixa: Option<Range>): (c: Chart<seq<KeyCount>>)
    ensures c.NoData? <==> dados == []
    ensures c.Ready? ==> var col := StatusColumn(ByYear(dados, faixa));
      && NonIncreasing(c.data) && DistinctKeys(c.data)
      && (forall i :: 0 <= i < |c.data| ==> c.data[i].count == Count(col, Some(c.data[i].key)) && c.data[i].count > 0)
      && (forall k :: HasKey(c.data, k) <==> Some(k) in col)
      && Total(c.data) == NonNull(col)
  {
    if dados == [] then NoData
    else Ready(ValueCounts(StatusColumn(ByYear(dados, faixa))))
  }

  /** `atualizar_grafico_estados`: `value_counts` of ESTADO over the year-filtered rows. */
  function EstadoCounts(dados: seq<Record>, faixa: Option<Range>): (c: Chart<seq<KeyCount>>)
    ensures c.NoData? <==> dados == []
    ensures c.Ready? ==> var col := EstadoColumn(ByYear(dados, faixa));
      && NonIncreasing(c.data) && DistinctKeys(c.data)
      && (forall i :: 0 <= i < |c.data| ==> c.data[i].count == Count(col, Some(c.data[i].key)) && c.data[i].count > 0)
      && (forall k :: HasKey(c.data, k) <==> Some(k) in col)
      && Total(c.data) == NonNull(col)
  {
    if dados == [] then NoData
    else Ready(ValueCounts(EstadoColumn(ByYear(dados, faixa))))
  }

  /** `atualizar_histograma_texto`: the TAMANHO_TEXTO values handed to the histogram, one per year-filtered row. */
  function TextLengths(dados: seq<Record>, faixa: Option<Range>): (c: Chart<seq<nat>>)
    ensures c.NoData? <==> dados == []
    ensures c.Ready? ==> |c.data| == |ByYear(dados, faixa)|
    ensures c.Ready? ==> forall i :: 0 <= i < |c.data| ==> c.data[i] == ByYear(dados, faixa)[i].tamanho
  {
    if dados == [] then NoData
    else
      var rows := ByYear(dados, faixa);
      Ready(seq(|rows|, i requires 0 <= i < |rows| => rows[i].tamanho))
  }

  predicate Present(c: Option<string>) {
    c.Some?
  }

  /** The texts as present cells. */
  function AsCells(ts: seq<string>): (c: seq<Option<string>>)
    ensures |c| == |ts| && forall i :: 0 <= i < |ts| ==> c[i] == Some(ts[i])
  {
    seq(|ts|, i requires 0 <= i < |ts| => Some(ts[i]))
  }

  /**
   The present DESCRICAO_TOKENIZADA cells (`dropna()`): exactly the present
   cells of the column, in row order, each as often as it occurs.
   */
  function Tokens(rows: seq<Record>): (ts: seq<string>)
    ensures AsCells(ts) == Where(TokenColumn(rows), Present)
    ensures |ts| == NonNull(TokenColumn(rows))
    ensures forall t :: t in ts <==> Some(t) in TokenColumn(rows)
  {
    if rows == [] then []
    else
      var c := rows[0].raw.tokenizada;
      var rest := Tokens(rows[1..]);
      assert TokenColumn(rows) == [c] + TokenColumn(rows[1..]);
      PresentStep(c, TokenColumn(rows[1..]), rest);
      if c.Some? then [c.value] + rest else rest
  }

  /** One more cell in front of a column extends its present texts accordingly. */
  lemma PresentStep(c: Option<string>, col: seq<Option<string>>, ts: seq<string>)
    requires AsCells(ts) == Where(col, Present)
    requires |ts| == NonNull(col)
    requires forall t :: t in ts <==> Some(t) in col
    ensures var us := if c.Some? then [c.value] + ts else ts;
      && AsCells(us) == Where([c] + col, Present)
      && |us| == NonNull([c] + col)
      && forall t :: t in us <==> Some(t) in [c] + col
  {
    assert ([c] + col)[1..] == col;
    PresentStepCells(c, col, ts);
    PresentStepMembers(c, col, ts);
  }

  lemma {:induction false} PresentStepCells(c: Option<string>, col: seq<Option<string>>, ts: seq<string>)
    requires AsCells(ts) == Where(col, Present)
    ensures var us := if c.Some? then [c.value] + ts else ts;
      AsCells(us) == Where([c] + col, Present)
  {
    assert ([c] + col)[1..] == col;
    if c.Some? {
      assert AsCells([c.value] + ts) == [c] + AsCells(ts);
    }
  }

  lemma {:induction false} PresentStepMembers(c: Option<string>, col: seq<Option<string>>, ts: seq<string>)
    requires forall t :: t in ts <==> Some(t) in col
    ensures var us := if c.Some? then [c.value] + ts else ts;
      forall t :: t in us <==> Some(t) in [c] + col
  {
  }

  /** Each token text is listed as often as rows hold it. */
  lemma {:induction false} TokensCount(rows: seq<Record>, t: string)
    ensures Count(Tokens(rows), t) == Count(TokenColumn(rows), Some(t))
  {
    if rows != [] {
      TokensCount(rows[1..], t);
      assert TokenColumn(rows)[1..] == TokenColumn(rows[1..]);
      if rows[0].raw.tokenizada.Some? {
        assert ([rows[0].raw.tokenizada.value] + Tokens(rows[1..]))[1..] == Tokens(rows[1..]);
      }
    }
  }

  /** `update_wordcloud`: the tokens of the year-filtered rows joined by spaces, punctuation deleted. */
  function WordCloudText(dados: seq<Record>, faixa: Option<Range>): (c: Chart<string>)
    ensures c.NoData? <==> dados == []
    ensures c.Ready? ==> forall i :: 0 <= i < |c.data| ==> !IsPunct(c.data[i])
    ensures c.Ready? ==> var words := Join(Tokens(ByYear(dados, faixa)), " ");
      && IsSubseq(c.data, words)
      && forall ch :: Count(c.data, ch) == if IsPunct(ch) then 0 else Count(words, ch)
  {
    if dados == [] then NoData
    else Ready(StripPunctuation(Join(Tokens(ByYear(dados, faixa)), " ")))
  }

  /** Every stored record passes the filters that produced the store. */
  lemma StoredAdmits(rows: seq<Record>, spec: FilterSpec, x: Record)
    requires x in FilterAndStore(rows, spec)
    ensures Admits(spec, x)
  {
    var d := FilterAndStore(rows, spec);
    var i :| 0 <= i < |d| && d[i] == x;
  }

  /** A status chart drawn from the store shows only statuses picked in the status dropdown. */
  lemma StatusChartOnlySelected(rows: seq<Record>, spec: FilterSpec, faixa: Option<Range>)
    requires Active(spec.status)
    ensures var c := StatusCounts(FilterAndStore(rows, spec), faixa);
      c.Ready? ==> forall i :: 0 <= i < |c.data| ==> c.data[i].key in spec.status.value
  {
    var d := FilterAndStore(rows, spec);
    var c := StatusCounts(d, faixa);
    if c.Ready? {
      forall i | 0 <= i < |c.data| ensures c.data[i].key in spec.status.value {
        var k := c.data[i].key;
        assert HasKey(c.data, k);
        var y := ByYear(d, faixa);
        var col := StatusColumn(y);
        var j :| 0 <= j < |col| && col[j] == Some(k);
        assert y[j] in y;
        StoredAdmits(rows, spec, y[j]);
      }
    }
  }

  /** A state chart drawn from the store shows only states picked in the state dropdown. */
  lemma EstadoChartOnlySelected(rows: seq<Record>, spec: FilterSpec, faixa: Option<Range>)
    requires Active(spec.estados)
    ensures var c := EstadoCounts(FilterAndStore(rows, spec), faixa);
      c.Ready? ==> forall i :: 0 <= i < |c.data| ==> c.data[i].key in spec.estados.value
  {
    var d := FilterAndStore(rows, spec);
    var c := EstadoCounts(d, faixa);
    if c.Ready? {
      forall i | 0 <= i < |c.data| ensures c.data[i].key in spec.estados.value {
        var k := c.data[i].key;
        assert HasKey(c.data, k);
        var y := ByYear(d, faixa);
        var col := EstadoColumn(y);
        var j :| 0 <= j < |col| && col[j] == Some(k);
        assert y[j] in y;
        StoredAdmits(rows, spec, y[j]);
      }
    }
  }

  /** A histogram drawn from the store only holds lengths inside the text-length slider's range. */
  /**
   On derived records, the histogram plots the word count of each
   year-filtered row's description, in row order.
   */
  lemma TextLengthsAreWordCounts(dados: seq<Record>, faixa: Option<Range>)
    requires forall i :: 0 <= i < |dados| ==> dados[i].tamanho == TextLength(dados[i].raw.descricao)
    ensures var c := TextLengths(dados, faixa);
      c.Ready? ==> forall i :: 0 <= i < |c.data| ==> c.data[i] == |Words(AsText(ByYear(dados, faixa)[i].raw.descricao))|
  {
    var y := ByYear(dados, faixa);
    forall i | 0 <= i < |y| ensures y[i].tamanho == TextLength(y[i].raw.descricao) {
      assert y[i] in dados;
    }
  }

  /** Every year-filtered row's month of DATA is the label of a non-empty point of the series. */
  lemma TimeSeriesShowsEveryMonth(dados: seq<Record>, faixa: Option<Range>, x: Record)
    requires x in ByYear(dados, faixa)
    ensures var c := TimeSeries(dados, faixa);
      c.Ready? && exists k :: 0 <= k < |c.data| && c.data[k].month == MonthOf(x.raw.data) && c.data[k].count > 0
  {
    var y := ByYear(dados, faixa);
    var ms := MonthNumbers(y);
    var j :| 0 <= j < |y| && y[j] == x;
    assert ms[j] == MonthNumber(MonthOf(x.raw.data));
    MonthlyShowsMonth(ms, MonthOf(x.raw.data));
  }

  lemma HistogramWithinRange(rows: seq<Record>, spec: FilterSpec, faixa: Option<Range>)
    requires spec.faixaTexto.Some?
    ensures var c := TextLengths(FilterAndStore(rows, spec), faixa);
      c.Ready? ==> forall i :: 0 <= i < |c.data| ==> InRange(c.data[i], spec.faixaTexto.value)
  {
    var d := FilterAndStore(rows, spec);
    var c := TextLengths(d, faixa);
    if c.Ready? {
      forall i | 0 <= i < |c.data| ensures InRange(c.data[i], spec.faixaTexto.value) {
        var y := ByYear(d, faixa);
        assert y[i] in y;
        StoredAdmits(rows, spec, y[i]);
      }
    }
  }

  /** Without a year range every stored record is one point of the time series. */
  lemma TimeSeriesCountsAll(dados: seq<Record>)
    ensures var c := TimeSeries(dados, None);
      c.Ready? ==> TotalCount(c.data) == |dados|
  {
  }

  /** Tokens already free of punctuation reach the word cloud joined by spaces and otherwise unchanged. */
  lemma WordCloudOfCleanTokens(dados: seq<Record>, faixa: Option<Range>)
    requires forall i :: 0 <= i < |dados| && dados[i].raw.tokenizada.Some? ==> NoPunct(dados[i].raw.tokenizada.value)
    ensures var c := WordCloudText(dados, faixa);
      c.Ready? ==> c.data == Join(Tokens(ByYear(dados, faixa)), " ")
  {
    if dados != [] {
      var y := ByYear(dados, faixa);
      forall i | 0 <= i < |y| && y[i].raw.tokenizada.Some? ensures NoPunct(y[i].raw.tokenizada.value) {
        assert y[i] in y;
        var k :| 0 <= k < |dados| && dados[k] == y[i];
      }
      CleanTokens(y);
      CleanJoin(Tokens(y));
      StripPunctuationClean(Join(Tokens(y), " "));
    }
  }

  predicate NoPunct(s: string) {
    forall i :: 0 <= i < |s| ==> !IsPunct(s[i])
  }

  lemma {:induction false} CleanTokens(rows: seq<Record>)
    requires forall i :: 0 <= i < |rows| && rows[i].raw.tokenizada.Some? ==> NoPunct(rows[i].raw.tokenizada.value)
    ensures forall i :: 0 <= i < |Tokens(rows)| ==> NoPunct(Tokens(rows)[i])
  {
    if rows != [] {
      assert forall i :: 1 <= i < |rows| ==> rows[i] == rows[1..][i - 1];
      CleanTokens(rows[1..]);
    }
  }

  /** Joining punctuation-free texts with a space gives punctuation-free text. */
  lemma {:induction false} CleanJoin(ts: seq<string>)
    requires forall i :: 0 <= i < |ts| ==> NoPunct(ts[i])
    ensures NoPunct(Join(ts, " "))
  {
    if |ts| > 1 {
      assert forall i :: 1 <= i < |ts| ==> ts[i] == ts[1..][i - 1];
      CleanJoin(ts[1..]);
      var a, rest := ts[0], Join(ts[1..], " ");
      assert Join(ts, " ") == a + " " + rest;
      forall i | 0 <= i < |a + " " + rest| ensures !IsPunct((a + " " + rest)[i]) {
        if i < |a| {
          assert (a + " " + rest)[i] == a[i];
        } else if i > |a| {
          assert (a + " " + rest)[i] == rest[i - |a| - 1];
        }
      }
    }
  }

  // ---------------------------------------------------------------- map

  /** What `atualizar_mapa` draws. */
  datatype MapView =
    | SelectFilters                 // "Selecione filtros para ver o mapa."
    | NoDataForYear(ano: Option<int>) // "Nenhum dado para o ano de {ano}."
    | Choropleth(counts: seq<KeyCount>)

  /** The selected-year test, one value per year so that every use of it coincides. */
  function YearIs(ano: Option<int>): Record -> bool {
    (r: Record) => ano == Some(r.ano)
  }

  /** `dff[dff['ANO'] == ano]`; comparing with no selected year matches nothing. */
  function OfYear(rows: seq<Record>, ano: Option<int>): (r: seq<Record>)
    ensures forall x :: Count(r, x) == if ano == Some(x.ano) then Count(rows, x) else 0
    ensures IsSubseq(r, rows)
    ensures forall x :: x in r ==> x in rows
    ensures forall i :: 0 <= i < |r| ==> ano == Some(r[i].ano)
    ensures r == [] <==> forall i :: 0 <= i < |rows| ==> ano != Some(rows[i].ano)
  {
    var p := YearIs(ano);
    forall x ensures Count(Where(rows, p), x) == if p(x) then Count(rows, x) else 0 {
      WhereCount(rows, p, x);
    }
    WhereIsSubseq(rows, p);
    forall i | 0 <= i < |rows| && p(rows[i]) ensures Where(rows, p) != [] {
      assert rows[i] in rows;
      WhereMember(rows, p, rows[i]);
    }
    var r := Where(rows, p);
    assert r != [] ==> exists i :: 0 <= i < |rows| && rows[i] == r[0] by {
      if r != [] {
        assert r[0] in rows;
      }
    }
    r
  }

  /** `.str.upper()` on the keys of a count table. */
  function UpperKeys(t: seq<KeyCount>): (r: seq<KeyCount>)
    ensures |r| == |t|
    ensures forall i :: 0 <= i < |r| ==> r[i].key == Upper(t[i].key)
    ensures forall i :: 0 <= i < |r| ==> r[i].count == t[i].count && IsUpperCased(r[i].key)
    ensures (forall i :: 0 <= i < |t| ==> IsUpperCased(t[i].key)) ==> r == t
  {
    seq(|t|, i requires 0 <= i < |t| => KeyCount(Upper(t[i].key), t[i].count))
  }

  /**
   `atualizar_mapa`: per-state counts of the rows of the selected year, keyed
   by upper-cased state code in ascending order.
   */
  function MapCounts(dados: seq<Record>, ano: Option<int>): (v: MapView)
    ensures v.SelectFilters? <==> dados == []
    ensures v.NoDataForYear? <==> dados != [] && forall i :: 0 <= i < |dados| ==> ano != Some(dados[i].ano)
    ensures v.NoDataForYear? ==> v.ano == ano
    ensures v.Choropleth? ==> var col := EstadoColumn(OfYear(dados, ano));
      && (forall i :: 0 <= i < |v.counts| ==> v.counts[i].count > 0 && IsUpperCased(v.counts[i].key))
      && Total(v.counts) == NonNull(col)
  {
    if dados == [] then SelectFilters
    else
      var rows := OfYear(dados, ano);
      if rows == [] then NoDataForYear(ano)
      else
        var g := GroupCounts(EstadoColumn(rows));
        var r := UpperKeys(g);
        assert Total(r) == Total(g) by {
          TotalSameCounts(r, g);
        }
        Choropleth(r)
  }

  lemma {:induction false} TotalSameCounts(a: seq<KeyCount>, b: seq<KeyCount>)
    requires |a| == |b| && forall i :: 0 <= i < |a| ==> a[i].count == b[i].count
    ensures Total(a) == Total(b)
  {
    if a != [] {
      TotalSameCounts(a[1..], b[1..]);
    }
  }

  /**
   On prepared records, whose ESTADO is already upper-case, upper-casing the
   map keys changes nothing: the map shows the grouped counts themselves, one
   per state present in the selected year, in ascending order of state code.
   */
  lemma MapKeysAlreadyUpper(dados: seq<Record>, ano: Option<int>)
    requires forall i :: 0 <= i < |dados| ==> WellFormed(dados[i])
    ensures var v := MapCounts(dados, ano);
      v.Choropleth? ==> v.counts == GroupCounts(EstadoColumn(OfYear(dados, ano)))
  {
    var rows := OfYear(dados, ano);
    forall i | 0 <= i < |rows| ensures WellFormed(rows[i]) {
      assert rows[i] in dados;
    }
    GroupedStatesUpper(rows);
  }

  /** Grouping the states of prepared records yields upper-case keys only. */
  lemma GroupedStatesUpper(rows: seq<Record>)
    requires forall i :: 0 <= i < |rows| ==> WellFormed(rows[i])
    ensures var g := GroupCounts(EstadoColumn(rows));
      forall i :: 0 <= i < |g| ==> IsUpperCased(g[i].key)
  {
    var g := GroupCounts(EstadoColumn(rows));
    forall i | 0 <= i < |g| ensures IsUpperCased(g[i].key) {
      assert HasKey(g, g[i].key);
      var col := EstadoColumn(rows);
      assert Some(g[i].key) in col;
      var j :| 0 <= j < |col| && col[j] == Some(g[i].key);
      assert WellFormed(rows[j]);
    }
  }

  /** Rows of `dados` in year `ano` whose state is `k`, counted one by one. */
  function StatesOfYear(dados: seq<Record>, ano: Option<int>, k: string): nat {
    if dados == [] then 0
    else
      (if ano == Some(dados[0].ano) && dados[0].estado == Some(k) then 1 else 0)
      + StatesOfYear(dados[1..], ano, k)
  }

  lemma {:induction false} YearStateCount(dados: seq<Record>, ano: Option<int>, k: string)
    ensures Count(EstadoColumn(OfYear(dados, ano)), Some(k)) == StatesOfYear(dados, ano, k)
  {
    if dados != [] {
      YearStateCount(dados[1..], ano, k);
      var rest := OfYear(dados[1..], ano);
      assert OfYear(dados, ano) == if YearIs(ano)(dados[0]) then [dados[0]] + rest else rest;
      if ano == Some(dados[0].ano) {
        assert EstadoColumn([dados[0]] + rest)[1..] == EstadoColumn(rest);
      }
    }
  }

  /**
   On prepared records, the map shows each state with the number of rows of
   the selected year in that state, and shows a state iff such a row exists.
   */
  lemma MapCountsPerState(dados: seq<Record>, ano: Option<int>)
    requires forall i :: 0 <= i < |dados| ==> WellFormed(dados[i])
    ensures var v := MapCounts(dados, ano);
      v.Choropleth? ==>
        && (forall i :: 0 <= i < |v.counts| ==> v.counts[i].count == StatesOfYear(dados, ano, v.counts[i].key))
        && (forall k :: HasKey(v.counts, k) <==> StatesOfYear(dados, ano, k) > 0)
  {
    MapKeysAlreadyUpper(dados, ano);
    forall k ensures Count(EstadoColumn(OfYear(dados, ano)), Some(k)) == StatesOfYear(dados, ano, k) {
      YearStateCount(dados, ano, k);
    }
  }

  /** The map's keys are strictly ascending, hence each state appears once. */
  lemma MapKeysAscending(dados: seq<Record>, ano: Option<int>)
    requires forall i :: 0 <= i < |dados| ==> WellFormed(dados[i])
    ensures var v := MapCounts(dados, ano);
      v.Choropleth? ==> forall i, j :: 0 <= i < j < |v.counts| ==> Less(v.counts[i].key, v.counts[j].key)
  {
    MapKeysAlreadyUpper(dados, ano);
  }

  /**
   On prepared records, a map drawn from the store shows only states picked
   in the state dropdown, each counted over the rows of the selected year.
   */
  lemma MapOnlySelected(rows: seq<Record>, spec: FilterSpec, ano: Option<int>)
    requires forall i :: 0 <= i < |rows| ==> WellFormed(rows[i])
    requires Active(spec.estados)
    ensures var v := MapCounts(FilterAndStore(rows, spec), ano);
      v.Choropleth? ==> forall i :: 0 <= i < |v.counts| ==> v.counts[i].key in spec.estados.value
  {
    var d := FilterAndStore(rows, spec);
    forall i | 0 <= i < |d| ensures WellFormed(d[i]) {
      assert d[i] in d;
    }
    MapKeysAlreadyUpper(d, ano);
    var v := MapCounts(d, ano);
    if v.Choropleth? {
      GroupedStatesSelected(rows, spec, OfYear(d, ano));
    }
  }

  /** Rows drawn from a state-filtered store group only under selected states. */
  lemma GroupedStatesSelected(rows: seq<Record>, spec: FilterSpec, y: seq<Record>)
    requires Active(spec.estados)
    requires forall x :: x in y ==> x in FilterAndStore(rows, spec)
    ensures var g := GroupCounts(EstadoColumn(y));
      forall i :: 0 <= i < |g| ==> g[i].key in spec.estados.value
  {
    var g := GroupCounts(EstadoColumn(y));
    forall i | 0 <= i < |g| ensures g[i].key in spec.estados.value {
      var k := g[i].key;
      assert HasKey(g, k);
      var col := EstadoColumn(y);
      var j :| 0 <= j < |col| && col[j] == Some(k);
      assert y[j] in y;
      StoredAdmits(rows, spec, y[j]);
    }
  }
}
