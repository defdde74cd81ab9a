/**
 The complaint table as loaded by `load_and_prepare_data`: each CSV row gets
 the derived columns ANO (year of TEMPO), ESTADO (state code taken from
 LOCAL) and TAMANHO_TEXTO (word count of DESCRICAO), and the dropdown option
 lists are the sorted distinct states and statuses.
 */
module Records {
  import opened Optional
  import opened Sequences
  import opened Text
  import opened Order
  import opened Calendar

  /** One CSV row, reduced to the columns the dashboard reads; a missing cell is `None`. */
  datatype RawRow = RawRow(
    tempo: Date,               // TEMPO, already parsed
    data: Date,                // DATA, already parsed (the time series buckets by it)
    local: Option<string>,     // LOCAL, e.g. "Recife - PE"
    descricao: Option<string>, // DESCRICAO
    status: Option<string>,    // STATUS
    tokenizada: Option<string> // DESCRICAO_TOKENIZADA
  )

  /** A row of the prepared data frame: the raw row plus its derived columns. */
  datatype Record = Record(raw: RawRow, ano: int, estado: Option<string>, tamanho: nat)

  /** What the location column is split on. */
  const Separator: string := " - "

  /** What `astype(str)` makes of a missing cell. */
  const MissingText: string := "nan"

  /** `astype(str)` on a text cell: present text is kept, a missing cell reads as "nan". */
  function AsText(cell: Option<string>): (t: string)
    ensures cell == Some(t) || (cell.None? && t == MissingText)
  {
    cell.GetOr(MissingText)
  }

  /**
   `astype(str)` loses only one distinction: a missing cell and the literal
   text "nan" read alike; any two other cells keep apart.
   */
  lemma AsTextCollision(a: Option<string>, b: Option<string>)
    ensures AsText(a) == AsText(b) <==>
      a == b || (a.None? && b == Some(MissingText)) || (b.None? && a == Some(MissingText))
  {
  }

  /** ESTADO: `LOCAL.str.split(' - ').str[-1].str.strip().str.upper()`; missing stays missing. */
  function EstadoOf(local: Option<string>): (e: Option<string>)
    ensures e.None? <==> local.None?
    ensures e.Some? ==> IsStripped(e.value) && IsUpperCased(e.value)
  {
    match local
    case None => None
    case Some(l) =>
      var s := Strip(LastPiece(l, Separator));
      UpperKeepsStripped(s);
      Some(Upper(s))
  }

  /** TAMANHO_TEXTO: `DESCRICAO.astype(str).str.split().str.len()`. */
  function TextLength(descricao: Option<string>): (n: nat)
    ensures n == WordStarts(AsText(descricao), true)
  {
    WordsCount(AsText(descricao));
    |Words(AsText(descricao))|
  }

  /** The derived columns of one row; the raw columns are kept as they are. */
  function Derive(raw: RawRow): (r: Record)
    ensures r.raw == raw
    ensures r.ano == raw.tempo.year
    ensures r.estado == EstadoOf(raw.local)
    ensures r.tamanho == TextLength(raw.descricao)
    ensures r.estado.None? <==> raw.local.None?
    ensures r.estado.Some? ==> IsStripped(r.estado.value) && IsUpperCased(r.estado.value)
    ensures r.tamanho == WordStarts(AsText(raw.descricao), true)
  {
    WordsCount(AsText(raw.descricao));
    Record(raw, raw.tempo.year, EstadoOf(raw.local), TextLength(raw.descricao))
  }

  /** The state code of a record is already stripped and upper-case. */
  predicate WellFormed(r: Record) {
    r.estado.Some? ==> IsStripped(r.estado.value) && IsUpperCased(r.estado.value)
  }

  /**
   ESTADO is the text after the last separator found scanning left to right
   (the whole of LOCAL when there is none), stripped and upper-cased.
   */
  lemma EstadoShape(l: string)
    ensures var p := LastPiece(l, Separator);
      && EstadoOf(Some(l)) == Some(Upper(Strip(p)))
      && IsSuffix(p, l) && !Contains(p, Separator)
      && (Contains(l, Separator) ==> SepBefore(p, l, Separator))
      && (!Contains(l, Separator) ==> p == l)
  {
  }

  /** Without a separator in LOCAL, ESTADO is all of LOCAL, stripped and upper-cased. */
  lemma EstadoWithoutSeparator(l: string)
    requires !Contains(l, Separator)
    ensures EstadoOf(Some(l)) == Some(Upper(Strip(l)))
  {
  }

  /** A slice of a text without the separator has no separator either. */
  lemma SliceWithout(s: string, sep: string, i: int, j: int)
    requires 0 <= i <= j <= |s| && !Contains(s, sep)
    ensures !Contains(s[i..j], sep)
  {
    forall k | 0 <= k <= j - i && OccursAt(s[i..j], sep, k) ensures OccursAt(s, sep, i + k) {
      SliceOccurrence(s, sep, i, j, k);
    }
  }

  /** An occurrence inside a slice is an occurrence in the whole text. */
  lemma SliceOccurrence(s: string, sep: string, i: int, j: int, k: int)
    requires 0 <= i <= j <= |s| && OccursAt(s[i..j], sep, k)
    ensures OccursAt(s, sep, i + k)
  {
    var t := s[i..j];
    forall m | 0 <= m < |sep| ensures s[i + k + m] == sep[m] {
      assert t[k..k + |sep|][m] == sep[m];
      assert t[k + m] == s[i + k + m];
    }
    assert s[i + k..i + k + |sep|] == sep;
  }

  /** Upper-casing cannot create the separator " - ", whose characters are not letters. */
  lemma UpperWithout(s: string)
    requires !Contains(s, Separator)
    ensures !Contains(Upper(s), Separator)
  {
    forall k | 0 <= k <= |Upper(s)| && OccursAt(Upper(s), Separator, k) ensures OccursAt(s, Separator, k) {
      UpperOccurrence(s, k);
    }
  }

  /** Where the upper-cased text shows the separator, the original text shows it too. */
  lemma UpperOccurrence(s: string, k: int)
    requires OccursAt(Upper(s), Separator, k)
    ensures OccursAt(s, Separator, k)
  {
    var u := Upper(s);
    assert u[k..k + 3] == Separator;
    assert u[k] == ' ' && u[k + 1] == '-' && u[k + 2] == ' ';
    assert s[k..k + 3] == Separator;
  }

  /** Deriving ESTADO from an ESTADO value gives it back: the derivation is idempotent. */
  lemma EstadoIdempotent(local: Option<string>)
    ensures EstadoOf(EstadoOf(local)) == EstadoOf(local)
  {
    if local.Some? {
      EstadoWithout(local.value);
      EstadoOfClean(EstadoOf(local).value);
    }
  }

  /** A state code has no separator in it. */
  lemma EstadoWithout(l: string)
    ensures !Contains(EstadoOf(Some(l)).value, Separator)
  {
    var p := LastPiece(l, Separator);
    StripWithout(p);
    UpperWithout(Strip(p));
  }

  /** Stripping cannot create a separator. */
  lemma StripWithout(p: string)
    requires !Contains(p, Separator)
    ensures !Contains(Strip(p), Separator)
  {
    var q := TrimStart(p);
    assert q == p[|p| - |q|..|p|];
    SliceWithout(p, Separator, |p| - |q|, |p|);
    var r := TrimEnd(q);
    assert r == q[0..|r|];
    SliceWithout(q, Separator, 0, |r|);
  }

  /** Stripped, upper-case text without a separator is its own state code. */
  lemma EstadoOfClean(e: string)
    requires IsStripped(e) && IsUpperCased(e) && !Contains(e, Separator)
    ensures EstadoOf(Some(e)) == Some(e)
  {
    assert LastPiece(e, Separator) == e;
    StripIdempotent(e);
  }

  /** Blank DESCRICAO has length 0; a missing one reads as "nan", one word. */
  lemma TextLengthBlank(descricao: Option<string>)
    ensures descricao.None? ==> TextLength(descricao) == 1
    ensures descricao.Some? ==> (TextLength(descricao) == 0 <==> AllSpace(descricao.value))
  {
    WordsBlank(AsText(descricao));
    if descricao.None? {
      WordsCount(MissingText);
    }
  }

  function EstadoColumn(rows: seq<Record>): (c: seq<Option<string>>)
    ensures |c| == |rows| && forall i :: 0 <= i < |rows| ==> c[i] == rows[i].estado
  {
    seq(|rows|, i requires 0 <= i < |rows| => rows[i].estado)
  }

  function StatusColumn(rows: seq<Record>): (c: seq<Option<string>>)
    ensures |c| == |rows| && forall i :: 0 <= i < |rows| ==> c[i] == rows[i].raw.status
  {
    seq(|rows|, i requires 0 <= i < |rows| => rows[i].raw.status)
  }

  function TokenColumn(rows: seq<Record>): (c: seq<Option<string>>)
    ensures |c| == |rows| && forall i :: 0 <= i < |rows| ==> c[i] == rows[i].raw.tokenizada
  {
    seq(|rows|, i requires 0 <= i < |rows| => rows[i].raw.tokenizada)
  }

  /** The DESCRICAO cells as text, in row order. */
  function DescricaoTexts(rows: seq<Record>): (ts: seq<string>)
    ensures |ts| == |rows| && forall i :: 0 <= i < |rows| ==> ts[i] == AsText(rows[i].raw.descricao)
  {
    seq(|rows|, i requires 0 <= i < |rows| => AsText(rows[i].raw.descricao))
  }

  /** The text of the start-up word cloud: every DESCRICAO, as text, joined by single spaces. */
  function CorpusText(rows: seq<Record>): (t: string)
    ensures |Words(t)| == WordTotal(DescricaoTexts(rows))
    ensures rows != [] ==> |t| + 1 == TotalLength(DescricaoTexts(rows)) + |rows|
  {
    WordsJoin(DescricaoTexts(rows));
    Join(DescricaoTexts(rows), " ")
  }

  /** Sum of the TAMANHO_TEXTO column. */
  function LengthTotal(rows: seq<Record>): nat {
    if rows == [] then 0 else rows[0].tamanho + LengthTotal(rows[1..])
  }

  /**
   The start-up word-cloud text holds exactly as many words as the
   TAMANHO_TEXTO column adds up to, on any table of derived rows.
   */
  lemma {:induction false} CorpusWordCount(rows: seq<Record>)
    requires forall i :: 0 <= i < |rows| ==> rows[i].tamanho == TextLength(rows[i].raw.descricao)
    ensures |Words(CorpusText(rows))| == LengthTotal(rows)
  {
    WordsJoin(DescricaoTexts(rows));
    TotalOfTexts(rows);
  }

  lemma {:induction false} TotalOfTexts(rows: seq<Record>)
    requires forall i :: 0 <= i < |rows| ==> rows[i].tamanho == TextLength(rows[i].raw.descricao)
    ensures WordTotal(DescricaoTexts(rows)) == LengthTotal(rows)
  {
    if rows != [] {
      TotalOfTexts(rows[1..]);
      assert DescricaoTexts(rows)[1..] == DescricaoTexts(rows[1..]);
    }
  }

  /** What `load_and_prepare_data` returns, without the word-cloud image. */
  datatype Prepared = Prepared(df: seq<Record>, listaEstados: seq<string>, listaStatus: seq<string>)

  /** Derives every row, in order, and builds the two option lists. */
  function Prepare(rows: seq<RawRow>): (p: Prepared)
    ensures |p.df| == |rows|
    ensures forall i :: 0 <= i < |rows| ==> p.df[i] == Derive(rows[i]) && WellFormed(p.df[i])
    ensures StrictlyAscending(p.listaEstados)
    ensures forall x :: x in p.listaEstados <==> Some(x) in EstadoColumn(p.df)
    ensures StrictlyAscending(p.listaStatus)
    ensures forall x :: x in p.listaStatus <==> Some(x) in StatusColumn(p.df)
  {
    var df := seq(|rows|, i requires 0 <= i < |rows| => Derive(rows[i]));
    Prepared(df, SortedDistinct(EstadoColumn(df)), SortedDistinct(StatusColumn(df)))
  }
}
