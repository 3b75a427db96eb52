/** The employee table: the four canonical columns, rows of cells, the CSV
    file as the loader sees it, loading with column back-fill, and the
    record built from a form submission. */
module Records {
  import opened Strings

  datatype Option<T> = None | Some(value: T)

  /** A cell as pandas holds it: a missing value (NaN, what an empty CSV
      field reads as) or a piece of text. */
  datatype Cell = Missing | Text(s: string)

  /** COLUNAS_PADRAO, in canonical order. */
  datatype Column = Nome | Matricula | Bairro | Onibus

  const Canonical: seq<Column> := [Nome, Matricula, Bairro, Onibus]

  /** The header of a column in the CSV file. */
  function Header(c: Column): string {
    match c
    case Nome => "Nome"
    case Matricula => "Matrícula"
    case Bairro => "Bairro"
    case Onibus => "Ônibus"
  }

  /** The headers of the canonical columns. */
  const HeaderNames: set<string> := {Header(Nome), Header(Matricula), Header(Bairro), Header(Onibus)}

  /** One employee: a row holding exactly the canonical columns, in order. */
  datatype Row = Row(nome: Cell, matricula: Cell, bairro: Cell, onibus: Cell) {
    function Get(c: Column): Cell {
      match c
      case Nome => nome
      case Matricula => matricula
      case Bairro => bairro
      case Onibus => onibus
    }
  }

  type Table = seq<Row>

  /** What pd.read_csv returns: a number of rows and one column of cells per
      header found in the file (any headers, canonical or not). */
  datatype Frame = Frame(rows: nat, columns: map<string, seq<Cell>>)

  /** Every column of a frame has one cell per row. */
  predicate Rectangular(f: Frame) {
    forall h :: h in f.columns ==> |f.columns[h]| == f.rows
  }

  /** The data file as the loader finds it. */
  datatype CsvFile = Absent | Unreadable | Readable(frame: Frame)

  function Blank(n: nat): (col: seq<Cell>)
    ensures |col| == n && forall i :: 0 <= i < n ==> col[i] == Text("")
  {
    seq(n, _ => Text(""))
  }

  /** What carregar_dados promises of the table it returns: an absent or
      unreadable file gives the empty table; otherwise there is one row per
      row of the file, a canonical column found in the file keeps its cells,
      and a canonical column missing from it holds "" in every row. */
  predicate LoadedFrom(t: Table, file: CsvFile) {
    if file.Readable? then
      && Rectangular(file.frame)
      && |t| == file.frame.rows
      && forall i, c :: 0 <= i < |t| ==>
           t[i].Get(c) == if Header(c) in file.frame.columns then file.frame.columns[Header(c)][i] else Text("")
    else t == []
  }

  /** The loop of carregar_dados over COLUNAS_PADRAO: every canonical
      column missing from the frame is added, filled with ""; the columns
      already there are kept as they are. */
  method BackFill(f: Frame) returns (df: map<string, seq<Cell>>)
    requires Rectangular(f)
    ensures forall h :: h in df ==> |df[h]| == f.rows
    ensures forall h :: h in f.columns ==> h in df && df[h] == f.columns[h]
    ensures forall c :: Header(c) in df
    ensures forall c :: Header(c) !in f.columns ==> df[Header(c)] == Blank(f.rows)
    ensures df.Keys == f.columns.Keys + HeaderNames
  {
    df := f.columns;
    var k := 0;
    while k < |Canonical|
      invariant 0 <= k <= |Canonical|
      invariant forall h :: h in df ==> |df[h]| == f.rows
      invariant forall h :: h in f.columns ==> h in df && df[h] == f.columns[h]
      invariant forall h :: h in df && h !in f.columns ==> df[h] == Blank(f.rows)
      invariant forall j :: 0 <= j < k ==> Header(Canonical[j]) in df
      invariant df.Keys <= f.columns.Keys + HeaderNames
    {
      var h := Header(Canonical[k]);
      if h !in df {
        df := df[h := Blank(f.rows)];
      }
      k := k + 1;
    }
    forall c: Column
      ensures Header(c) in df
    {
      assert c == Canonical[match c case Nome => 0 case Matricula => 1 case Bairro => 2 case Onibus => 3];
    }
  }

  /** carregar_dados: adds every missing canonical column filled with "" and
      keeps exactly the canonical columns; warns only when the file exists
      but cannot be read. */
  method Load(file: CsvFile) returns (t: Table, warned: bool)
    requires file.Readable? ==> Rectangular(file.frame)
    ensures warned <==> file.Unreadable?
    ensures LoadedFrom(t, file)
  {
    match file {
      case Absent =>
        t, warned := [], false;
      case Unreadable =>
        t, warned := [], true;
      case Readable(f) =>
        var df := BackFill(f);
        t := seq(f.rows, i requires 0 <= i < f.rows =>
          Row(df[Header(Nome)][i], df[Header(Matricula)][i], df[Header(Bairro)][i], df[Header(Onibus)][i]));
        forall i, c | 0 <= i < |t|
          ensures t[i].Get(c) == if Header(c) in f.columns then f.columns[Header(c)][i] else Text("")
        {
          assert t[i].Get(c) == df[Header(c)][i];
        }
        warned := false;
    }
  }

  /** The form's check `nome and matricula and bairro and onibus`: Python
      truthiness, so only the empty string is refused. */
  predicate Accepts(nome: string, matricula: string, bairro: string, onibus: string) {
    nome != "" && matricula != "" && bairro != "" && onibus != ""
  }

  /** novo_dado: the name stripped and title-cased, the registration number
      stripped, the neighbourhood and the bus stripped and upper-cased. */
  function NewRecord(nome: string, matricula: string, bairro: string, onibus: string): Row {
    Row(Text(Title(Strip(nome))), Text(Strip(matricula)), Text(NormKey(bairro)), Text(NormKey(onibus)))
  }

  /** The stored record is already normalised: stripping it again changes
      nothing, the name is its own title case, and the neighbourhood and the
      bus are their own filter keys. */
  lemma NewRecordIsNormalised(nome: string, matricula: string, bairro: string, onibus: string)
    ensures var r := NewRecord(nome, matricula, bairro, onibus);
      && Strip(r.nome.s) == r.nome.s && Title(r.nome.s) == r.nome.s
      && Strip(r.matricula.s) == r.matricula.s
      && NormKey(r.bairro.s) == r.bairro.s
      && NormKey(r.onibus.s) == r.onibus.s
  {
    TitleOfStrippedIsStripped(nome);
    TitleIdempotent(Strip(nome));
    NormKeyIdempotent(bairro);
    NormKeyIdempotent(onibus);
  }

  /** A field made only of blanks passes the form's check and is stored as
      the empty string. */
  lemma BlankFieldIsAccepted(nome: string, matricula: string, bairro: string, onibus: string)
    requires nome != "" && matricula != "" && onibus != ""
    requires bairro != "" && AllSpace(bairro)
    ensures Accepts(nome, matricula, bairro, onibus)
    ensures NewRecord(nome, matricula, bairro, onibus).bairro == Text("")
  {
    StripAllSpace(bairro);
  }
}
