/** The page's session state: st.session_state.funcionarios, the table the
    form appends to and that is reloaded from the data file. */
module Registry {
  import opened Records

  /** What the submit branch reports: success, or the warning asking for
      every field. */
  datatype Submission = Registered | Incomplete

  class Session {
    /** st.session_state.funcionarios */
    var funcionarios: Table
    /** The table last handed to salvar_dados, if any. */
    var lastSaved: Option<Table>
    /** Whether the last load showed the warning about an unreadable file. */
    var warned: bool

    /** First render: the session table is loaded from the data file. */
    constructor (file: CsvFile)
      requires file.Readable? ==> Rectangular(file.frame)
      ensures LoadedFrom(funcionarios, file)
      ensures warned <==> file.Unreadable?
      ensures lastSaved == None
    {
      var t, w := Load(file);
      funcionarios := t;
      warned := w;
      lastSaved := None;
    }

    /** The form's submit branch: with every field non-empty, one normalised
        record is appended at the end and the whole table is saved;
        otherwise nothing changes and the warning is reported. */
    method Submit(nome: string, matricula: string, bairro: string, onibus: string) returns (outcome: Submission)
      modifies this
      ensures outcome == Registered <==> Accepts(nome, matricula, bairro, onibus)
      ensures outcome == Registered ==>
        && funcionarios == old(funcionarios) + [NewRecord(nome, matricula, bairro, onibus)]
        && lastSaved == Some(funcionarios)
      ensures outcome == Incomplete ==>
        funcionarios == old(funcionarios) && lastSaved == old(lastSaved)
      ensures warned == old(warned)
    {
      if Accepts(nome, matricula, bairro, onibus) {
        funcionarios := funcionarios + [NewRecord(nome, matricula, bairro, onibus)];
        lastSaved := Some(funcionarios);
        outcome := Registered;
      } else {
        outcome := Incomplete;
      }
    }

    /** The reload after the form: the session table becomes what the data
        file now holds; the warning flag is the loader's, kept in warned. */
    method Reload(file: CsvFile) returns (w: bool)
      requires file.Readable? ==> Rectangular(file.frame)
      modifies this`funcionarios, this`warned
      ensures w == warned
      ensures warned <==> file.Unreadable?
      ensures LoadedFrom(funcionarios, file)
    {
      funcionarios, warned := Load(file);
      w := warned;
    }
  }
}
