# Employee register: bus and neighbourhood (model)

This project models `onibus.py`, a Streamlit page that keeps a table of
employees: name (Nome), registration number (Matrícula), neighbourhood
(Bairro) and bus line (Ônibus). The page holds the table in a session,
loads it from a CSV file and back-fills missing columns, and appends one
normalised record per valid form submission. It offers the distinct
neighbourhoods and bus lines as filter options, shows the rows that pass
both filters, and counts employees per neighbourhood and per bus line.

The model has four modules:

- `Strings` (`strings.dfy`) models Python's `str.strip()`, `str.upper()` and `str.title()`.
  - Strip is written as CPython's two index scans.
  - Upper and title are limited to the characters the model covers (ASCII and Latin-1).
  - It also defines the ordering `sorted()` uses on `str` values and proves that ordering is a strict total order.
- `Records` (`records.dfy`) holds the data model:
  - cells, which are either a missing value (pandas NaN) or text;
  - the four canonical columns, and rows;
  - the CSV file as the loader sees it, which is absent, unreadable, or a frame of named columns;
  - `carregar_dados` as the method `Load`, with its back-fill loop `BackFill`;
  - the form's acceptance check and the record it builds.
- `Registry` (`session.dfy`) is the session state. It is a class whose field `funcionarios` is `st.session_state.funcionarios`. Its methods are:
  - `Submit`: the form's submit branch;
  - `Reload`: the reload that follows the form.

  The field `lastSaved` records the table handed to `salvar_dados`.
- `Views` (`views.dfy`) holds the pure views of the table:
  - the two option lists (`Options`);
  - the filter, as `Filter`, checked against a reference definition `SelectedRows` (the rows that pass both selections);
  - the per-column statistics (`Counts`), built like `value_counts()`: distinct keys in first-occurrence order, each with its number of occurrences, sorted by decreasing quantity.

The model follows the code in three places where it is easy to expect otherwise:

- **Whitespace-only fields are accepted.** The form's test in `onibus.py:42` is Python truthiness, so it refuses only the empty string. A field made only of blanks is accepted and stored as `""` (`Records.BlankFieldIsAccepted`), although the page's warning asks for every field to be filled in.
- **Missing cells are handled differently by options and by the other views.**
  - The option lists drop missing cells (`dropna`).
  - The filter and the statistics apply `astype(str)` to every cell, so a missing cell becomes `"nan"` and has the key `"NAN"`.
  - A missing cell therefore adds no option but is counted under `"NAN"` (`Views.MissingKeyIsNan`). `"NAN"` is offered only when some present cell normalises to it, and selecting it then also shows the rows whose cell is missing.
- **The "Todos" sentinel cannot clash with a real value.** No normalised key can equal `"Todos"`, because upper-casing leaves no `o` behind (`Views.NormKeyIsNotTodos`).

## Model

| member | source | states |
|---|---|---|
| Strings.Strip | onibus.py:44-47 | the stripped text has no whitespace at either end, and text without outer whitespace is returned unchanged |
| Strings.SkipLeft | onibus.py:44-47 | the left scan of strip stops at the first non-whitespace character and passes only whitespace |
| Strings.SkipRight | onibus.py:44-47 | the right scan of strip stops after the last non-whitespace character and passes only whitespace |
| Strings.StripSlice | onibus.py:44-47 | strip removes only whitespace and only at the two ends: the result is a slice of the input with whitespace outside it |
| Strings.StripAllSpace | onibus.py:42-47 | a field made only of whitespace strips to the empty string |
| Strings.CaseMappingFacts | onibus.py:44-47 | upper- and lower-casing one character keep whitespace and cased-ness and are idempotent |
| Strings.TitleFrom | onibus.py:44 | title case, character by character: upper-case after a non-cased character (or at the start), lower-case after a cased one |
| Strings.TitleIdempotent | onibus.py:44 | a title-cased name is its own title case |
| Strings.TitleOfStrippedIsStripped | onibus.py:44 | the stored name (strip, then title) has no outer whitespace |
| Strings.UpperKeepsOuterSpace | onibus.py:46-47 | upper-casing text without outer whitespace leaves it without outer whitespace |
| Strings.NormKeyIdempotent | onibus.py:46-47 | stripping and upper-casing a stored neighbourhood or bus line again changes nothing |
| Strings.NormKeyHasNoAsciiLower | onibus.py:70-71 | a normalised key contains no ASCII lower-case letter |
| Strings.LessIrreflexive | onibus.py:75 | no string sorts before itself |
| Strings.LessTransitive | onibus.py:75 | the ordering used by `sorted()` is transitive |
| Strings.LessTotal | onibus.py:75 | of two different strings, one sorts before the other |
| Strings.LessIsStrictTotalOrder | onibus.py:75 | the ordering used by `sorted()` is a strict total order |
| Records.BackFill | onibus.py:17-19 | every canonical column ends up present; each one missing from the file is filled with "" in every row; the file's columns are kept unchanged; no other column is added |
| Records.Load | onibus.py:13-23 | an absent or unreadable file gives the empty table, with a warning exactly when the file is unreadable; otherwise there is one row per file row, each canonical column holds the file's cells or "" when the file lacks it |
| Records.NewRecordIsNormalised | onibus.py:43-48 | the stored record is a fixed point of the normalisation: name stripped and title-cased, registration stripped, neighbourhood and bus their own keys |
| Records.BlankFieldIsAccepted | onibus.py:42-47 | a whitespace-only neighbourhood passes the check and is stored as "" |
| Registry.Session.constructor | onibus.py:30-31 | the first render loads the session table from the file, records the warning exactly when the file is unreadable, and nothing has been saved yet |
| Registry.Session.Submit | onibus.py:41-56 | a submission is registered exactly when all four fields are non-empty; it then appends exactly the normalised record at the end and saves the whole new table; otherwise table and saved state are unchanged |
| Registry.Session.Reload | onibus.py:59 | after the form the session table is what the file now holds; the warning is raised exactly for an unreadable file |
| Views.MissingKeyIsNan | onibus.py:94 | a missing cell and a cell holding "nan" both have the key "NAN" |
| Views.NormKeyIsNotTodos | onibus.py:75 | no normalised value equals the "Todos" sentinel |
| Views.Present | onibus.py:68 | dropna keeps exactly the present values |
| Views.PresentKeys | onibus.py:66-71 | a value is listed exactly when some non-missing cell of the column normalises to it |
| Views.Unique | onibus.py:72 | unique() has no duplicates and the same values as its input |
| Views.InsertSorted | onibus.py:75 | inserting a new value into a strictly sorted list keeps it strictly sorted and adds exactly that value |
| Views.SortedStrings | onibus.py:75 | sorted() of distinct values is strictly increasing and has the same values |
| Views.Options | onibus.py:66-87 | the options are "Todos" followed by a strictly sorted list holding exactly the keys of the column's non-missing cells |
| Views.TodosIsNotAValue | onibus.py:75 | "Todos" never appears among the real options |
| Views.Where | onibus.py:93-95 | a boolean mask gives a subsequence of the table (table order kept) whose rows are exactly the accepted ones |
| Views.WhereMultiset | onibus.py:93-95 | every accepted row is kept as many times as the table holds it, and no rejected row at all; with the subsequence property of Views.Where this fixes the view completely |
| Views.WhereAppend | onibus.py:93-95 | masking a concatenation is the concatenation of the masked parts |
| Views.WhereAppendKept | onibus.py:93-95 | a row the mask accepts, appended at the end, comes out at the end |
| Views.WhereWhere | onibus.py:92-100 | two masks applied in turn keep the rows both accept |
| Views.WhereEverything | onibus.py:90 | a mask accepting every row keeps the whole table |
| Views.WhereSameMask | onibus.py:92-100 | masks that agree on every row keep the same rows |
| Views.Filter | onibus.py:90-100 | the filtered view is exactly the rows passing both selections, in order; with both set to "Todos" it is the whole table |
| Views.FilterIsConjunction | onibus.py:90-100 | the Bairro mask then the Ônibus mask select the same rows as the conjunction of the two selections |
| Views.NewRecordMatchesItsOwnFilter | onibus.py:92-100 | a newly entered record, filtered by its own neighbourhood or bus line (or "Todos"), appears at the end of the view after the rows already shown |
| Views.OptionsSelectSomething | onibus.py:66-100 | every real option of either filter selects at least one row |
| Views.OptionWitness | onibus.py:66-75 | every real option is the key of some row's cell |
| Views.RowInFilter | onibus.py:92-100 | a row that passes both selections makes the view non-empty |
| Views.InsertByQuantity | onibus.py:134 | inserting one count line keeps the other lines and adds its quantity to the total |
| Views.InsertAtMost | onibus.py:134 | inserting keeps every quantity under a common bound |
| Views.InsertKeepsOrder | onibus.py:134 | inserting into a list sorted by decreasing quantity keeps it sorted |
| Views.InsertKeyAbsent | onibus.py:134 | inserting a line with another key does not introduce the absent key |
| Views.InsertKeepsKeysDistinct | onibus.py:134 | inserting a line with a new key keeps the keys distinct |
| Views.ByQuantity | onibus.py:134 | the sort of value_counts keeps the same lines and total, orders them by decreasing quantity, and keeps distinct keys distinct |
| Views.OccurrencesPositive | onibus.py:134 | a key occurs at least once exactly when it is in the column |
| Views.OccurrencesAppend | onibus.py:134 | one more key adds one occurrence of itself and none of any other key |
| Views.TotalAppend | onibus.py:134 | the total of a list with one more line grows by that line's quantity |
| Views.TallyAddKey | onibus.py:134 | one more key adds one to the tally of the distinct keys exactly when the key is among them |
| Views.TallyTotal | onibus.py:134 | the quantities of the distinct keys add up to the number of keys |
| Views.ValueCountsReport | onibus.py:129-137 | value_counts has one line per distinct key, each quantity is the number of occurrences (at least one), lines are in decreasing quantity, and the quantities add up to the column length |
| Views.ValueCountsEntry | onibus.py:134 | each line names a key of the column with its number of occurrences |
| Views.ValueCountsHasKey | onibus.py:134 | every key of the column has a line |
| Views.CountIsFilteredRows | onibus.py:129-137 | the number of occurrences of a key in a column is the number of rows the filter on that key shows |
| Views.OccurrencesAreMatches | onibus.py:129-137 | when the i-th key is k exactly when the mask accepts the i-th row, the occurrences of k equal the rows kept |
| Views.CountsReport | onibus.py:129-150 | the statistics table of a column has distinct keys in decreasing quantity; each quantity is the number of rows the filter on that key shows; every row's key is listed; the quantities add up to the number of rows |

## Left out

- The Streamlit user interface is not modelled: page setup, titles, widgets, columns, `st.dataframe`, success and warning messages. The warnings appear only as the `Incomplete` outcome and the `warned` flag.
- The file system and CSV parsing are abstracted:
  - `os.path.exists` and `pd.read_csv` become a parameter with three cases: absent, unreadable, or readable with the frame of named columns it yields;
  - pandas type inference (e.g. a bus line read back as a number, or `101.0` next to a NaN) is not modelled, and cells are text or missing;
  - `salvar_dados` (onibus.py:26-27) is modelled only as the `lastSaved` field, and the CSV write and its round trip through `read_csv` are not modelled.
- The display copy that converts Matrícula and Ônibus to text (onibus.py:106-110) is not modelled; it does not change the rows shown.
- The CSV download (onibus.py:113-119) is not modelled; it serialises the filtered view, which `Views.Filter` models.
- Concurrency is not modelled, and neither is session persistence across Streamlit reruns beyond the single `Session` object.
- Strings.UpperChar does not model case mappings outside Latin-1. Characters above U+00FF are treated as uncased and unchanged. ß, ÿ and µ, whose Python upper case is two characters or lies outside Latin-1, are left unchanged. `upper()` and `title()` therefore differ from Python on such text.
- Strings.LowerChar does not model lower-case mappings outside Latin-1, for the same reason.
- Views.AsStr follows pandas 2, where `astype(str)` turns a missing value into `"nan"`. Under pandas 3's default string dtype a missing value stays missing, `value_counts()` drops it and the filter never matches it; the model does not cover that behaviour, and `Views.CountsReport`'s total of one count per row would not hold there.
- Views.ByQuantity orders equal quantities by first occurrence. pandas does not document the order of ties in `value_counts()`.
- `rename_axis` and `reset_index` (onibus.py:135-136, 148-149) only name the two columns of the statistics table. They appear as the `key` and `quantity` fields of `Count`.
