/** What the page derives from the session table: the option lists of the
    two filters, the filtered view, and the per-Bairro and per-Ônibus
    counts. */
module Views {
  import opened Strings
  import opened Records

  /** The option that switches a filter off. */
  const Todos: string := "Todos"

  /** .astype(str) of a cell: pandas writes a missing value as "nan". */
  function AsStr(c: Cell): string {
    match c
    case Missing => "nan"
    case Text(s) => s
  }

  /** What a cell is filtered and counted by: .astype(str).str.strip().str.upper(). */
  function Key(c: Cell): string {
    NormKey(AsStr(c))
  }

  /** No normalised value can be mistaken for the sentinel: its second
      letter is a lower-case 'o', which upper() never leaves behind. */
  lemma NormKeyIsNotTodos(s: string)
    ensures NormKey(s) != Todos
  {
    var k := NormKey(s);
    NormKeyHasNoAsciiLower(s);
    if |k| == |Todos| {
      assert k[1] != Todos[1];
    }
  }

  /** astype(str) turns a missing cell into "nan", so its key is "NAN":
      the same key as a present cell holding "nan". */
  lemma MissingKeyIsNan()
    ensures Key(Missing) == "NAN" && Key(Text("nan")) == "NAN"
  {
    assert Strip("nan") == "nan";
  }

  // ---------------------------------------------------------------------
  // Filter options

  predicate Distinct<T(==)>(s: seq<T>) {
    forall i, j :: 0 <= i < j < |s| ==> s[i] != s[j]
  }

  /** The key of every cell of the column, None for a missing cell. */
  function CellKeys(t: Table, col: Column): seq<Option<string>> {
    seq(|t|, i requires 0 <= i < |t| => if t[i].Get(col).Text? then Some(NormKey(t[i].Get(col).s)) else None)
  }

  /** .dropna(): the present values, in order. */
  function Present(m: seq<Option<string>>): (ks: seq<string>)
    ensures forall v :: v in ks <==> Some(v) in m
  {
    if m == [] then []
    else
      assert forall o :: o in m <==> o == m[0] || o in m[1..];
      (if m[0].Some? then [m[0].value] else []) + Present(m[1..])
  }

  /** .dropna().astype(str).str.strip().str.upper(): the key of every
      non-missing cell of the column, in row order. */
  function PresentKeys(t: Table, col: Column): (ks: seq<string>)
    ensures forall v :: v in ks <==>
      exists i :: 0 <= i < |t| && t[i].Get(col).Text? && NormKey(t[i].Get(col).s) == v
  {
    var m := CellKeys(t, col);
    assert forall v :: Some(v) in m <==>
      exists i :: 0 <= i < |t| && t[i].Get(col).Text? && NormKey(t[i].Get(col).s) == v
    by {
      forall v | Some(v) in m
        ensures exists i :: 0 <= i < |t| && t[i].Get(col).Text? && NormKey(t[i].Get(col).s) == v
      {
        var i :| 0 <= i < |m| && m[i] == Some(v);
      }
      forall v | exists i :: 0 <= i < |t| && t[i].Get(col).Text? && NormKey(t[i].Get(col).s) == v
        ensures Some(v) in m
      {
        var i :| 0 <= i < |t| && t[i].Get(col).Text? && NormKey(t[i].Get(col).s) == v;
        assert m[i] == Some(v);
      }
    }
    Present(m)
  }

  /** .unique(): the distinct values, in order of first occurrence. */
  function Unique(s: seq<string>): (u: seq<string>)
    ensures Distinct(u)
    ensures forall x :: x in u <==> x in s
  {
    if s == [] then []
    else
      var u := Unique(s[..|s| - 1]);
      assert forall x :: x in s <==> x in s[..|s| - 1] || x == s[|s| - 1];
      if s[|s| - 1] in u then u else u + [s[|s| - 1]]
  }

  predicate StrictlySorted(s: seq<string>) {
    forall i, j :: 0 <= i < j < |s| ==> Less(s[i], s[j])
  }

  function InsertSorted(x: string, s: seq<string>): (r: seq<string>)
    requires StrictlySorted(s) && x !in s
    ensures StrictlySorted(r)
    ensures forall y :: y in r <==> y == x || y in s
  {
    LessIsStrictTotalOrder();
    if s == [] then [x]
    else if Less(x, s[0]) then
      assert forall j :: 0 < j < |s| ==> Less(s[0], s[j]);
      [x] + s
    else
      var rest := InsertSorted(x, s[1..]);
      assert Less(s[0], x);
      assert forall y :: y in s[1..] ==> Less(s[0], y);
      assert forall j :: 0 <= j < |rest| ==> rest[j] in rest;
      assert forall y :: y in s <==> y == s[0] || y in s[1..];
      [s[0]] + rest
  }

  /** sorted() of distinct values: the same values, strictly increasing. */
  function SortedStrings(s: seq<string>): (r: seq<string>)
    requires Distinct(s)
    ensures StrictlySorted(r)
    ensures forall y :: y in r <==> y in s
  {
    if s == [] then []
    else
      assert forall j :: 0 < j < |s| ==> s[j] == s[1..][j - 1];
      InsertSorted(s[0], SortedStrings(s[1..]))
  }

  /** The options of a filter's selectbox: "Todos" followed by the sorted
      distinct keys of the column's non-missing cells. */
  function Options(t: Table, col: Column): (o: seq<string>)
    ensures |o| >= 1 && o[0] == Todos
    ensures StrictlySorted(o[1..])
    ensures forall v :: v in o[1..] <==>
      exists i :: 0 <= i < |t| && t[i].Get(col).Text? && NormKey(t[i].Get(col).s) == v
  {
    var values := SortedStrings(Unique(PresentKeys(t, col)));
    assert ([Todos] + values)[1..] == values;
    [Todos] + values
  }

  /** The sentinel never appears again among the real options. */
  lemma TodosIsNotAValue(t: Table, col: Column)
    ensures Todos !in Options(t, col)[1..]
  {
    var o := Options(t, col);
    if Todos in o[1..] {
      var i :| 0 <= i < |t| && t[i].Get(col).Text? && NormKey(t[i].Get(col).s) == Todos;
      NormKeyIsNotTodos(t[i].Get(col).s);
    }
  }

  // ---------------------------------------------------------------------
  // Filtering

  /** a is a subsequence of b: b with some elements left out, order kept. */
  predicate IsSubsequence<T(==)>(a: seq<T>, b: seq<T>)
    decreases |b|
  {
    || a == []
    || (b != [] && ((a[0] == b[0] && IsSubsequence(a[1..], b[1..])) || IsSubsequence(a, b[1..])))
  }

  /** df[mask]: the rows for which keep holds, in table order. */
  function Where(t: Table, keep: Row -> bool): (v: Table)
    ensures IsSubsequence(v, t)
    ensures forall r :: r in v <==> r in t && keep(r)
  {
    if t == [] then []
    else
      var rest := Where(t[1..], keep);
      assert forall r :: r in t <==> r == t[0] || r in t[1..];
      if keep(t[0]) then
        assert ([t[0]] + rest)[1..] == rest;
        [t[0]] + rest
      else rest
  }

  /** df[mask] keeps every accepted row as many times as the table holds
      it, and no rejected row at all. */
  lemma {:induction false} WhereMultiset(t: Table, keep: Row -> bool)
    ensures forall r :: multiset(Where(t, keep))[r] == if keep(r) then multiset(t)[r] else 0
  {
    if t != [] {
      WhereMultiset(t[1..], keep);
      assert t == [t[0]] + t[1..];
      assert multiset(t) == multiset{t[0]} + multiset(t[1..]);
    }
  }

  lemma {:induction false} WhereAppend(a: Table, b: Table, keep: Row -> bool)
    ensures Where(a + b, keep) == Where(a, keep) + Where(b, keep)
  {
    if a != [] {
      assert (a + b)[0] == a[0];
      assert (a + b)[1..] == a[1..] + b;
      WhereAppend(a[1..], b, keep);
    } else {
      assert a + b == b;
    }
  }

  /** A row the mask accepts, added at the end, comes out at the end. */
  lemma WhereAppendKept(t: Table, r: Row, keep: Row -> bool)
    requires keep(r)
    ensures Where(t + [r], keep) == Where(t, keep) + [r]
  {
    WhereAppend(t, [r], keep);
    assert Where([r], keep) == [r];
  }

  /** Two masks applied one after the other keep the rows both accept. */
  lemma {:induction false} WhereWhere(t: Table, p: Row -> bool, q: Row -> bool, both: Row -> bool)
    requires forall r :: both(r) == (p(r) && q(r))
    ensures Where(Where(t, p), q) == Where(t, both)
  {
    if t != [] {
      WhereWhere(t[1..], p, q, both);
      var rest := Where(t[1..], p);
      if p(t[0]) {
        assert ([t[0]] + rest)[1..] == rest;
      }
    }
  }

  /** A mask that accepts every row keeps the whole table. */
  lemma {:induction false} WhereEverything(t: Table, keep: Row -> bool)
    requires forall r :: keep(r)
    ensures Where(t, keep) == t
  {
    if t != [] {
      WhereEverything(t[1..], keep);
    }
  }

  /** Two masks that agree on every row keep the same rows. */
  lemma {:induction false} WhereSameMask(t: Table, p: Row -> bool, q: Row -> bool)
    requires forall r :: p(r) == q(r)
    ensures Where(t, p) == Where(t, q)
  {
    if t != [] {
      WhereSameMask(t[1..], p, q);
    }
  }

  /** The mask of one filter: the key of the row's cell in column col is sel. */
  function KeyIs(col: Column, sel: string): Row -> bool {
    (r: Row) => Key(r.Get(col)) == sel
  }

  /** A row passes both selections; "Todos" lets every row through. */
  predicate Selected(r: Row, bairroSel: string, onibusSel: string) {
    && (bairroSel == Todos || Key(r.bairro) == bairroSel)
    && (onibusSel == Todos || Key(r.onibus) == onibusSel)
  }

  /** Reference definition of the filtered view: exactly the rows that pass
      both selections, in table order. */
  function SelectedRows(t: Table, bairroSel: string, onibusSel: string): Table {
    Where(t, Selection(bairroSel, onibusSel))
  }

  function Selection(bairroSel: string, onibusSel: string): Row -> bool {
    (r: Row) => Selected(r, bairroSel, onibusSel)
  }

  /** df_filtrado: the Bairro mask unless the Bairro selection is "Todos",
      then the Ônibus mask unless the Ônibus selection is "Todos". */
  function Filter(t: Table, bairroSel: string, onibusSel: string): (v: Table)
    ensures v == SelectedRows(t, bairroSel, onibusSel)
    ensures bairroSel == Todos && onibusSel == Todos ==> v == t
  {
    FilterIsConjunction(t, bairroSel, onibusSel);
    var byBairro := if bairroSel != Todos then Where(t, KeyIs(Bairro, bairroSel)) else t;
    if onibusSel != Todos then Where(byBairro, KeyIs(Onibus, onibusSel)) else byBairro
  }

  /** The two masks applied in turn select exactly the rows that pass both
      selections. */
  lemma FilterIsConjunction(t: Table, bairroSel: string, onibusSel: string)
    ensures SelectedRows(t, bairroSel, onibusSel) ==
      var byBairro := if bairroSel != Todos then Where(t, KeyIs(Bairro, bairroSel)) else t;
      if onibusSel != Todos then Where(byBairro, KeyIs(Onibus, onibusSel)) else byBairro
  {
    var sel := Selection(bairroSel, onibusSel);
    if bairroSel != Todos && onibusSel != Todos {
      WhereWhere(t, KeyIs(Bairro, bairroSel), KeyIs(Onibus, onibusSel), sel);
    } else if bairroSel != Todos {
      WhereSameMask(t, KeyIs(Bairro, bairroSel), sel);
    } else if onibusSel != Todos {
      WhereSameMask(t, KeyIs(Onibus, onibusSel), sel);
    } else {
      WhereEverything(t, sel);
    }
  }

  /** A record entered through the form is found again by the filter set to
      its own Bairro and/or Ônibus: it comes out at the end of the view,
      after the rows that were already there. */
  lemma NewRecordMatchesItsOwnFilter(t: Table, nome: string, matricula: string, bairro: string, onibus: string,
                                     bairroSel: string, onibusSel: string)
    requires bairroSel == Todos || bairroSel == NewRecord(nome, matricula, bairro, onibus).bairro.s
    requires onibusSel == Todos || onibusSel == NewRecord(nome, matricula, bairro, onibus).onibus.s
    ensures var r := NewRecord(nome, matricula, bairro, onibus);
      Filter(t + [r], bairroSel, onibusSel) == Filter(t, bairroSel, onibusSel) + [r]
  {
    var r := NewRecord(nome, matricula, bairro, onibus);
    var sel := Selection(bairroSel, onibusSel);
    assert sel(r) by {
      NewRecordIsNormalised(nome, matricula, bairro, onibus);
    }
    WhereAppendKept(t, r, sel);
  }

  /** Every real option selects at least one row. */
  lemma OptionsSelectSomething(t: Table, v: string)
    ensures v in Options(t, Bairro)[1..] ==> Filter(t, v, Todos) != []
    ensures v in Options(t, Onibus)[1..] ==> Filter(t, Todos, v) != []
  {
    if v in Options(t, Bairro)[1..] {
      var i := OptionWitness(t, Bairro, v);
      RowInFilter(t, i, v, Todos);
    }
    if v in Options(t, Onibus)[1..] {
      var i := OptionWitness(t, Onibus, v);
      RowInFilter(t, i, Todos, v);
    }
  }

  lemma OptionWitness(t: Table, col: Column, v: string) returns (i: nat)
    requires v in Options(t, col)[1..]
    ensures i < |t| && Key(t[i].Get(col)) == v
  {
    var j :| 0 <= j < |t| && t[j].Get(col).Text? && NormKey(t[j].Get(col).s) == v;
    i := j;
  }

  lemma RowInFilter(t: Table, i: nat, bairroSel: string, onibusSel: string)
    requires i < |t|
    requires bairroSel == Todos || Key(t[i].Get(Bairro)) == bairroSel
    requires onibusSel == Todos || Key(t[i].Get(Onibus)) == onibusSel
    ensures Filter(t, bairroSel, onibusSel) != []
  {
    var sel := Selection(bairroSel, onibusSel);
    assert sel(t[i]) && t[i] in t;
    assert t[i] in Where(t, sel);
  }

  // ---------------------------------------------------------------------
  // Counts

  /** One line of a value_counts() table: a key and its Quantidade. */
  datatype Count = Count(key: string, quantity: nat)

  /** .astype(str).str.strip().str.upper() of a whole column: one key per
      row, missing cells included. */
  function Keys(t: Table, col: Column): seq<string> {
    seq(|t|, i requires 0 <= i < |t| => Key(t[i].Get(col)))
  }

  /** How many entries of ks are k. */
  function Occurrences(ks: seq<string>, k: string): nat {
    if ks == [] then 0 else (if ks[0] == k then 1 else 0) + Occurrences(ks[1..], k)
  }

  function Tally(u: seq<string>, ks: seq<string>): seq<Count> {
    seq(|u|, i requires 0 <= i < |u| => Count(u[i], Occurrences(ks, u[i])))
  }

  function Total(c: seq<Count>): nat {
    if c == [] then 0 else c[0].quantity + Total(c[1..])
  }

  predicate NonIncreasing(c: seq<Count>) {
    forall i, j :: 0 <= i < j < |c| ==> c[i].quantity >= c[j].quantity
  }

  predicate DistinctKeys(c: seq<Count>) {
    forall i, j :: 0 <= i < j < |c| ==> c[i].key != c[j].key
  }

  /** Inserts x before the first entry whose quantity is not larger. */
  function InsertByQuantity(x: Count, c: seq<Count>): (r: seq<Count>)
    ensures |r| == |c| + 1
    ensures forall y :: y in r <==> y == x || y in c
    ensures Total(r) == Total(c) + x.quantity
  {
    if c == [] || x.quantity >= c[0].quantity then
      assert ([x] + c)[1..] == c;
      [x] + c
    else
      var rest := InsertByQuantity(x, c[1..]);
      assert ([c[0]] + rest)[1..] == rest;
      assert forall y :: y in c <==> y == c[0] || y in c[1..];
      [c[0]] + rest
  }

  /** Every quantity in c is at most q. */
  predicate AtMost(c: seq<Count>, q: nat) {
    forall k :: 0 <= k < |c| ==> c[k].quantity <= q
  }

  lemma {:induction false} InsertAtMost(x: Count, c: seq<Count>, q: nat)
    requires AtMost(c, q) && x.quantity <= q
    ensures AtMost(InsertByQuantity(x, c), q)
  {
    if c != [] && x.quantity < c[0].quantity {
      InsertAtMost(x, c[1..], q);
      assert InsertByQuantity(x, c) == [c[0]] + InsertByQuantity(x, c[1..]);
    }
  }

  lemma {:induction false} InsertKeepsOrder(x: Count, c: seq<Count>)
    requires NonIncreasing(c)
    ensures NonIncreasing(InsertByQuantity(x, c))
  {
    if c != [] && x.quantity < c[0].quantity {
      var rest := InsertByQuantity(x, c[1..]);
      InsertKeepsOrder(x, c[1..]);
      assert AtMost(c[1..], c[0].quantity);
      InsertAtMost(x, c[1..], c[0].quantity);
      assert InsertByQuantity(x, c) == [c[0]] + rest;
    }
  }

  /** No key of c is k. */
  predicate KeyAbsent(c: seq<Count>, k: string) {
    forall j :: 0 <= j < |c| ==> c[j].key != k
  }

  lemma {:induction false} InsertKeyAbsent(x: Count, c: seq<Count>, k: string)
    requires KeyAbsent(c, k) && x.key != k
    ensures KeyAbsent(InsertByQuantity(x, c), k)
  {
    if c != [] && x.quantity < c[0].quantity {
      InsertKeyAbsent(x, c[1..], k);
      assert InsertByQuantity(x, c) == [c[0]] + InsertByQuantity(x, c[1..]);
    }
  }

  lemma {:induction false} InsertKeepsKeysDistinct(x: Count, c: seq<Count>)
    requires DistinctKeys(c) && KeyAbsent(c, x.key)
    ensures DistinctKeys(InsertByQuantity(x, c))
  {
    if c != [] && x.quantity < c[0].quantity {
      var rest := InsertByQuantity(x, c[1..]);
      InsertKeepsKeysDistinct(x, c[1..]);
      assert KeyAbsent(c[1..], c[0].key);
      InsertKeyAbsent(x, c[1..], c[0].key);
      assert InsertByQuantity(x, c) == [c[0]] + rest;
    }
  }

  /** The sort of value_counts(): quantities in decreasing order, entries
      with equal quantities kept in their first-occurrence order. */
  function ByQuantity(c: seq<Count>): (r: seq<Count>)
    ensures |r| == |c|
    ensures forall y :: y in r <==> y in c
    ensures Total(r) == Total(c)
    ensures NonIncreasing(r)
    ensures DistinctKeys(c) ==> DistinctKeys(r)
  {
    if c == [] then []
    else
      var rest := ByQuantity(c[1..]);
      assert forall y :: y in c <==> y == c[0] || y in c[1..];
      InsertKeepsOrder(c[0], rest);
      if DistinctKeys(c) then
        assert KeyAbsent(c[1..], c[0].key);
        forall j | 0 <= j < |rest|
          ensures rest[j].key != c[0].key
        {
          assert rest[j] in c[1..];
        }
        InsertKeepsKeysDistinct(c[0], rest);
        InsertByQuantity(c[0], rest)
      else
        InsertByQuantity(c[0], rest)
  }

  /** value_counts() of a column of keys. */
  function ValueCounts(ks: seq<string>): seq<Count> {
    ByQuantity(Tally(Unique(ks), ks))
  }

  /** The per-Bairro or per-Ônibus statistics table, over the whole session
      table. */
  function Counts(t: Table, col: Column): seq<Count> {
    ValueCounts(Keys(t, col))
  }

  lemma {:induction false} OccurrencesPositive(ks: seq<string>, k: string)
    ensures Occurrences(ks, k) > 0 <==> k in ks
  {
    if ks != [] {
      OccurrencesPositive(ks[1..], k);
      assert k in ks <==> k == ks[0] || k in ks[1..];
    }
  }

  lemma {:induction false} OccurrencesAppend(ks: seq<string>, x: string, k: string)
    ensures Occurrences(ks + [x], k) == Occurrences(ks, k) + if x == k then 1 else 0
  {
    if ks != [] {
      assert (ks + [x])[1..] == ks[1..] + [x];
      OccurrencesAppend(ks[1..], x, k);
    } else {
      assert ks + [x] == [x];
    }
  }

  lemma {:induction false} TotalAppend(c: seq<Count>, x: Count)
    ensures Total(c + [x]) == Total(c) + x.quantity
  {
    if c != [] {
      assert (c + [x])[1..] == c[1..] + [x];
      TotalAppend(c[1..], x);
    } else {
      assert c + [x] == [x];
    }
  }

  /** One more key adds one to the tally's total when it is among the
      tallied keys, and nothing otherwise. */
  lemma {:induction false} TallyAddKey(u: seq<string>, ks: seq<string>, x: string)
    requires Distinct(u)
    ensures Total(Tally(u, ks + [x])) == Total(Tally(u, ks)) + if x in u then 1 else 0
  {
    if u != [] {
      assert Tally(u, ks + [x])[1..] == Tally(u[1..], ks + [x]);
      assert Tally(u, ks)[1..] == Tally(u[1..], ks);
      assert x in u <==> x == u[0] || x in u[1..];
      OccurrencesAppend(ks, x, u[0]);
      TallyAddKey(u[1..], ks, x);
    }
  }

  /** The tally of the distinct keys adds up to the number of keys. */
  lemma {:induction false} TallyTotal(ks: seq<string>)
    ensures Total(Tally(Unique(ks), ks)) == |ks|
  {
    if ks != [] {
      var init, x := ks[..|ks| - 1], ks[|ks| - 1];
      assert ks == init + [x];
      var u := Unique(init);
      TallyTotal(init);
      TallyAddKey(u, init, x);
      if x !in u {
        assert Unique(ks) == u + [x];
        assert Tally(u + [x], ks) == Tally(u, ks) + [Count(x, Occurrences(ks, x))];
        TotalAppend(Tally(u, ks), Count(x, Occurrences(ks, x)));
        OccurrencesAppend(init, x, x);
        OccurrencesPositive(init, x);
      }
    }
  }

  /** value_counts(): one line per distinct key, each quantity the number
      of times its key occurs (so at least one), larger quantities first,
      and the quantities add up to the number of keys. */
  lemma ValueCountsReport(ks: seq<string>)
    ensures var c := ValueCounts(ks);
      && DistinctKeys(c)
      && NonIncreasing(c)
      && (forall i :: 0 <= i < |c| ==> c[i].quantity == Occurrences(ks, c[i].key) && c[i].quantity >= 1)
      && (forall k :: k in ks <==> exists i :: 0 <= i < |c| && c[i].key == k)
      && Total(c) == |ks|
  {
    var c := ValueCounts(ks);
    assert DistinctKeys(Tally(Unique(ks), ks));
    TallyTotal(ks);
    forall i | 0 <= i < |c|
      ensures c[i].quantity == Occurrences(ks, c[i].key) && c[i].quantity >= 1
    {
      ValueCountsEntry(ks, c[i]);
    }
    forall k | k in ks
      ensures exists i :: 0 <= i < |c| && c[i].key == k
    {
      ValueCountsHasKey(ks, k);
    }
    forall k | exists i :: 0 <= i < |c| && c[i].key == k
      ensures k in ks
    {
      var i :| 0 <= i < |c| && c[i].key == k;
      ValueCountsEntry(ks, c[i]);
    }
  }

  /** Every line of value_counts() names a key of the column with its
      number of occurrences. */
  lemma ValueCountsEntry(ks: seq<string>, y: Count)
    requires y in ValueCounts(ks)
    ensures y.key in ks && y.quantity == Occurrences(ks, y.key) && y.quantity >= 1
  {
    var u := Unique(ks);
    var tally := Tally(u, ks);
    assert y in tally;
    var j :| 0 <= j < |tally| && tally[j] == y;
    assert y.key == u[j];
    OccurrencesPositive(ks, y.key);
  }

  /** Every key of the column has its line in value_counts(). */
  lemma ValueCountsHasKey(ks: seq<string>, k: string)
    requires k in ks
    ensures exists i :: 0 <= i < |ValueCounts(ks)| && ValueCounts(ks)[i].key == k
  {
    var u := Unique(ks);
    var tally := Tally(u, ks);
    var j :| 0 <= j < |u| && u[j] == k;
    assert tally[j] in ValueCounts(ks);
  }

  /** The count reported for a key is the number of rows the filter on that
      column shows when set to that key. */
  lemma CountIsFilteredRows(t: Table, col: Column, k: string)
    ensures Occurrences(Keys(t, col), k) == |Where(t, KeyIs(col, k))|
  {
    var ks, keep := Keys(t, col), KeyIs(col, k);
    forall i | 0 <= i < |t|
      ensures (ks[i] == k) == keep(t[i])
    {
    }
    OccurrencesAreMatches(t, ks, k, keep);
  }

  /** The statistics table of a column: one line per distinct key of the
      whole session table, each line's Quantidade the number of rows the
      filter on that key shows, larger quantities first, every row counted
      once. */
  lemma CountsReport(t: Table, col: Column)
    ensures var c := Counts(t, col);
      && DistinctKeys(c)
      && NonIncreasing(c)
      && (forall i :: 0 <= i < |c| ==> c[i].quantity == |Where(t, KeyIs(col, c[i].key))| >= 1)
      && (forall j :: 0 <= j < |t| ==> exists i :: 0 <= i < |c| && c[i].key == Keys(t, col)[j])
      && Total(c) == |t|
  {
    var ks := Keys(t, col);
    var c := Counts(t, col);
    ValueCountsReport(ks);
    forall i | 0 <= i < |c|
      ensures c[i].quantity == |Where(t, KeyIs(col, c[i].key))|
    {
      CountIsFilteredRows(t, col, c[i].key);
    }
    forall j | 0 <= j < |t|
      ensures exists i :: 0 <= i < |c| && c[i].key == ks[j]
    {
      assert ks[j] in ks;
    }
  }

  /** When the i-th key is k exactly when the mask accepts the i-th row,
      the number of occurrences of k is the number of rows kept. */
  lemma {:induction false} OccurrencesAreMatches(t: Table, ks: seq<string>, k: string, keep: Row -> bool)
    requires |ks| == |t|
    requires forall i :: 0 <= i < |t| ==> (ks[i] == k) == keep(t[i])
    ensures Occurrences(ks, k) == |Where(t, keep)|
  {
    if t != [] {
      OccurrencesAreMatches(t[1..], ks[1..], k, keep);
    }
  }
}
