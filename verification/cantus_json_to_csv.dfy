/** The converter from a Cantus Index JSON export to the CSV rows the
    database upload expects: one row of 25 columns per chant that has all
    four required fields, with office, feast and genre names translated to
    their ids through lookup tables read from CSV files. Reading and writing
    files, argument parsing and logging are outside the model; the lookup
    tables arrive as the rows of their CSV files. */
module CantusCsv {
  import opened Outcomes
  import opened Dicts
  import Strings

  /** A scalar JSON value, as `json.load` produces it for a chant field. */
  datatype Json = JNull | JBool(b: bool) | JNum(n: int) | JStr(s: string)

  /** Python truthiness: `None`, `False`, `0` and `''` are false. */
  predicate Falsy(v: Json)
  {
    v == JNull || v == JBool(false) || v == JNum(0) || v == JStr("")
  }

  /** The ten chant fields the converter reads (`JSON_KEYS2CSV_KEYS`). */
  datatype Key = Incipit | Mode | Siglum | Position | Folio | Feast | Genre | Office | Fulltext | Melody

  /** The spelling of a field in the JSON export. */
  function KeyName(key: Key): string
  {
    match key
    case Incipit => "incipit"
    case Mode => "mode"
    case Siglum => "siglum"
    case Position => "position"
    case Folio => "folio"
    case Feast => "feast"
    case Genre => "genre"
    case Office => "office"
    case Fulltext => "fulltext"
    case Melody => "melody"
  }

  /** A chant object (`item['chant']`) as the converter sees it: the value
      under each field name it reads, `None` where that name is absent. */
  type Fields = Key -> Option<Json>

  /** The fields of a chant object, or `None` when the item has no `chant`
      key. */
  type Chant = Option<Fields>

  /** The view of a parsed JSON object through its field names. */
  function FieldsOf(obj: Dict<string, Json>): (r: Fields)
    ensures forall key :: r(key) == Get(obj, KeyName(key))
  {
    key => Get(obj, KeyName(key))
  }

  /** The number of CSV columns. */
  const Columns: nat := 25

  /** `CSV_KEYS[k]`. */
  function CsvKey(k: nat): string
    requires k < Columns
  {
    match k
    case 0 => "id"
    case 1 => "corpus_id"
    case 2 => "incipit"
    case 3 => "cantus_id"
    case 4 => "mode"
    case 5 => "finalis"
    case 6 => "differentia"
    case 7 => "siglum"
    case 8 => "position"
    case 9 => "folio"
    case 10 => "sequence"
    case 11 => "marginalia"
    case 12 => "cao_concordances"
    case 13 => "feast_id"
    case 14 => "genre_id"
    case 15 => "office_id"
    case 16 => "source_id"
    case 17 => "melody_id"
    case 18 => "drupal_path"
    case 19 => "full_text"
    case 20 => "full_text_manuscript"
    case 21 => "volpiano"
    case 22 => "notes"
    case 23 => "dataset_name"
    case _ => "dataset_idx"
  }

  /** The JSON field that fills column `k` (`CSV_KEYS2JSON_KEYS`), if any. */
  function JsonKey(k: nat): Option<Key>
  {
    match k
    case 2 => Some(Incipit)
    case 4 => Some(Mode)
    case 7 => Some(Siglum)
    case 8 => Some(Position)
    case 9 => Some(Folio)
    case 13 => Some(Feast)
    case 14 => Some(Genre)
    case 15 => Some(Office)
    case 19 => Some(Fulltext)
    case 21 => Some(Melody)
    case _ => None
  }

  /** The columns that must hold a true value (`REQUIRED_NONNULL_CSV_KEYS`):
      incipit, siglum, full text and volpiano. */
  predicate Required(k: nat)
  {
    k == 2 || k == 7 || k == 19 || k == 21
  }

  /** The id-to-name tables read from `office.csv`, `feast.csv` and
      `genre.csv`. */
  datatype Tables = Tables(office: Dict<string, string>, feast: Dict<string, string>, genre: Dict<string, string>)

  /** The table that translates column `k`, if it needs one. */
  function TableFor(tables: Tables, k: nat): Option<Dict<string, string>>
  {
    if k == 13 then Some(tables.feast)
    else if k == 14 then Some(tables.genre)
    else if k == 15 then Some(tables.office)
    else None
  }

  /** `json_item['chant'][key]`; `None` is the `KeyError`. */
  function Field(chant: Chant, key: Key): Option<Json>
  {
    if chant.None? then None else chant.value(key)
  }

  /** An unmapped column: the externally supplied value, or `''`. */
  function External(external: Dict<string, Json>, k: nat): Json
    requires k < Columns
  {
    Get(external, CsvKey(k)).GetOr(JStr(""))
  }

  /** The value of each unmapped column, the same for every item. */
  type Defaults = nat -> Json

  /** The unmapped columns' values for the externally supplied fields. */
  function DefaultsOf(external: Dict<string, Json>): (r: Defaults)
    ensures forall k :: 0 <= k < Columns ==> r(k) == External(external, k)
  {
    (k: nat) => if k < Columns then External(external, k) else JStr("")
  }

  /** The value put in column `k` for a JSON value: a name translated to
      its id through the inverted table, an unknown or non-string name
      becoming `''` (the caught `KeyError`); other columns take the value
      as it is. */
  function Translate(tables: Tables, k: nat, value: Json): (r: Json)
    ensures TableFor(tables, k).None? ==> r == value
    ensures TableFor(tables, k).Some? && value.JStr? ==>
              r == JStr(Get(Invert(TableFor(tables, k).value), value.s).GetOr(""))
    ensures TableFor(tables, k).Some? && !value.JStr? ==> r == JStr("")
  {
    match TableFor(tables, k)
    case None => value
    case Some(table) =>
      if value.JStr? then
        match Get(Invert(table), value.s)
        case Some(id) => JStr(id)
        case None => JStr("")
      else JStr("")
  }

  /** A translated name is the id of the last table row that carries it;
      a name no row carries becomes `''`. */
  lemma TranslateLooksUp(tables: Tables, k: nat, name: string)
    requires TableFor(tables, k).Some?
    ensures Translate(tables, k, JStr(name)) == JStr(LastKeyWithValue(TableFor(tables, k).value, name).GetOr(""))
  {
    InvertLookup(TableFor(tables, k).value, name);
  }

  /** The field `key` is present and true. */
  predicate Present(chant: Chant, key: Key)
  {
    Field(chant, key).Some? && !Falsy(Field(chant, key).value)
  }

  /** Column `k` stops the item: it is required and its field is missing
      or false. */
  predicate Blocks(chant: Chant, k: nat)
  {
    Required(k) && JsonKey(k).Some? && !Present(chant, JsonKey(k).value)
  }

  /** Every required field is present and true. */
  predicate Complete(chant: Chant)
  {
    Present(chant, Incipit) && Present(chant, Siglum) && Present(chant, Fulltext) && Present(chant, Melody)
  }

  /** An item is complete exactly when no column stops it. */
  lemma CompleteUnblocked(chant: Chant)
    ensures Complete(chant) <==> forall k :: 0 <= k < Columns ==> !Blocks(chant, k)
  {
    if !Complete(chant) {
      assert Blocks(chant, 2) || Blocks(chant, 7) || Blocks(chant, 19) || Blocks(chant, 21);
    }
  }

  /** What column `k` of a complete item holds. */
  function Cell(chant: Chant, defaults: Defaults, tables: Tables, k: nat): Json
    requires k < Columns
  {
    if JsonKey(k).None? then defaults(k)
    else
      var found := Field(chant, JsonKey(k).value);
      if found.None? then JStr("") else Translate(tables, k, found.value)
  }

  /** One pass of the inner loop, for column `k` with `last` the JSON value
      read last: the cells appended and the new last value, or `None` when
      the item is skipped. With `asWritten` a missing optional field appends
      `''` and then falls through to append the stale `last` as well
      (lines 186-217); without it the `''` is the column's only cell. */
  function ColumnStep(chant: Chant, defaults: Defaults, tables: Tables, k: nat, last: Json, asWritten: bool)
    : (r: Option<(seq<Json>, Json)>)
    requires k < Columns
    ensures r.None? <==> Blocks(chant, k)
    ensures !asWritten && r.Some? ==> r.value.0 == [Cell(chant, defaults, tables, k)]
    ensures JsonKey(k).None? ==> r == Some(([defaults(k)], last))
    ensures JsonKey(k).Some? && Field(chant, JsonKey(k).value).None? && !Required(k) && asWritten ==>
              r == Some(([JStr(""), Translate(tables, k, last)], last))
    ensures JsonKey(k).Some? && Field(chant, JsonKey(k).value).Some? && !Blocks(chant, k) ==>
              r == Some(([Translate(tables, k, Field(chant, JsonKey(k).value).value)], Field(chant, JsonKey(k).value).value))
  {
    if JsonKey(k).None? then Some(([defaults(k)], last))
    else
      var found := Field(chant, JsonKey(k).value);
      if found.None? && Required(k) then None
      else if found.None? && !asWritten then Some(([JStr("")], last))
      else
        var value := if found.Some? then found.value else last;
        if Falsy(value) && Required(k) then None
        else if found.None? then Some(([JStr(""), Translate(tables, k, value)], value))
        else Some(([Translate(tables, k, value)], value))
  }

  /** The inner loop over the columns from `k` on, with the cells so far in
      `cells`; `None` is the skipped item. */
  function Fill(chant: Chant, defaults: Defaults, tables: Tables, k: nat, last: Json, cells: seq<Json>, asWritten: bool)
    : Option<seq<Json>>
    requires k <= Columns
    decreases Columns - k
  {
    if k == Columns then Some(cells)
    else
      match ColumnStep(chant, defaults, tables, k, last, asWritten)
      case None => None
      case Some((more, last')) => Fill(chant, defaults, tables, k + 1, last', cells + more, asWritten)
  }

  /** An item is skipped exactly when some required field from column `k`
      on is missing or false. */
  lemma {:induction false} FillSkips(chant: Chant, defaults: Defaults, tables: Tables, k: nat, last: Json, cells: seq<Json>, asWritten: bool)
    requires k <= Columns
    ensures Fill(chant, defaults, tables, k, last, cells, asWritten).Some? <==> forall j :: k <= j < Columns ==> !Blocks(chant, j)
    decreases Columns - k
  {
    if k < Columns {
      var step := ColumnStep(chant, defaults, tables, k, last, asWritten);
      if step.Some? {
        FillSkips(chant, defaults, tables, k + 1, step.value.1, cells + step.value.0, asWritten);
      }
    }
  }

  /** Filling keeps the cells so far and never shortens them. */
  lemma {:induction false} FillExtends(chant: Chant, defaults: Defaults, tables: Tables, k: nat, last: Json, cells: seq<Json>, asWritten: bool)
    requires k <= Columns
    ensures var r := Fill(chant, defaults, tables, k, last, cells, asWritten);
            r.Some? ==> |r.value| >= |cells| && r.value[..|cells|] == cells
    decreases Columns - k
  {
    if k < Columns {
      var step := ColumnStep(chant, defaults, tables, k, last, asWritten);
      if step.Some? {
        var next := cells + step.value.0;
        FillExtends(chant, defaults, tables, k + 1, step.value.1, next, asWritten);
        var r := Fill(chant, defaults, tables, k + 1, step.value.1, next, asWritten);
        if r.Some? {
          assert r.value[..|cells|] == r.value[..|next|][..|cells|];
        }
      }
    }
  }

  /** The values `f(k), f(k + 1), …, f(n - 1)`. */
  function Tabulate<T>(f: nat -> T, k: nat, n: nat): seq<T>
    decreases n - k
  {
    if n <= k then [] else [f(k)] + Tabulate(f, k + 1, n)
  }

  lemma {:induction false} TabulateIndex<T>(f: nat -> T, k: nat, n: nat)
    requires k <= n
    ensures |Tabulate(f, k, n)| == n - k
    ensures forall i :: 0 <= i < n - k ==> Tabulate(f, k, n)[i] == f(k + i)
    decreases n - k
  {
    if k < n {
      var tail := Tabulate(f, k + 1, n);
      TabulateIndex(f, k + 1, n);
      forall i | 1 <= i < n - k
        ensures Tabulate(f, k, n)[i] == f(k + i)
      {
        assert Tabulate(f, k, n)[i] == tail[i - 1];
      }
    }
  }

  lemma EmptyConcat<T>(s: seq<T>)
    ensures [] + s == s
  {
  }

  /** Cell `j` of an item, as a function of the column. */
  function CellAt(chant: Chant, defaults: Defaults, tables: Tables): nat -> Json
  {
    (j: nat) => if j < Columns then Cell(chant, defaults, tables, j) else JNull
  }

  /** The cells of a complete item from column `k` on. */
  function CellsFrom(chant: Chant, defaults: Defaults, tables: Tables, k: nat): seq<Json>
  {
    Tabulate(CellAt(chant, defaults, tables), k, Columns)
  }

  lemma CellsFromIndex(chant: Chant, defaults: Defaults, tables: Tables, k: nat)
    requires k <= Columns
    ensures |CellsFrom(chant, defaults, tables, k)| == Columns - k
    ensures forall i :: 0 <= i < Columns - k ==> CellsFrom(chant, defaults, tables, k)[i] == Cell(chant, defaults, tables, k + i)
  {
    var f := CellAt(chant, defaults, tables);
    TabulateIndex(f, k, Columns);
    forall i | 0 <= i < Columns - k
      ensures CellsFrom(chant, defaults, tables, k)[i] == Cell(chant, defaults, tables, k + i)
    {
      assert Tabulate(f, k, Columns)[i] == f(k + i);
    }
  }

  /** Corrected filling of an item no column stops appends one cell per
      column: what `Cell` says. */
  lemma {:induction false} FillColumns(chant: Chant, defaults: Defaults, tables: Tables, k: nat, last: Json, cells: seq<Json>)
    requires k <= Columns
    requires forall j :: k <= j < Columns ==> !Blocks(chant, j)
    ensures Fill(chant, defaults, tables, k, last, cells, false) == Some(cells + CellsFrom(chant, defaults, tables, k))
    decreases Columns - k
  {
    if k < Columns {
      var step := ColumnStep(chant, defaults, tables, k, last, false);
      var cell := Cell(chant, defaults, tables, k);
      FillColumns(chant, defaults, tables, k + 1, step.value.1, cells + [cell]);
      assert CellsFrom(chant, defaults, tables, k) == [cell] + CellsFrom(chant, defaults, tables, k + 1);
      Strings.Regroup(cells, [cell], CellsFrom(chant, defaults, tables, k + 1));
    } else {
      assert cells + [] == cells;
    }
  }

  /** The row of one item, as corrected: `None` when it is skipped. */
  function Row(chant: Chant, defaults: Defaults, tables: Tables): Option<seq<Json>>
  {
    Fill(chant, defaults, tables, 0, JNull, [], false)
  }

  /** The row of one item as the source computes it. */
  function RowAsWritten(chant: Chant, defaults: Defaults, tables: Tables): Option<seq<Json>>
  {
    Fill(chant, defaults, tables, 0, JNull, [], true)
  }

  /** An item is skipped exactly when a required field is missing or false,
      both as written and as corrected. */
  lemma RowSkips(chant: Chant, defaults: Defaults, tables: Tables)
    ensures Row(chant, defaults, tables).Some? <==> Complete(chant)
    ensures RowAsWritten(chant, defaults, tables).Some? <==> Complete(chant)
  {
    CompleteUnblocked(chant);
    FillSkips(chant, defaults, tables, 0, JNull, [], false);
    FillSkips(chant, defaults, tables, 0, JNull, [], true);
  }

  /** The corrected row of a complete item has one value per CSV key, value
      `k` belonging to `CSV_KEYS[k]`. */
  lemma RowColumns(chant: Chant, defaults: Defaults, tables: Tables)
    requires Complete(chant)
    ensures Row(chant, defaults, tables).Some?
    ensures |Row(chant, defaults, tables).value| == Columns
    ensures forall k :: 0 <= k < Columns ==> Row(chant, defaults, tables).value[k] == Cell(chant, defaults, tables, k)
  {
    RowIsCells(chant, defaults, tables);
    CellsFromIndex(chant, defaults, tables, 0);
  }

  /** The corrected row of a complete item is its cells. */
  lemma RowIsCells(chant: Chant, defaults: Defaults, tables: Tables)
    requires Complete(chant)
    ensures Row(chant, defaults, tables) == Some(CellsFrom(chant, defaults, tables, 0))
  {
    CompleteUnblocked(chant);
    FillColumns(chant, defaults, tables, 0, JNull, []);
    EmptyConcat(CellsFrom(chant, defaults, tables, 0));
  }

  /** With every mapped field present, the row as written is the corrected
      one. */
  lemma {:induction false} FillAgreesWhenPresent(chant: Chant, defaults: Defaults, tables: Tables, k: nat, last: Json, cells: seq<Json>)
    requires k <= Columns
    requires forall j :: k <= j < Columns && JsonKey(j).Some? ==> Field(chant, JsonKey(j).value).Some?
    ensures Fill(chant, defaults, tables, k, last, cells, true) == Fill(chant, defaults, tables, k, last, cells, false)
    decreases Columns - k
  {
    if k < Columns {
      var step := ColumnStep(chant, defaults, tables, k, last, true);
      if step.Some? {
        FillAgreesWhenPresent(chant, defaults, tables, k + 1, step.value.1, cells + step.value.0);
      }
    }
  }

  /** A chant with its incipit but no `mode` field, as written: after the
      empty mode cell comes the stale incipit value, so the `finalis` column
      holds the incipit and the row has 26 values. */
  lemma MissingModeShiftsRow(chant: Chant, defaults: Defaults, tables: Tables)
    requires Complete(chant)
    requires Field(chant, Mode).None?
    requires forall j :: 0 <= j < Columns && JsonKey(j).Some? && j != 4 ==> Field(chant, JsonKey(j).value).Some?
    ensures var r := RowAsWritten(chant, defaults, tables);
            && r.Some?
            && |r.value| == Columns + 1
            && r.value[4] == JStr("")
            && r.value[5] == Field(chant, Incipit).value
  {
    var c5 := ModePrefix(chant, defaults, tables);
    PresentTail(chant, defaults, tables, Field(chant, Incipit).value, c5);
    CellsFromLength(chant, defaults, tables, 5);
  }

  lemma CellsFromLength(chant: Chant, defaults: Defaults, tables: Tables, k: nat)
    requires k <= Columns
    ensures |CellsFrom(chant, defaults, tables, k)| == Columns - k
  {
    TabulateIndex(CellAt(chant, defaults, tables), k, Columns);
  }

  /** Columns 3 and 4 as written, for an item without `mode`: the default
      of column 3, then `''` and the stale last value. */
  lemma ModeColumns(chant: Chant, defaults: Defaults, tables: Tables, last: Json, c3: seq<Json>) returns (c5: seq<Json>)
    requires Field(chant, Mode).None?
    ensures c5 == c3 + [defaults(3), JStr(""), last]
    ensures Fill(chant, defaults, tables, 3, last, c3, true) == Fill(chant, defaults, tables, 5, last, c5, true)
  {
    var c4 := FillUnmapped(chant, defaults, tables, 3, last, c3, true);
    c5 := FillMissingOptional(chant, defaults, tables, 4, last, c4);
  }

  /** The first five columns of an item without `mode`, as written. */
  lemma ModePrefix(chant: Chant, defaults: Defaults, tables: Tables) returns (c5: seq<Json>)
    requires Complete(chant)
    requires Field(chant, Mode).None?
    ensures |c5| == 6 && c5[4] == JStr("") && c5[5] == Field(chant, Incipit).value
    ensures RowAsWritten(chant, defaults, tables) == Fill(chant, defaults, tables, 5, Field(chant, Incipit).value, c5, true)
  {
    var c3 := IncipitPrefix(chant, defaults, tables);
    c5 := ModeColumns(chant, defaults, tables, Field(chant, Incipit).value, c3);
  }

  /** From column 5 on, an item whose mapped fields there are all present
      gets its own cells, as written too. */
  lemma PresentTail(chant: Chant, defaults: Defaults, tables: Tables, last: Json, c5: seq<Json>)
    requires Complete(chant)
    requires forall j :: 5 <= j < Columns && JsonKey(j).Some? ==> Field(chant, JsonKey(j).value).Some?
    ensures Fill(chant, defaults, tables, 5, last, c5, true) == Some(c5 + CellsFrom(chant, defaults, tables, 5))
  {
    CompleteUnblocked(chant);
    FillAgreesWhenPresent(chant, defaults, tables, 5, last, c5);
    FillColumns(chant, defaults, tables, 5, last, c5);
  }

  /** An unmapped column appends its default and keeps the last value. */
  lemma FillUnmapped(chant: Chant, defaults: Defaults, tables: Tables, k: nat, last: Json, cells: seq<Json>, asWritten: bool)
    returns (next: seq<Json>)
    requires k < Columns && JsonKey(k).None?
    ensures next == cells + [defaults(k)]
    ensures Fill(chant, defaults, tables, k, last, cells, asWritten) == Fill(chant, defaults, tables, k + 1, last, next, asWritten)
  {
    next := cells + [defaults(k)];
  }

  /** As written, a missing optional field without a table appends `''`
      and the last value, and keeps the last value. */
  lemma FillMissingOptional(chant: Chant, defaults: Defaults, tables: Tables, k: nat, last: Json, cells: seq<Json>)
    returns (next: seq<Json>)
    requires k < Columns && JsonKey(k).Some? && !Required(k) && TableFor(tables, k).None?
    requires Field(chant, JsonKey(k).value).None?
    ensures next == cells + [JStr(""), last]
    ensures Fill(chant, defaults, tables, k, last, cells, true) == Fill(chant, defaults, tables, k + 1, last, next, true)
  {
    next := cells + [JStr(""), last];
  }

  /** A present field that does not stop the item appends its translated
      value, which becomes the last value. */
  lemma FillPresent(chant: Chant, defaults: Defaults, tables: Tables, k: nat, last: Json, cells: seq<Json>, asWritten: bool)
    returns (next: seq<Json>, value: Json)
    requires k < Columns && JsonKey(k).Some? && !Blocks(chant, k)
    requires Field(chant, JsonKey(k).value).Some?
    ensures value == Field(chant, JsonKey(k).value).value
    ensures next == cells + [Translate(tables, k, value)]
    ensures Fill(chant, defaults, tables, k, last, cells, asWritten) == Fill(chant, defaults, tables, k + 1, value, next, asWritten)
  {
    value := Field(chant, JsonKey(k).value).value;
    next := cells + [Translate(tables, k, value)];
  }

  /** The first three columns, as written, of a complete item. */
  lemma IncipitPrefix(chant: Chant, defaults: Defaults, tables: Tables) returns (c3: seq<Json>)
    requires Complete(chant)
    ensures |c3| == 3
    ensures RowAsWritten(chant, defaults, tables) == Fill(chant, defaults, tables, 3, Field(chant, Incipit).value, c3, true)
  {
    var c1 := FillUnmapped(chant, defaults, tables, 0, JNull, [], true);
    var c2 := FillUnmapped(chant, defaults, tables, 1, JNull, c1, true);
    var value;
    c3, value := FillPresent(chant, defaults, tables, 2, JNull, c2, true);
  }

  /** The corrected row keeps one value per column even with `mode`
      missing: the mode cell is `''` and `finalis` keeps its own value. */
  lemma MissingModeKeepsColumns(chant: Chant, defaults: Defaults, tables: Tables)
    requires Complete(chant)
    requires Field(chant, Mode).None?
    ensures var r := Row(chant, defaults, tables);
            && r.Some?
            && |r.value| == Columns
            && r.value[4] == JStr("")
            && r.value[5] == defaults(5)
  {
    RowColumns(chant, defaults, tables);
    assert Cell(chant, defaults, tables, 4) == JStr("");
    assert Cell(chant, defaults, tables, 5) == defaults(5);
  }

  /** `convert_json_data_to_csv_data`: the rows of the items that are not
      skipped, in input order; the externally supplied fields arrive as
      `DefaultsOf(external_csv_fields)`. */
  function Convert(items: seq<Chant>, defaults: Defaults, tables: Tables): (r: seq<seq<Json>>)
    ensures |r| <= |items|
  {
    if items == [] then []
    else
      var row := Row(items[0], defaults, tables);
      (if row.Some? then [row.value] else []) + Convert(items[1..], defaults, tables)
  }

  /** The complete items, in input order. */
  function CompleteItems(items: seq<Chant>): seq<Chant>
  {
    if items == [] then [] else (if Complete(items[0]) then [items[0]] else []) + CompleteItems(items[1..])
  }

  /** There is one row per complete item, in input order, and each row has a
      value for every CSV key. */
  lemma {:induction false} ConvertKeepsComplete(items: seq<Chant>, defaults: Defaults, tables: Tables)
    ensures var r := Convert(items, defaults, tables);
            var kept := CompleteItems(items);
            && |r| == |kept|
            && forall i :: 0 <= i < |r| ==> |r[i]| == Columns && Some(r[i]) == Row(kept[i], defaults, tables)
  {
    if items != [] {
      RowSkips(items[0], defaults, tables);
      if Complete(items[0]) {
        RowColumns(items[0], defaults, tables);
      }
      ConvertKeepsComplete(items[1..], defaults, tables);
      var r := Convert(items, defaults, tables);
      var rest := Convert(items[1..], defaults, tables);
      var kept := CompleteItems(items);
      if Complete(items[0]) {
        assert r == [Row(items[0], defaults, tables).value] + rest;
        assert kept == [items[0]] + CompleteItems(items[1..]);
        forall i | 0 < i < |r| ensures Some(r[i]) == Row(kept[i], defaults, tables)
        {
          assert r[i] == rest[i - 1] && kept[i] == CompleteItems(items[1..])[i - 1];
        }
      } else {
        assert r == rest;
        assert kept == CompleteItems(items[1..]);
      }
    }
  }

  /** The header row: the CSV keys in order. */
  function Header(): (r: seq<Json>)
    ensures |r| == Columns
  {
    seq(Columns, k requires 0 <= k < Columns => JStr(CsvKey(k)))
  }

  /** `write_csv_data`: the rows the writer receives, header first. */
  function WriteCsvData(rows: seq<seq<Json>>): (r: seq<seq<Json>>)
    ensures |r| == |rows| + 1 && r[0] == Header() && r[1..] == rows
  {
    [Header()] + rows
  }

  /** `load_mapping` on the rows of a CSV file: the first row holds the
      column names and is skipped; each later row maps its `from` column to
      its `to` column, a later row overriding an earlier one. A row too short
      for either column is the `IndexError` (`None`). */
  function LoadMapping(rows: seq<seq<string>>, from: nat, to: nat): (r: Option<Dict<string, string>>)
    ensures r.Some? ==> UniqueKeys(r.value)
  {
    if rows == [] then Some([]) else LoadRows(rows[1..], from, to, [])
  }

  function LoadRows(rows: seq<seq<string>>, from: nat, to: nat, acc: Dict<string, string>): (r: Option<Dict<string, string>>)
    requires UniqueKeys(acc)
    ensures r.Some? ==> UniqueKeys(r.value)
  {
    if rows == [] then Some(acc)
    else if from < |rows[0]| && to < |rows[0]| then LoadRows(rows[1..], from, to, Put(acc, rows[0][from], rows[0][to]))
    else None
  }

  /** Every data row is long enough for both columns. */
  predicate Readable(rows: seq<seq<string>>, from: nat, to: nat)
  {
    forall i :: 0 <= i < |rows| ==> from < |rows[i]| && to < |rows[i]|
  }

  /** The `to` column of the last row whose `from` column is `key`. */
  function LastMatch(rows: seq<seq<string>>, from: nat, to: nat, key: string): Option<string>
    requires Readable(rows, from, to)
  {
    if rows == [] then None
    else if rows[|rows| - 1][from] == key then Some(rows[|rows| - 1][to])
    else LastMatch(rows[..|rows| - 1], from, to, key)
  }

  /** Loading fails exactly when some data row is too short. */
  lemma {:induction false} LoadRowsSome(rows: seq<seq<string>>, from: nat, to: nat, acc: Dict<string, string>)
    requires UniqueKeys(acc)
    ensures LoadRows(rows, from, to, acc).Some? <==> Readable(rows, from, to)
    decreases |rows|
  {
    if rows != [] {
      if from < |rows[0]| && to < |rows[0]| {
        LoadRowsSome(rows[1..], from, to, Put(acc, rows[0][from], rows[0][to]));
        ReadableTail(rows, from, to);
      } else {
        assert !(from < |rows[0]| && to < |rows[0]|);
      }
    }
  }

  /** A table is readable exactly when its first row and the rest are. */
  lemma ReadableTail(rows: seq<seq<string>>, from: nat, to: nat)
    requires rows != []
    ensures Readable(rows, from, to) <==> from < |rows[0]| && to < |rows[0]| && Readable(rows[1..], from, to)
  {
    if from < |rows[0]| && to < |rows[0]| && Readable(rows[1..], from, to) {
      forall i | 0 < i < |rows|
        ensures from < |rows[i]| && to < |rows[i]|
      {
        assert rows[i] == rows[1..][i - 1];
      }
    }
  }

  /** Loading a readable table sends each key to the `to` column of its
      last row, or failing that to what the accumulated table had. */
  lemma {:induction false} LoadRowsLookup(rows: seq<seq<string>>, from: nat, to: nat, acc: Dict<string, string>, key: string)
    requires UniqueKeys(acc) && Readable(rows, from, to)
    ensures LoadRows(rows, from, to, acc).Some?
    ensures Get(LoadRows(rows, from, to, acc).value, key) ==
              (if LastMatch(rows, from, to, key).Some? then LastMatch(rows, from, to, key) else Get(acc, key))
    decreases |rows|
  {
    if rows != [] {
      ReadableTail(rows, from, to);
      var acc' := Put(acc, rows[0][from], rows[0][to]);
      LoadRowsLookup(rows[1..], from, to, acc', key);
      PutGet(acc, rows[0][from], rows[0][to], key);
      LastMatchSplit(rows, from, to, key);
    }
  }

  /** The last match in a table is in its tail, or failing that its head row. */
  lemma {:induction false} LastMatchSplit(rows: seq<seq<string>>, from: nat, to: nat, key: string)
    requires rows != [] && Readable(rows, from, to)
    ensures LastMatch(rows, from, to, key) ==
              if LastMatch(rows[1..], from, to, key).Some? then LastMatch(rows[1..], from, to, key)
              else if rows[0][from] == key then Some(rows[0][to]) else None
  {
    if |rows| > 1 {
      var init := rows[..|rows| - 1];
      assert init[1..] == rows[1..][..|rows| - 2];
      LastMatchSplit(init, from, to, key);
      assert rows[1..][|rows| - 2] == rows[|rows| - 1];
    }
  }

  /** The loaded table sends each key to the `to` column of its last data
      row, and loading fails exactly when a data row is too short. */
  lemma LoadMappingLookup(rows: seq<seq<string>>, from: nat, to: nat, key: string)
    requires rows != []
    ensures LoadMapping(rows, from, to).Some? <==> Readable(rows[1..], from, to)
    ensures Readable(rows[1..], from, to) ==> Get(LoadMapping(rows, from, to).value, key) == LastMatch(rows[1..], from, to, key)
  {
    LoadRowsSome(rows[1..], from, to, []);
    if Readable(rows[1..], from, to) {
      LoadRowsLookup(rows[1..], from, to, [], key);
    }
  }
}
