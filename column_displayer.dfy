/**
 * The value-collecting side of `ColumnDisplayer` and `Field`
 * (src/megacmdcommonutils.h:344-394, src/megacmdcommonutils.cpp:1245-1504):
 * rows are maps from column name to text, a row is closed when a column
 * repeats, and each column remembers the widest value it has held so the
 * printer can size it.
 *
 * `Field` is held by value inside the `fields` map, so it is a datatype and
 * `updateMaxValue` returns the updated field; `ColumnDisplayer` is a class
 * whose methods update its members in place.
 */
module ColumnDisplay {
  import opened CommonSizes

  /** `Field` (src/megacmdcommonutils.h:344-358). */
  datatype Field = Field(name: seq<char>, fixedWidth: int, fixedSize: bool, dispWidth: int, maxValueLength: int)

  /** `Field(name, fixed, minWidth)`: a fixed column starts displayed at its minimum width. */
  function NewField(name: seq<char>, fixed: bool, minWidth: int): (f: Field)
    ensures f.name == name && f.fixedSize == fixed && f.fixedWidth == minWidth
    ensures f.maxValueLength == 0
    ensures f.dispWidth == (if fixed then minWidth else 0)
  {
    Field(name, minWidth, fixed, if fixed then minWidth else 0, 0)
  }

  /** `Field::updateMaxValue`: the field's maximum becomes the larger of the two. */
  function UpdateMaxValue(f: Field, newcandidate: int): (r: Field)
    ensures r.maxValueLength >= f.maxValueLength && r.maxValueLength >= newcandidate
    ensures r.maxValueLength == f.maxValueLength || r.maxValueLength == newcandidate
    ensures r.(maxValueLength := f.maxValueLength) == f
  {
    if newcandidate > f.maxValueLength then f.(maxValueLength := newcandidate) else f
  }

  /** Updating with two candidates in either order, or with their maximum, ends the same. */
  lemma UpdateMaxValueOrder(f: Field, a: int, b: int)
    ensures UpdateMaxValue(UpdateMaxValue(f, a), b) == UpdateMaxValue(UpdateMaxValue(f, b), a)
    ensures UpdateMaxValue(UpdateMaxValue(f, a), b) == UpdateMaxValue(f, if a > b then a else b)
    ensures UpdateMaxValue(UpdateMaxValue(f, a), a) == UpdateMaxValue(f, a)
  {
  }

  predicate NoDuplicates(s: seq<seq<char>>)
  {
    forall i, j :: 0 <= i < j < |s| ==> s[i] != s[j]
  }

  /** Every value of the row belongs to a listed column whose maximum is at least its display width. */
  ghost predicate Fits(fields: map<seq<char>, Field>, names: seq<seq<char>>, row: map<seq<char>, seq<char>>)
  {
    forall k :: k in row ==> k in names && k in fields && fields[k].maxValueLength >= Utf8Size(row[k])
  }

  /**
   * Column names are listed once each and all have a field; every row,
   * the closed ones and the open one, fits the columns.
   */
  ghost predicate Consistent(fields: map<seq<char>, Field>, names: seq<seq<char>>,
                             rows: seq<map<seq<char>, seq<char>>>, open: map<seq<char>, seq<char>>)
  {
    NoDuplicates(names)
    && (forall k :: k in names ==> k in fields)
    && Fits(fields, names, open)
    && (forall i :: 0 <= i < |rows| ==> Fits(fields, names, rows[i]))
  }

  /** Closing the open row keeps the columns consistent. */
  lemma CloseRowKeeps(fields: map<seq<char>, Field>, names: seq<seq<char>>,
                      rows: seq<map<seq<char>, seq<char>>>, open: map<seq<char>, seq<char>>)
    requires Consistent(fields, names, rows, open)
    ensures Consistent(fields, names, rows + [open], map[])
  {
    assert forall i :: 0 <= i < |rows| ==> (rows + [open])[i] == rows[i];
  }

  /** A row keeps fitting when columns are added and no maximum shrinks. */
  lemma FitsGrow(fields: map<seq<char>, Field>, names: seq<seq<char>>, row: map<seq<char>, seq<char>>,
                 fields': map<seq<char>, Field>, names': seq<seq<char>>)
    requires Fits(fields, names, row)
    requires forall k :: k in names ==> k in names'
    requires forall k :: k in fields ==> k in fields' && fields'[k].maxValueLength >= fields[k].maxValueLength
    ensures Fits(fields', names', row)
  {
  }

  /** Appending a name not yet listed keeps the names distinct. */
  lemma AppendNoDuplicates(names: seq<seq<char>>, name: seq<char>)
    requires NoDuplicates(names) && name !in names
    ensures NoDuplicates(names + [name])
  {
    var names' := names + [name];
    forall i, j | 0 <= i < j < |names'|
      ensures names'[i] != names'[j]
    {
      if j == |names| {
        assert names'[i] == names[i];
      } else {
        assert names'[i] == names[i] && names'[j] == names[j];
      }
    }
  }

  /** Recording a value in the open row, listing its column and raising its maximum, keeps consistency. */
  lemma RecordKeeps(fields: map<seq<char>, Field>, names: seq<seq<char>>,
                    rows: seq<map<seq<char>, seq<char>>>, open: map<seq<char>, seq<char>>,
                    name: seq<char>, value: seq<char>)
    requires Consistent(fields, names, rows, open)
    ensures Consistent(fields[name := UpdateMaxValue(FieldOr(fields, name), Utf8Size(value))],
                       if name in names then names else names + [name], rows, open[name := value])
  {
    var names' := if name in names then names else names + [name];
    var fields' := fields[name := UpdateMaxValue(FieldOr(fields, name), Utf8Size(value))];
    if name !in names {
      AppendNoDuplicates(names, name);
    }
    assert forall k :: k in names ==> k in names';
    assert forall k :: k in fields ==> k in fields' && fields'[k].maxValueLength >= fields[k].maxValueLength;
    FitsGrow(fields, names, open, fields', names');
    forall i | 0 <= i < |rows|
      ensures Fits(fields', names', rows[i])
    {
      FitsGrow(fields, names, rows[i], fields', names');
    }
  }

  /** Whether `addValue` closes the open row first: it already holds the column and no replacement was asked. */
  predicate Closes(open: map<seq<char>, seq<char>>, name: seq<char>, replace: bool)
  {
    !replace && |open| > 0 && name in open
  }

  /** The column `addValue` updates: the existing one, or a fresh fixed one of width 0. */
  function FieldOr(fields: map<seq<char>, Field>, name: seq<char>): Field
  {
    if name in fields then fields[name] else NewField(name, true, 0)
  }

  lemma OverwriteTwice(m: map<seq<char>, Field>, k: seq<char>, a: Field, b: Field)
    ensures m[k := a][k := b] == m[k := b]
  {
  }

  class ColumnDisplayer {
    var fields: map<seq<char>, Field>
    var fieldnames: seq<seq<char>>
    var values: seq<map<seq<char>, seq<char>>>
    var currentRegistry: map<seq<char>, seq<char>>
    var currentLength: int
    var prefix: seq<char>
    /** The "path-display-size" option read at construction (0 when absent). */
    var unfixedColsMinSize: int

    /** The displayer's rows and columns satisfy `Consistent`. */
    ghost predicate Valid()
      reads this
    {
      Consistent(fields, fieldnames, values, currentRegistry)
    }

    /** `ColumnDisplayer(clflags, cloptions)`; pathDisplaySize is what the options hold for "path-display-size". */
    constructor(pathDisplaySize: int)
      ensures fields == map[] && fieldnames == [] && values == [] && currentRegistry == map[]
      ensures currentLength == 0 && prefix == [] && unfixedColsMinSize == pathDisplaySize
      ensures Valid()
    {
      fields := map[];
      fieldnames := [];
      values := [];
      currentRegistry := map[];
      currentLength := 0;
      prefix := [];
      unfixedColsMinSize := pathDisplaySize;
    }

    /** `endregistry`: the open row is closed and a new empty one begins. */
    method EndRegistry()
      modifies this
      ensures values == old(values) + [old(currentRegistry)]
      ensures currentRegistry == map[] && currentLength == 0
      ensures fields == old(fields) && fieldnames == old(fieldnames)
      ensures prefix == old(prefix) && unfixedColsMinSize == old(unfixedColsMinSize)
      ensures old(Valid()) ==> Valid()
    {
      values := values + [currentRegistry];
      currentRegistry := map[];
      currentLength := 0;
    }

    method SetPrefix(p: seq<char>)
      modifies this
      ensures prefix == p
      ensures fields == old(fields) && fieldnames == old(fieldnames) && values == old(values)
      ensures currentRegistry == old(currentRegistry) && currentLength == old(currentLength)
      ensures unfixedColsMinSize == old(unfixedColsMinSize)
      ensures old(Valid()) ==> Valid()
    {
      prefix := p;
    }

    /** `addHeader`: (re)defines a column, forgetting any maximum it had. */
    method AddHeader(name: seq<char>, fixed: bool, minWidth: int)
      modifies this
      ensures fields == old(fields)[name := NewField(name, fixed, minWidth)]
      ensures fieldnames == old(fieldnames) && values == old(values)
      ensures currentRegistry == old(currentRegistry) && currentLength == old(currentLength)
      ensures prefix == old(prefix) && unfixedColsMinSize == old(unfixedColsMinSize)
      ensures old(Valid()) && name !in old(fieldnames) ==> Valid()
    {
      fields := fields[name := NewField(name, fixed, minWidth)];
    }

    /**
     * `addValue`: records value under name in the open row, first closing the
     * row when it already has that column (unless replacing); the column is
     * created fixed if unknown, listed once, and its maximum grows to the
     * value's display width.
     */
    method AddValue(name: seq<char>, value: seq<char>, replace: bool)
      modifies this
      ensures values == (if Closes(old(currentRegistry), name, replace) then old(values) + [old(currentRegistry)] else old(values))
      ensures currentRegistry == (if Closes(old(currentRegistry), name, replace) then map[] else old(currentRegistry))[name := value]
      ensures currentLength == (if Closes(old(currentRegistry), name, replace) then 0 else old(currentLength)) + Utf8Size(value)
      ensures fields == old(fields)[name := UpdateMaxValue(FieldOr(old(fields), name), Utf8Size(value))]
      ensures fieldnames == (if name in old(fieldnames) then old(fieldnames) else old(fieldnames) + [name])
      ensures prefix == old(prefix) && unfixedColsMinSize == old(unfixedColsMinSize)
      ensures old(Valid()) ==> Valid()
      ensures currentRegistry[name] == value && name in fieldnames
      ensures fields[name].maxValueLength >= Utf8Size(value)
    {
      ghost var wasValid := Valid();
      var len := GetStringUtf8Size(value);
      if !replace {
        if |currentRegistry| > 0 && name in currentRegistry {
          if wasValid {
            CloseRowKeeps(fields, fieldnames, values, currentRegistry);
          }
          EndRegistry();
        }
      }
      ghost var closes := Closes(old(currentRegistry), name, replace);
      assert values == (if closes then old(values) + [old(currentRegistry)] else old(values));
      assert currentRegistry == (if closes then map[] else old(currentRegistry));
      assert currentLength == (if closes then 0 else old(currentLength));
      assert fields == old(fields) && fieldnames == old(fieldnames);
      assert prefix == old(prefix) && unfixedColsMinSize == old(unfixedColsMinSize);
      ghost var field := FieldOr(fields, name);
      if wasValid {
        RecordKeeps(fields, fieldnames, values, currentRegistry, name, value);
      }
      currentRegistry := currentRegistry[name := value];
      currentLength := currentLength + len;
      ghost var fields0 := fields;
      if name !in fields {
        AddHeader(name, true, 0);
        OverwriteTwice(fields0, name, field, UpdateMaxValue(field, len));
      }
      assert fields[name] == field;
      if name !in fieldnames {
        fieldnames := fieldnames + [name];
      }
      fields := fields[name := UpdateMaxValue(fields[name], len)];
    }

    /** `clear`: back to a freshly built displayer over the same options. */
    method Clear()
      modifies this
      ensures fields == map[] && fieldnames == [] && values == [] && currentRegistry == map[]
      ensures currentLength == 0 && prefix == [] && unfixedColsMinSize == old(unfixedColsMinSize)
      ensures Valid()
    {
      fields := map[];
      fieldnames := [];
      values := [];
      currentRegistry := map[];
      currentLength := 0;
      prefix := [];
    }
  }
}
