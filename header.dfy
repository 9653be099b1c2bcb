/**
 * The header map: built from the first row a file yields, it sends each
 * column name to its zero-based position (main.go:175-181). A name that
 * occurs twice keeps its last position.
 */
module HeaderMap {

  /** No column name occurs twice. */
  predicate Distinct(row: seq<string>) {
    forall i, j :: 0 <= i < j < |row| ==> row[i] != row[j]
  }

  /** The map after inserting the columns of `row` one after another, in row order. */
  function HeaderOf(row: seq<string>): map<string, nat> {
    if |row| == 0 then map[]
    else HeaderOf(row[..|row| - 1])[row[|row| - 1] := |row| - 1]
  }

  /**
   * Every name of the row is a key, and its value is the last position
   * holding that name.
   */
  lemma {:induction false} HeaderOfSpec(row: seq<string>)
    ensures forall name :: name in HeaderOf(row) <==> name in row
    ensures forall name :: name in HeaderOf(row) ==> HeaderOf(row)[name] < |row| && row[HeaderOf(row)[name]] == name
    ensures forall name, j :: name in HeaderOf(row) && HeaderOf(row)[name] < j < |row| ==> row[j] != name
  {
    if |row| > 0 {
      var init := row[..|row| - 1];
      var last := row[|row| - 1];
      HeaderOfSpec(init);
      assert row == init + [last];
      assert forall j :: 0 <= j < |init| ==> row[j] == init[j];
    }
  }

  /** One more column: its name now maps to its position. */
  lemma HeaderSnoc(row: seq<string>, name: string)
    ensures HeaderOf(row + [name]) == HeaderOf(row)[name := |row|]
  {
    assert (row + [name])[..|row|] == row;
  }

  /**
   * The in-place construction of main.go:176-179: a fresh map, then one
   * assignment per column in row order.
   */
  method BuildHeader(row: seq<string>) returns (header: map<string, nat>)
    ensures header == HeaderOf(row)
  {
    header := map[];
    for i := 0 to |row|
      invariant header == HeaderOf(row[..i])
    {
      HeaderSnoc(row[..i], row[i]);
      assert row[..i] + [row[i]] == row[..i + 1];
      header := header[row[i] := i];
    }
    assert row[..|row|] == row;
  }

  /** The set of names a row holds. */
  function Names(row: seq<string>): set<string> {
    set name | name in row
  }

  /**
   * A row holds as many different names as it has columns when its names
   * are distinct, and fewer otherwise.
   */
  lemma {:induction false} NamesSize(row: seq<string>)
    ensures Distinct(row) ==> |Names(row)| == |row|
    ensures !Distinct(row) ==> |Names(row)| < |row|
  {
    if |row| > 0 {
      var init := row[..|row| - 1];
      var last := row[|row| - 1];
      NamesSize(init);
      assert init + [last] == row;
      SnocDistinct(init, last);
      if last in init {
        assert Names(row) == Names(init);
      } else {
        assert Names(row) == Names(init) + {last};
      }
    }
  }

  /**
   * The map has one key per distinct name: as many as the row has columns
   * when the names are distinct, fewer otherwise.
   */
  lemma HeaderSize(row: seq<string>)
    ensures Distinct(row) ==> |HeaderOf(row)| == |row|
    ensures !Distinct(row) ==> |HeaderOf(row)| < |row|
  {
    NamesSize(row);
    HeaderOfSpec(row);
    assert HeaderOf(row).Keys == Names(row);
  }

  /** A row extended by one name is distinct exactly when the row is and the name is new. */
  lemma SnocDistinct(init: seq<string>, last: string)
    ensures Distinct(init + [last]) <==> Distinct(init) && last !in init
  {
    var row := init + [last];
    if Distinct(row) {
      forall i, j | 0 <= i < j < |init| ensures init[i] != init[j] {
        assert init[i] == row[i] && init[j] == row[j];
      }
      forall i | 0 <= i < |init| ensures init[i] != last {
        assert init[i] == row[i] && row[|init|] == last;
      }
    }
    if Distinct(init) && last !in init {
      forall i, j | 0 <= i < j < |row| ensures row[i] != row[j] {
        if j < |init| {
          assert init[i] == row[i] && init[j] == row[j];
        } else {
          assert row[i] == init[i];
        }
      }
    }
  }

  /** With distinct names, every stored position is below the size of the map. */
  lemma DistinctPositionsInRange(row: seq<string>)
    requires Distinct(row)
    ensures forall name :: name in HeaderOf(row) ==> HeaderOf(row)[name] < |HeaderOf(row)|
  {
    HeaderSize(row);
    HeaderOfSpec(row);
  }

  /** The last of two equal names wins, and both give a single key. */
  lemma DuplicateExample()
    ensures HeaderOf(["A", "B", "A"]) == map["A" := 2, "B" := 1]
  {
    assert ["A", "B", "A"][..2] == ["A", "B"];
    assert ["A", "B"][..1] == ["A"];
    assert ["A"][..0] == [];
  }
}
