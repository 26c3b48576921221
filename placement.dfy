/**
 What one press of "Create" computes: the key-to-prefab dictionary built from the two
 index-aligned lists, the cells of the CSV grid whose token is a key, and the objects
 instantiated for them. The editor class in module Editor is proved against these
 functions.
 */
module Placement {
  import opened Text

  datatype Option<T> = None | Some(value: T)

  /** A prefab asset: an opaque identity and the name its clones start from. */
  datatype Prefab = Prefab(id: nat, name: string)

  /** `new Vector3(width, height, 0)` with the integer coordinates it is built from. */
  datatype Position = Position(x: int, y: int, z: int)

  /** `prefab.name + count`: the prefab's name followed by the decimal serial number. */
  datatype InstanceName = InstanceName(prefix: string, serial: nat)

  /** One instantiated object. */
  datatype Instance = Instance(prefab: Prefab, position: Position, name: InstanceName)

  /** A CSV cell whose token is a key: the token, its index in the row and the row's index. */
  datatype Cell = Cell(token: string, x: nat, y: nat)

  /** The tokens of one CSV line: `line.Split(',')`. */
  function Row(line: string): seq<string>
  {
    Split(line, ',')
  }

  // ---------------------------------------------------------------------------
  // The dictionary build
  // ---------------------------------------------------------------------------

  /** What the `Dictionary.Add` loop leaves: the dictionary, and the key whose `Add` threw, if any. */
  datatype Association = Association(table: map<string, Option<Prefab>>, duplicate: Option<string>)

  /**
   Adds `keys[i] -> prefabs[i]` to `table` in list order. `Add` throws on a key the
   dictionary already holds; the entries added before it stay.
   */
  function AddAll(table: map<string, Option<Prefab>>, keys: seq<string>, prefabs: seq<Option<Prefab>>): (r: Association)
    requires |keys| == |prefabs|
    ensures r.duplicate.Some? ==> r.duplicate.value in keys
    decreases |keys|
  {
    if keys == [] then Association(table, None)
    else if keys[0] in table then Association(table, Some(keys[0]))
    else AddAll(table[keys[0] := prefabs[0]], keys[1..], prefabs[1..])
  }

  /** `table` updated with the first `n` pairs of the lists, one after the other. */
  function Updated(table: map<string, Option<Prefab>>, keys: seq<string>, prefabs: seq<Option<Prefab>>, n: nat)
    : map<string, Option<Prefab>>
    requires n <= |keys| == |prefabs|
    decreases n
  {
    if n == 0 then table else Updated(table, keys, prefabs, n - 1)[keys[n - 1] := prefabs[n - 1]]
  }

  /** None of the first `n` keys is in `table` or among the keys before it. */
  predicate FreshPrefix(table: map<string, Option<Prefab>>, keys: seq<string>, n: nat)
    requires n <= |keys|
  {
    forall i :: 0 <= i < n ==> keys[i] !in table && keys[i] !in keys[..i]
  }

  /** No key occurs twice. */
  predicate Distinct(keys: seq<string>)
  {
    forall i, j :: 0 <= i < j < |keys| ==> keys[i] != keys[j]
  }

  /** The build succeeds exactly when the keys are distinct and none is in the dictionary yet. */
  lemma {:induction false} AddAllSucceeds(table: map<string, Option<Prefab>>, keys: seq<string>, prefabs: seq<Option<Prefab>>)
    requires |keys| == |prefabs|
    ensures AddAll(table, keys, prefabs).duplicate.None? <==>
      Distinct(keys) && forall i :: 0 <= i < |keys| ==> keys[i] !in table
    decreases |keys|
  {
    if keys != [] && keys[0] !in table {
      var table' := table[keys[0] := prefabs[0]];
      AddAllSucceeds(table', keys[1..], prefabs[1..]);
      if Distinct(keys) && forall i :: 0 <= i < |keys| ==> keys[i] !in table {
        assert Distinct(keys[1..]);
        forall i | 0 <= i < |keys| - 1 ensures keys[1..][i] !in table' {
          assert keys[1..][i] == keys[i + 1];
        }
      }
      if AddAll(table, keys, prefabs).duplicate.None? {
        forall i, j | 0 <= i < j < |keys| ensures keys[i] != keys[j] {
          if i > 0 {
            assert keys[i] == keys[1..][i - 1] && keys[j] == keys[1..][j - 1];
          } else {
            assert keys[j] == keys[1..][j - 1];
          }
        }
        forall i | 0 <= i < |keys| ensures keys[i] !in table {
          if i > 0 {
            assert keys[i] == keys[1..][i - 1];
          }
        }
      }
    }
  }

  /**
   Where the build stops and what it leaves: the first `added` pairs of the lists
   put on top of the dictionary, each of those keys new when it was added, where
   `added` is the length of the lists on success and otherwise the index of the
   first key already present, `keys[added]`.
   */
  lemma {:induction false} AddAllAdds(table: map<string, Option<Prefab>>, keys: seq<string>, prefabs: seq<Option<Prefab>>)
    returns (added: nat)
    requires |keys| == |prefabs|
    ensures added <= |keys|
    ensures AddAll(table, keys, prefabs).table == Updated(table, keys, prefabs, added)
    ensures FreshPrefix(table, keys, added)
    ensures AddAll(table, keys, prefabs).duplicate.None? <==> added == |keys|
    ensures added < |keys| ==> AddAll(table, keys, prefabs).duplicate == Some(keys[added])
    ensures added < |keys| ==> keys[added] in table || keys[added] in keys[..added]
    decreases |keys|
  {
    if keys == [] || keys[0] in table {
      added := 0;
    } else {
      var table' := table[keys[0] := prefabs[0]];
      var rest := AddAllAdds(table', keys[1..], prefabs[1..]);
      added := rest + 1;
      UpdatedShift(table, keys, prefabs, added);
      FreshPrefixShift(table, keys, prefabs[0], rest);
      if added < |keys| {
        assert keys[added] == keys[1..][rest];
        assert keys[..added] == [keys[0]] + keys[1..][..rest];
      }
    }
  }

  /** Updating with the first key and then the next `n - 1` is updating with the first `n`. */
  lemma {:induction false} UpdatedShift(table: map<string, Option<Prefab>>, keys: seq<string>, prefabs: seq<Option<Prefab>>, n: nat)
    requires 0 < n <= |keys| == |prefabs|
    ensures Updated(table[keys[0] := prefabs[0]], keys[1..], prefabs[1..], n - 1) == Updated(table, keys, prefabs, n)
    decreases n
  {
    if n > 1 {
      UpdatedShift(table, keys, prefabs, n - 1);
      assert keys[1..][n - 2] == keys[n - 1] && prefabs[1..][n - 2] == prefabs[n - 1];
    }
  }

  /** Freshness of the keys after the first, against the dictionary that holds the first, extends to all of them. */
  lemma FreshPrefixShift(table: map<string, Option<Prefab>>, keys: seq<string>, prefab: Option<Prefab>, rest: nat)
    requires |keys| > rest && keys[0] !in table
    requires FreshPrefix(table[keys[0] := prefab], keys[1..], rest)
    ensures FreshPrefix(table, keys, rest + 1)
  {
    forall i | 0 < i < rest + 1 ensures keys[i] !in table && keys[i] !in keys[..i] {
      assert keys[i] == keys[1..][i - 1];
      assert keys[..i] == [keys[0]] + keys[1..][..i - 1];
    }
  }

  /**
   What the updated dictionary holds when every added key was new: exactly the old
   keys and the added ones, the old entries untouched, each added key with its prefab.
   */
  lemma {:induction false} UpdatedContents(table: map<string, Option<Prefab>>, keys: seq<string>, prefabs: seq<Option<Prefab>>, n: nat)
    requires n <= |keys| == |prefabs|
    requires FreshPrefix(table, keys, n)
    ensures forall k :: k in Updated(table, keys, prefabs, n) <==> k in table || k in keys[..n]
    ensures forall k :: k in table ==> Updated(table, keys, prefabs, n)[k] == table[k]
    ensures forall i :: 0 <= i < n ==> Updated(table, keys, prefabs, n)[keys[i]] == prefabs[i]
    decreases n
  {
    if n > 0 {
      UpdatedContents(table, keys, prefabs, n - 1);
      assert keys[..n] == keys[..n - 1] + [keys[n - 1]];
    }
  }

  /** A successful build puts every key of the list into the dictionary. */
  lemma AddAllCovers(table: map<string, Option<Prefab>>, keys: seq<string>, prefabs: seq<Option<Prefab>>)
    requires |keys| == |prefabs|
    requires AddAll(table, keys, prefabs).duplicate.None?
    ensures forall k <- keys :: k in AddAll(table, keys, prefabs).table
  {
    var added := AddAllAdds(table, keys, prefabs);
    UpdatedContents(table, keys, prefabs, added);
    assert keys[..added] == keys;
  }

  /**
   The dictionary is never emptied between builds, so once a build has succeeded, a
   later build from lists that share a key with it fails.
   */
  lemma RebuildWithSharedKeyFails(table: map<string, Option<Prefab>>, keys: seq<string>, prefabs: seq<Option<Prefab>>,
                                  keys': seq<string>, prefabs': seq<Option<Prefab>>, i: nat, j: nat)
    requires |keys| == |prefabs| && |keys'| == |prefabs'|
    requires AddAll(table, keys, prefabs).duplicate.None?
    requires i < |keys| && j < |keys'| && keys[i] == keys'[j]
    ensures AddAll(AddAll(table, keys, prefabs).table, keys', prefabs').duplicate.Some?
  {
    AddAllCovers(table, keys, prefabs);
    assert keys[i] in keys;
    AddAllSucceeds(AddAll(table, keys, prefabs).table, keys', prefabs');
  }

  // ---------------------------------------------------------------------------
  // The scan
  // ---------------------------------------------------------------------------

  /** The cells of row `y`, among `fields[..]`, whose token is one of `keys`, left to right. */
  function RowCells(fields: seq<string>, y: nat, keys: seq<string>): (cells: seq<Cell>)
    decreases |fields|
  {
    if fields == [] then []
    else
      var x := |fields| - 1;
      RowCells(fields[..x], y, keys) + (if fields[x] in keys then [Cell(fields[x], x, y)] else [])
  }

  /** The cells of the whole text whose token is one of `keys`, in row-major order. */
  function Cells(lines: seq<string>, keys: seq<string>): (cells: seq<Cell>)
    decreases |lines|
  {
    if lines == [] then []
    else
      var y := |lines| - 1;
      Cells(lines[..y], keys) + RowCells(Row(lines[y]), y, keys)
  }

  /** Each cell stands in row `y` at a token of `fields` that is a key, and holds that token. */
  predicate FromRow(cells: seq<Cell>, fields: seq<string>, y: nat, keys: seq<string>)
  {
    forall c <- cells :: c.y == y && c.x < |fields| && fields[c.x] == c.token && c.token in keys
  }

  /** Each cell stands at a token of the text that is a key, and holds that token. */
  predicate FromText(cells: seq<Cell>, lines: seq<string>, keys: seq<string>)
  {
    forall c <- cells :: c.y < |lines| && c.x < |Row(lines[c.y])| && Row(lines[c.y])[c.x] == c.token && c.token in keys
  }

  /** A row's cells are all its own matched tokens. */
  lemma {:induction false} RowCellsSound(fields: seq<string>, y: nat, keys: seq<string>)
    ensures FromRow(RowCells(fields, y, keys), fields, y, keys)
    decreases |fields|
  {
    if fields != [] {
      var x := |fields| - 1;
      RowCellsSound(fields[..x], y, keys);
    }
  }

  /** The text's cells are all its own matched tokens. */
  lemma {:induction false} CellsSound(lines: seq<string>, keys: seq<string>)
    ensures FromText(Cells(lines, keys), lines, keys)
    decreases |lines|
  {
    if lines != [] {
      var y := |lines| - 1;
      CellsSound(lines[..y], keys);
      RowCellsSound(Row(lines[y]), y, keys);
      var before := Cells(lines[..y], keys);
      var last := RowCells(Row(lines[y]), y, keys);
      forall c: Cell | c in before + last
        ensures c.y < |lines| && c.x < |Row(lines[c.y])| && Row(lines[c.y])[c.x] == c.token && c.token in keys
      {
        if c in before {
          assert lines[..y][c.y] == lines[c.y];
        }
      }
    }
  }

  /**
   An empty line is one empty token at x = 0, which is a cell exactly when "" is a
   key, as it is for every field the list view has just added.
   */
  lemma EmptyLineIsOneToken(y: nat, keys: seq<string>)
    ensures Row("") == [""]
    ensures "" in keys ==> RowCells(Row(""), y, keys) == [Cell("", 0, y)]
    ensures "" !in keys ==> RowCells(Row(""), y, keys) == []
  {
    assert Split("", ',') == [""];
    assert [""][..0] == [];
  }

  /** Scanning one more token of a row adds its cell when the token is a key. */
  lemma RowCellsNext(fields: seq<string>, j: nat, y: nat, keys: seq<string>)
    requires j < |fields|
    ensures RowCells(fields[..j + 1], y, keys) ==
      RowCells(fields[..j], y, keys) + (if fields[j] in keys then [Cell(fields[j], j, y)] else [])
  {
    assert fields[..j + 1][..j] == fields[..j];
  }

  /** Every token of a row that is a key has its cell, at its own index. */
  lemma {:induction false} RowCellsComplete(fields: seq<string>, y: nat, keys: seq<string>, x: nat)
    requires x < |fields| && fields[x] in keys
    ensures Cell(fields[x], x, y) in RowCells(fields, y, keys)
    decreases |fields|
  {
    if x < |fields| - 1 {
      RowCellsComplete(fields[..|fields| - 1], y, keys, x);
    }
  }

  /**
   Every token of the text that is a key has its cell, at (its index in its line, the
   index of its line), whatever the tokens before it were.
   */
  lemma {:induction false} CellsComplete(lines: seq<string>, keys: seq<string>, x: nat, y: nat)
    requires y < |lines| && x < |Row(lines[y])| && Row(lines[y])[x] in keys
    ensures Cell(Row(lines[y])[x], x, y) in Cells(lines, keys)
    decreases |lines|
  {
    if y == |lines| - 1 {
      RowCellsComplete(Row(lines[y]), y, keys, x);
    } else {
      assert lines[..|lines| - 1][y] == lines[y];
      CellsComplete(lines[..|lines| - 1], keys, x, y);
    }
  }

  /** Scan order: `a` comes before `b` in the row-major reading of the grid. */
  predicate Precedes(a: Cell, b: Cell)
  {
    a.y < b.y || (a.y == b.y && a.x < b.x)
  }

  /** Each cell comes strictly before the ones after it. */
  predicate InScanOrder(cells: seq<Cell>)
  {
    forall i, j :: 0 <= i < j < |cells| ==> Precedes(cells[i], cells[j])
  }

  /** The cells of one row come left to right. */
  lemma {:induction false} RowCellsOrdered(fields: seq<string>, y: nat, keys: seq<string>)
    ensures InScanOrder(RowCells(fields, y, keys))
    decreases |fields|
  {
    if fields != [] {
      var x := |fields| - 1;
      RowCellsOrdered(fields[..x], y, keys);
      RowCellsSound(fields[..x], y, keys);
      var before := RowCells(fields[..x], y, keys);
      var cells := RowCells(fields, y, keys);
      assert cells == before + (if fields[x] in keys then [Cell(fields[x], x, y)] else []);
      forall i, j | 0 <= i < j < |cells| ensures Precedes(cells[i], cells[j]) {
        assert cells[i] == before[i];
        if j < |before| {
          assert cells[j] == before[j];
        } else {
          assert cells[j] == Cell(fields[x], x, y);
          assert before[i] in before;
        }
      }
    }
  }

  /** The cells come in scan order: row after row, left to right within a row. */
  lemma {:induction false} CellsInScanOrder(lines: seq<string>, keys: seq<string>)
    ensures InScanOrder(Cells(lines, keys))
    decreases |lines|
  {
    if lines != [] {
      var y := |lines| - 1;
      CellsInScanOrder(lines[..y], keys);
      RowCellsOrdered(Row(lines[y]), y, keys);
      CellsSound(lines[..y], keys);
      RowCellsSound(Row(lines[y]), y, keys);
      var before := Cells(lines[..y], keys);
      var last := RowCells(Row(lines[y]), y, keys);
      var cells := before + last;
      assert cells == Cells(lines, keys);
      forall i, j | 0 <= i < j < |cells| ensures Precedes(cells[i], cells[j]) {
        if j < |before| {
          assert cells[i] == before[i] && cells[j] == before[j];
        } else if i >= |before| {
          assert cells[i] == last[i - |before|] && cells[j] == last[j - |before|];
          assert cells[i] in last && cells[j] in last;
        } else {
          assert cells[i] == before[i] && cells[j] == last[j - |before|];
          assert cells[i] in before && cells[j] in last;
          assert cells[i].y < y;
          assert cells[j].y == y;
        }
      }
    }
  }

  /** The grid positions (x, y) whose token is one of `keys`. */
  ghost function KeyPositions(lines: seq<string>, keys: seq<string>): set<(nat, nat)>
  {
    set y: nat, x: nat | y < |lines| && x < |Row(lines[y])| && Row(lines[y])[x] in keys :: (x, y)
  }

  /** A sequence without repetitions has as many elements as its set. */
  lemma {:induction false} DistinctCardinality<T>(s: seq<T>)
    requires forall i, j :: 0 <= i < j < |s| ==> s[i] != s[j]
    ensures |(set e <- s)| == |s|
    decreases |s|
  {
    if s != [] {
      var n := |s| - 1;
      DistinctCardinality(s[..n]);
      assert (set e <- s) == (set e <- s[..n]) + {s[n]};
      assert s[n] !in s[..n];
    }
  }

  /** One object per grid cell whose token is a key: no more, no fewer. */
  lemma CellsCount(lines: seq<string>, keys: seq<string>)
    ensures |Cells(lines, keys)| == |KeyPositions(lines, keys)|
  {
    var cells := Cells(lines, keys);
    var ps := seq(|cells|, k requires 0 <= k < |cells| => (cells[k].x, cells[k].y));
    CellsInScanOrder(lines, keys);
    CellsSound(lines, keys);
    forall i, j | 0 <= i < j < |ps| ensures ps[i] != ps[j] {
      assert Precedes(cells[i], cells[j]);
    }
    DistinctCardinality(ps);
    forall p | p in KeyPositions(lines, keys) ensures p in (set e <- ps) {
      CellsComplete(lines, keys, p.0, p.1);
      var k :| 0 <= k < |cells| && cells[k] == Cell(Row(lines[p.1])[p.0], p.0, p.1);
      assert ps[k] == p;
    }
    forall p | p in (set e <- ps) ensures p in KeyPositions(lines, keys) {
      var k :| 0 <= k < |ps| && ps[k] == p;
      assert cells[k] in cells;
    }
    assert (set e <- ps) == KeyPositions(lines, keys);
  }

  // ---------------------------------------------------------------------------
  // Instantiation
  // ---------------------------------------------------------------------------

  /** `token` is a key of the dictionary and its prefab is not null. */
  predicate HasPrefab(table: map<string, Option<Prefab>>, token: string)
  {
    token in table && table[token].Some?
  }

  /** Every cell's token is a key of the dictionary with a prefab. */
  predicate Placed(cells: seq<Cell>, table: map<string, Option<Prefab>>)
  {
    forall c <- cells :: HasPrefab(table, c.token)
  }

  /**
   The index of the first cell whose key maps to no prefab (a null `GameObject`, on
   which `Instantiate` throws), or `|cells|` when every cell has one.
   */
  function FirstMissing(cells: seq<Cell>, table: map<string, Option<Prefab>>): (m: nat)
    ensures m <= |cells|
    ensures Placed(cells[..m], table)
    ensures m < |cells| ==> !HasPrefab(table, cells[m].token)
    decreases |cells|
  {
    if cells == [] || !HasPrefab(table, cells[0].token) then 0
    else
      var m := 1 + FirstMissing(cells[1..], table);
      assert cells[..m] == [cells[0]] + cells[1..][..m - 1];
      m
  }

  /** The first-missing property pins `FirstMissing` down. */
  lemma {:induction false} FirstMissingAt(cells: seq<Cell>, table: map<string, Option<Prefab>>, m: nat)
    requires m <= |cells|
    requires Placed(cells[..m], table)
    requires m < |cells| ==> !HasPrefab(table, cells[m].token)
    ensures FirstMissing(cells, table) == m
    decreases m
  {
    if m > 0 {
      assert cells[0] in cells[..m];
      assert cells[1..][..m - 1] == cells[1..m];
      FirstMissingAt(cells[1..], table, m - 1);
    }
  }

  /**
   The objects instantiated for `cells` when `first` objects came before them: the
   k-th one is named after its prefab and the serial number `first + k`.
   */
  function Records(cells: seq<Cell>, table: map<string, Option<Prefab>>, first: nat): (objects: seq<Instance>)
    requires Placed(cells, table)
    ensures |objects| == |cells|
    decreases |cells|
  {
    if cells == [] then []
    else
      var k := |cells| - 1;
      var prefab := table[cells[k].token].value;
      Records(cells[..k], table, first) + [Instance(prefab, Position(cells[k].x, cells[k].y, 0), InstanceName(prefab.name, first + k))]
  }

  /** One more cell adds one object, whose serial number follows the ones before it. */
  lemma RecordsNext(cells: seq<Cell>, table: map<string, Option<Prefab>>, first: nat, cell: Cell, prefab: Prefab)
    requires Placed(cells, table)
    requires cell.token in table && table[cell.token] == Some(prefab)
    ensures Placed(cells + [cell], table)
    ensures Records(cells + [cell], table, first) ==
      Records(cells, table, first) + [Instance(prefab, Position(cell.x, cell.y, 0), InstanceName(prefab.name, first + |cells|))]
  {
    assert (cells + [cell])[..|cells|] == cells;
  }

  /** Instantiating two runs of cells one after the other numbers the second run on from the first. */
  lemma {:induction false} RecordsAppend(a: seq<Cell>, b: seq<Cell>, table: map<string, Option<Prefab>>, first: nat)
    requires Placed(a, table) && Placed(b, table)
    ensures Placed(a + b, table)
    ensures Records(a + b, table, first) == Records(a, table, first) + Records(b, table, first + |a|)
    decreases |b|
  {
    if b != [] {
      var n := |b| - 1;
      RecordsAppend(a, b[..n], table, first);
      assert (a + b)[..|a| + n] == a + b[..n];
    } else {
      assert a + b == a;
    }
  }

  /**
   One object per cell, in the cells' order: the k-th object is a clone of the
   prefab of the k-th cell's key, stands at (x, y, 0) of that cell, and is named
   after the prefab and the serial number `first + k`.
   */
  lemma {:induction false} RecordsLayout(cells: seq<Cell>, table: map<string, Option<Prefab>>, first: nat)
    requires Placed(cells, table)
    ensures |Records(cells, table, first)| == |cells|
    ensures forall k :: 0 <= k < |cells| ==>
      Records(cells, table, first)[k] == Instance(table[cells[k].token].value, Position(cells[k].x, cells[k].y, 0),
                                                  InstanceName(table[cells[k].token].value.name, first + k))
    decreases |cells|
  {
    if cells != [] {
      var n := |cells| - 1;
      RecordsLayout(cells[..n], table, first);
    }
  }

  /**
   Where an object stands and what it is: on the token at (x, y) of the text, which is
   a key whose prefab it clones, at z = 0, named after that prefab and its serial number.
   */
  predicate StandsOnKey(o: Instance, serial: nat, lines: seq<string>, keys: seq<string>, table: map<string, Option<Prefab>>)
  {
    var p := o.position;
    && p.z == 0 && 0 <= p.y < |lines| && 0 <= p.x < |Row(lines[p.y])|
    && Row(lines[p.y])[p.x] in keys && Row(lines[p.y])[p.x] in table
    && table[Row(lines[p.y])[p.x]] == Some(o.prefab)
    && o.name == InstanceName(o.prefab.name, serial)
  }

  /** The objects made for the first `m` cells of the text: the k-th stands on its key token and carries serial k. */
  lemma ObjectsStandOnKeys(lines: seq<string>, keys: seq<string>, table: map<string, Option<Prefab>>, m: nat)
    requires m <= |Cells(lines, keys)| && Placed(Cells(lines, keys)[..m], table)
    ensures |Records(Cells(lines, keys)[..m], table, 0)| == m
    ensures forall k :: 0 <= k < m ==> StandsOnKey(Records(Cells(lines, keys)[..m], table, 0)[k], k, lines, keys, table)
  {
    var cells := Cells(lines, keys);
    CellsSound(lines, keys);
    RecordsLayout(cells[..m], table, 0);
    forall k | 0 <= k < m ensures StandsOnKey(Records(cells[..m], table, 0)[k], k, lines, keys, table) {
      assert cells[..m][k] == cells[k] && cells[k] in cells;
      assert cells[k] in cells[..m];
    }
  }

  /** Serial numbers are never reused: no two objects of one run carry the same serial number. */
  lemma NamesUnique(cells: seq<Cell>, table: map<string, Option<Prefab>>, first: nat)
    requires Placed(cells, table)
    ensures forall i, j :: 0 <= i < j < |cells| ==>
      Records(cells, table, first)[i].name.serial != Records(cells, table, first)[j].name.serial
  {
    RecordsLayout(cells, table, first);
  }
}
