/**
 The editor window's state and its two operations with logic in them: `CheckList`,
 which resizes the key and prefab lists toward the requested number of fields, and
 `Create`, which fills the dictionary and instantiates one object per CSV cell whose
 token is a key.
 */
module Editor {
  import opened Text
  import opened Placement

  /** How a press of "Create" ends. */
  datatype Outcome =
    | Generated(count: nat)       // every matching cell got its object
    | DuplicateKey(key: string)   // `Dictionary.Add` threw; nothing was instantiated
    | MissingPrefab(cell: Cell)   // `Instantiate` got a null prefab for this cell

  /**
   How `Create` ends when the dictionary held `table` before it: the first key the
   dictionary already holds, or the first cell whose key has no prefab, or the
   number of objects made.
   */
  function Result(table: map<string, Option<Prefab>>, keys: seq<string>, prefabs: seq<Option<Prefab>>, text: string): (r: Outcome)
    requires |keys| == |prefabs|
    ensures r.DuplicateKey? ==> r.key in keys
    ensures r.Generated? ==> r.count == |Cells(Lines(text), keys)|
  {
    var build := AddAll(table, keys, prefabs);
    if build.duplicate.Some? then DuplicateKey(build.duplicate.value)
    else
      var cells := Cells(Lines(text), keys);
      var m := FirstMissing(cells, build.table);
      if m < |cells| then MissingPrefab(cells[m]) else Generated(|cells|)
  }

  /**
   The objects `Create` makes when the dictionary held `table` before it: none when
   a key is already there, otherwise one per cell up to the first without a prefab.
   */
  function Produced(table: map<string, Option<Prefab>>, keys: seq<string>, prefabs: seq<Option<Prefab>>, text: string): (objects: seq<Instance>)
    requires |keys| == |prefabs|
    ensures |objects| <= |Cells(Lines(text), keys)|
    ensures Result(table, keys, prefabs, text).DuplicateKey? ==> objects == []
    ensures Result(table, keys, prefabs, text).Generated? ==> |objects| == Result(table, keys, prefabs, text).count
    ensures Result(table, keys, prefabs, text).MissingPrefab? ==> |objects| < |Cells(Lines(text), keys)|
  {
    var build := AddAll(table, keys, prefabs);
    if build.duplicate.Some? then []
    else
      var cells := Cells(Lines(text), keys);
      Records(cells[..FirstMissing(cells, build.table)], build.table, 0)
  }

  /**
   The dictionary is kept between presses of "Create": after one that got past the
   dictionary build, the next with the same non-empty lists stops at the first key
   and makes nothing.
   */
  lemma SecondCreateFails(table: map<string, Option<Prefab>>, keys: seq<string>, prefabs: seq<Option<Prefab>>, text: string)
    requires |keys| == |prefabs| && keys != []
    requires AddAll(table, keys, prefabs).duplicate.None?
    ensures Result(AddAll(table, keys, prefabs).table, keys, prefabs, text) == DuplicateKey(keys[0])
    ensures Produced(AddAll(table, keys, prefabs).table, keys, prefabs, text) == []
  {
    AddAllCovers(table, keys, prefabs);
    assert keys[0] in keys;
  }

  /**
   The list length one `CheckList` leaves. Its loops compare their counter with a
   bound recomputed from the changing length, so they stop halfway: a gap of g
   between the length and the requested count becomes a gap of g / 2.
   */
  function CheckedLength(len: nat, n: nat): (r: nat)
    ensures len <= n ==> len <= r <= n
    ensures n <= len ==> n <= r <= len
  {
    if len < n then n - (n - len) / 2 else n + (len - n) / 2
  }

  /** The list length after `k` calls of `CheckList`, one per layout event. */
  function CheckedLengthAfter(len: nat, n: nat, k: nat): (r: nat)
    ensures len <= n ==> len <= r <= n
    ensures n <= len ==> n <= r <= len
    decreases k
  {
    if k == 0 then len else CheckedLengthAfter(CheckedLength(len, n), n, k - 1)
  }

  /** One call keeps the length only when it is already `n`, and reaches `n` only from a gap of at most 1. */
  lemma CheckedLengthStep(len: nat, n: nat)
    ensures CheckedLength(len, n) == len <==> len == n
    ensures CheckedLength(len, n) == n <==> (len <= n + 1 && n <= len + 1)
  {
  }

  /** 2^k, the gap that k calls of `CheckList` are sure to close; used by `CheckListConverges`. */
  function Pow2(k: nat): (p: nat)
    ensures p >= 1
  {
    if k == 0 then 1 else 2 * Pow2(k - 1)
  }

  /**
   Repeated calls converge: after `k` layout events with `2^k` greater than the
   initial gap, the length is exactly `n`.
   */
  lemma {:induction false} CheckListConverges(len: nat, n: nat, k: nat)
    requires (if len < n then n - len else len - n) < Pow2(k)
    ensures CheckedLengthAfter(len, n, k) == n
    decreases k
  {
    if k > 0 {
      CheckListConverges(CheckedLength(len, n), n, k - 1);
    }
  }

  /** Once the length is `n`, further calls leave it there. */
  lemma CheckListStable(n: nat, k: nat)
    ensures CheckedLengthAfter(n, n, k) == n
  {
    CheckListConverges(n, n, k);
  }

  /**
   One call does not reach the requested count: from an empty list and a count of
   4 it leaves 2 entries, and it takes three calls to get to 4.
   */
  lemma CheckListFallsShort()
    ensures CheckedLength(0, 4) == 2 && CheckedLength(9, 1) == 5
    ensures CheckedLengthAfter(0, 4, 2) == 3 && CheckedLengthAfter(0, 4, 3) == 4
  {
  }

  /** `s` cut or padded with `pad` to exactly `n` entries, keeping its first entries. */
  function Resized<T>(s: seq<T>, pad: T, n: nat): (r: seq<T>)
    ensures |r| == n
    ensures forall i :: 0 <= i < |s| && i < n ==> r[i] == s[i]
    ensures forall i :: |s| <= i < n ==> r[i] == pad
  {
    if |s| <= n then s + Repeat(pad, n - |s|) else s[..n]
  }

  /** The sequence of `k` copies of `x`. */
  function Repeat<T>(x: T, k: nat): (s: seq<T>)
    ensures |s| == k && forall i :: 0 <= i < k ==> s[i] == x
  {
    if k == 0 then [] else Repeat(x, k - 1) + [x]
  }

  /** The CSV-driven generator window. */
  class CsvGameObjectGenerationEditor {
    /** The keys typed in the list view, index-aligned with `prefabList`. */
    var keyList: seq<string>
    /** The prefab chosen for each key; `None` is an empty object field. */
    var prefabList: seq<Option<Prefab>>
    /** Key-to-prefab dictionary; created only when the window is enabled, and never cleared by `Create`. */
    var objectDictionary: map<string, Option<Prefab>>
    /** The requested number of key/prefab fields. */
    var createNum: int
    /** The objects instantiated by this window so far, in order. */
    var scene: seq<Instance>

    /** The two lists stay index-aligned. */
    ghost predicate Valid()
      reads this
    {
      |keyList| == |prefabList|
    }

    /** The field initialiser of `m_create_num` and `OnEnable`. */
    constructor ()
      ensures Valid()
      ensures keyList == [] && prefabList == [] && objectDictionary == map[] && createNum == 0
      ensures scene == []
    {
      keyList := [];
      prefabList := [];
      objectDictionary := map[];
      createNum := 0;
      scene := [];
    }

    /** The number typed in the "Number of Field" input. */
    method SetCreateNum(n: int)
      modifies this
      ensures createNum == n
      ensures keyList == old(keyList) && prefabList == old(prefabList)
      ensures objectDictionary == old(objectDictionary) && scene == old(scene)
    {
      createNum := n;
    }

    /** A key and a prefab entered in row `i` of the list view. */
    method SetEntry(i: nat, key: string, prefab: Option<Prefab>)
      requires Valid() && i < |keyList|
      modifies this
      ensures Valid()
      ensures keyList == old(keyList)[i := key] && prefabList == old(prefabList)[i := prefab]
      ensures objectDictionary == old(objectDictionary) && scene == old(scene) && createNum == old(createNum)
    {
      keyList := keyList[i := key];
      prefabList := prefabList[i := prefab];
    }

    /**
     Grows the lists with "" keys and null prefabs, or removes their last entries,
     toward `createNum`; the loop bound is re-read as the length changes, so each list
     ends `CheckedLength` long. What stays of the old lists is unchanged.
     */
    method CheckList()
      requires createNum >= 0
      modifies this
      ensures objectDictionary == old(objectDictionary) && scene == old(scene) && createNum == old(createNum)
      ensures old(Valid()) ==> Valid()
      ensures |keyList| == CheckedLength(old(|keyList|), createNum)
      ensures |keyList| >= old(|keyList|) ==> keyList == old(keyList) + Repeat("", |keyList| - old(|keyList|))
      ensures |keyList| < old(|keyList|) ==> keyList == old(keyList)[..|keyList|]
      ensures |prefabList| == CheckedLength(old(|prefabList|), createNum)
      ensures |prefabList| >= old(|prefabList|) ==> prefabList == old(prefabList) + Repeat(None, |prefabList| - old(|prefabList|))
      ensures |prefabList| < old(|prefabList|) ==> prefabList == old(prefabList)[..|prefabList|]
    {
      CheckKeys();
      CheckPrefabs();
    }

    /**
     `CheckList` with each loop bound taken once before its loop: both lists come
     out exactly `createNum` long in a single call.
     */
    method CheckListAtOnce()
      requires createNum >= 0
      modifies this`keyList, this`prefabList
      ensures Valid()
      ensures keyList == Resized(old(keyList), "", createNum)
      ensures prefabList == Resized(old(prefabList), None, createNum)
    {
      var keyGap := createNum - |keyList|;
      if keyGap > 0 {
        for i := 0 to keyGap
          invariant keyList == old(keyList) + Repeat("", i) && prefabList == old(prefabList)
        {
          keyList := keyList + [""];
        }
      } else if keyGap < 0 {
        for i := 0 to -keyGap
          invariant keyList == old(keyList)[..|old(keyList)| - i] && prefabList == old(prefabList)
        {
          keyList := keyList[..|keyList| - 1];
        }
      }
      assert keyList == Resized(old(keyList), "", createNum);
      ghost var keys := keyList;
      var prefabGap := createNum - |prefabList|;
      if prefabGap > 0 {
        for i := 0 to prefabGap
          invariant prefabList == old(prefabList) + Repeat(None, i) && keyList == keys
        {
          prefabList := prefabList + [None];
        }
      } else if prefabGap < 0 {
        for i := 0 to -prefabGap
          invariant prefabList == old(prefabList)[..|old(prefabList)| - i] && keyList == keys
        {
          prefabList := prefabList[..|prefabList| - 1];
        }
      }
    }

    /** The key half of `CheckList`: `m_key_list` grows by "" or loses its tail. */
    method CheckKeys()
      requires createNum >= 0
      modifies this`keyList
      ensures |keyList| == CheckedLength(old(|keyList|), createNum)
      ensures |keyList| >= old(|keyList|) ==> keyList == old(keyList) + Repeat("", |keyList| - old(|keyList|))
      ensures |keyList| < old(|keyList|) ==> keyList == old(keyList)[..|keyList|]
    {
      if |keyList| < createNum {
        var i := 0;
        while i < createNum - |keyList|
          invariant 0 <= i && 2 * i <= createNum - old(|keyList|) + 1
          invariant keyList == old(keyList) + Repeat("", i)
          decreases createNum - |keyList| - i
        {
          keyList := keyList + [""];
          i := i + 1;
        }
      } else if |keyList| > createNum {
        var i := 0;
        while i < |keyList| - createNum
          invariant 0 <= i && 2 * i <= old(|keyList|) - createNum + 1
          invariant i <= old(|keyList|) && keyList == old(keyList)[..old(|keyList|) - i]
          decreases |keyList| - createNum - i
        {
          keyList := keyList[..|keyList| - 1];
          i := i + 1;
        }
      }
    }

    /** The prefab half of `CheckList`: `m_prefab_list` grows by null or loses its tail. */
    method CheckPrefabs()
      requires createNum >= 0
      modifies this`prefabList
      ensures |prefabList| == CheckedLength(old(|prefabList|), createNum)
      ensures |prefabList| >= old(|prefabList|) ==> prefabList == old(prefabList) + Repeat(None, |prefabList| - old(|prefabList|))
      ensures |prefabList| < old(|prefabList|) ==> prefabList == old(prefabList)[..|prefabList|]
    {
      if |prefabList| < createNum {
        var i := 0;
        while i < createNum - |prefabList|
          invariant 0 <= i && 2 * i <= createNum - old(|prefabList|) + 1
          invariant prefabList == old(prefabList) + Repeat(None, i)
          decreases createNum - |prefabList| - i
        {
          prefabList := prefabList + [None];
          i := i + 1;
        }
      } else if |prefabList| > createNum {
        var i := 0;
        while i < |prefabList| - createNum
          invariant 0 <= i && 2 * i <= old(|prefabList|) - createNum + 1
          invariant i <= old(|prefabList|) && prefabList == old(prefabList)[..old(|prefabList|) - i]
          decreases |prefabList| - createNum - i
        {
          prefabList := prefabList[..|prefabList| - 1];
          i := i + 1;
        }
      }
    }

    /**
     One press of "Create" on CSV text `text`. The lists go into the dictionary
     first; a key the dictionary already holds stops everything. Then every cell
     of the text whose token is in the key list gets an object, in scan order, until
     a cell's key has no prefab.
     */
    method Create(text: string) returns (outcome: Outcome)
      requires Valid()
      modifies this
      ensures Valid()
      ensures keyList == old(keyList) && prefabList == old(prefabList) && createNum == old(createNum)
      ensures objectDictionary == AddAll(old(objectDictionary), keyList, prefabList).table
      ensures outcome == Result(old(objectDictionary), keyList, prefabList, text)
      ensures scene == old(scene) + Produced(old(objectDictionary), keyList, prefabList, text)
    {
      var duplicate := AddEntries();
      if duplicate.Some? {
        outcome := DuplicateKey(duplicate.value);
        return;
      }
      AddAllCovers(old(objectDictionary), keyList, prefabList);
      outcome := Generate(text);
    }

    /**
     `Create` on a dictionary emptied first, so that the objects made depend on the
     lists and the text alone.
     */
    method CreateFresh(text: string) returns (outcome: Outcome)
      requires Valid()
      modifies this
      ensures Valid()
      ensures keyList == old(keyList) && prefabList == old(prefabList) && createNum == old(createNum)
      ensures objectDictionary == AddAll(map[], keyList, prefabList).table
      ensures outcome == Result(map[], keyList, prefabList, text)
      ensures scene == old(scene) + Produced(map[], keyList, prefabList, text)
    {
      objectDictionary := map[];
      outcome := Create(text);
    }

    /** Pressing "Create" twice with a fresh dictionary makes the same objects twice. */
    method CreateFreshTwice(text: string) returns (first: Outcome, second: Outcome)
      requires Valid()
      modifies this
      ensures Valid() && keyList == old(keyList) && prefabList == old(prefabList) && createNum == old(createNum)
      ensures objectDictionary == AddAll(map[], keyList, prefabList).table
      ensures first == second && first == Result(map[], keyList, prefabList, text)
      ensures scene == old(scene) + Produced(map[], keyList, prefabList, text) + Produced(map[], keyList, prefabList, text)
    {
      first := CreateFresh(text);
      second := CreateFresh(text);
    }

    /** The `Dictionary.Add` loop of `Create`: every key with its prefab, until a key is already there. */
    method AddEntries() returns (duplicate: Option<string>)
      requires Valid()
      modifies this
      ensures Valid()
      ensures keyList == old(keyList) && prefabList == old(prefabList)
      ensures scene == old(scene) && createNum == old(createNum)
      ensures AddAll(old(objectDictionary), keyList, prefabList) == Association(objectDictionary, duplicate)
    {
      ghost var build := AddAll(objectDictionary, keyList, prefabList);
      for i := 0 to |keyList|
        invariant keyList == old(keyList) && prefabList == old(prefabList) && Valid()
        invariant scene == old(scene) && createNum == old(createNum)
        invariant AddAll(objectDictionary, keyList[i..], prefabList[i..]) == build
      {
        assert keyList[i..][1..] == keyList[i + 1..] && prefabList[i..][1..] == prefabList[i + 1..];
        if keyList[i] in objectDictionary {
          return Some(keyList[i]);
        }
        objectDictionary := objectDictionary[keyList[i] := prefabList[i]];
      }
      assert keyList[|keyList|..] == [];
      duplicate := None;
    }

    /**
     The reading part of `Create`: line by line while `Peek` finds text, each line
     split at ',' and its tokens instantiated, with the count of objects shared by
     all lines. Every key of the list is in the dictionary by then.
     */
    method Generate(text: string) returns (outcome: Outcome)
      requires forall k <- keyList :: k in objectDictionary
      modifies this`scene
      ensures var cells := Cells(Lines(text), keyList);
        var m := FirstMissing(cells, objectDictionary);
        && scene == old(scene) + Records(cells[..m], objectDictionary, 0)
        && outcome == if m < |cells| then MissingPrefab(cells[m]) else Generated(|cells|)
    {
      ghost var keys, table := keyList, objectDictionary;
      ghost var lines := Lines(text);
      ghost var cells: seq<Cell> := [];
      var height: nat := 0;
      var count: nat := 0;
      var reader := new StringReader(text);
      var next := reader.Peek();
      while next >= 0
        invariant keyList == keys && objectDictionary == table
        invariant reader.text == text && reader.Valid() && height <= |lines|
        invariant reader.Remaining() == lines[height..]
        invariant next >= 0 <==> reader.Remaining() != []
        invariant cells == Cells(lines[..height], keys)
        invariant count == |cells| && Placed(cells, table)
        invariant scene == old(scene) + Records(cells, table, 0)
        decreases |lines| - height
      {
        var added, missing := InstantiateLine(reader, height, count, lines, cells, old(scene));
        if missing.Some? {
          outcome := MissingPrefab(missing.value);
          return;
        }
        cells := Cells(lines[..height + 1], keys);
        count := count + added;
        height := height + 1;
        next := reader.Peek();
      }
      AllLinesRead(lines, height, keys, table, cells);
      outcome := Generated(count);
    }

    /**
     One pass of the reading loop of `Create`: the next line is read, split at ','
     and its tokens instantiated, numbered on from the `count` objects made for the
     lines before. When a key has no prefab, its cell is the first such cell of the
     whole text.
     */
    method InstantiateLine(reader: StringReader, height: nat, count: nat,
                           ghost lines: seq<string>, ghost cells: seq<Cell>, ghost start: seq<Instance>)
      returns (added: nat, missing: Option<Cell>)
      requires forall k <- keyList :: k in objectDictionary
      requires reader.Valid() && height < |lines| && reader.Remaining() == lines[height..]
      requires cells == Cells(lines[..height], keyList) && count == |cells| && Placed(cells, objectDictionary)
      requires scene == start + Records(cells, objectDictionary, 0)
      modifies reader, this`scene
      ensures reader.Valid() && reader.Remaining() == lines[height + 1..]
      ensures missing.None? ==>
        var next := Cells(lines[..height + 1], keyList);
        && count + added == |next| && Placed(next, objectDictionary)
        && scene == start + Records(next, objectDictionary, 0)
      ensures missing.Some? ==>
        var all := Cells(lines, keyList);
        var m := FirstMissing(all, objectDictionary);
        && m < |all| && missing == Some(all[m])
        && scene == start + Records(all[..m], objectDictionary, 0)
    {
      ghost var keys, table := keyList, objectDictionary;
      ghost var remaining := reader.Remaining();
      var line := reader.ReadLine();
      NextLine(lines, height, remaining, line, reader.Remaining());
      ghost var prior := scene;
      added, missing := InstantiateRow(Row(line), height, count);
      LineOutcome(lines, height, keys, table, cells, start, prior, scene, added, missing);
    }

    /**
     The `foreach` over the tokens of line `height` in `Create`: an object for each
     token that is a key, numbered on from `count`, until a key has no prefab, whose
     cell is returned. The x coordinate advances on every token, matched or not.
     */
    method InstantiateRow(fields: seq<string>, height: nat, count: nat) returns (added: nat, missing: Option<Cell>)
      requires forall k <- keyList :: k in objectDictionary
      modifies this`scene
      ensures var row := RowCells(fields, height, keyList);
        var m := FirstMissing(row, objectDictionary);
        && added == m
        && scene == old(scene) + Records(row[..m], objectDictionary, count)
        && missing == if m < |row| then Some(row[m]) else None
    {
      ghost var done: seq<Cell> := [];
      added := 0;
      var width: nat := 0;
      for j := 0 to |fields|
        invariant width == j
        invariant done == RowCells(fields[..j], height, keyList)
        invariant added == |done| && Placed(done, objectDictionary)
        invariant scene == old(scene) + Records(done, objectDictionary, count)
      {
        var csvKey := fields[j];
        RowCellsNext(fields, j, height, keyList);
        if csvKey in keyList {
          var prefab := objectDictionary[csvKey];
          var cell := Cell(csvKey, width, height);
          if prefab.None? {
            MissingInRow(fields, j, height, keyList, objectDictionary, done);
            return added, Some(cell);
          }
          RecordsNext(done, objectDictionary, count, cell, prefab.value);
          scene := scene + [Instance(prefab.value, Position(width, height, 0), InstanceName(prefab.value.name, count + added))];
          done := done + [cell];
          added := added + 1;
        }
        width := width + 1;
      }
      NoneMissingInRow(fields, height, keyList, objectDictionary, done);
      missing := None;
    }
  }

  /** A row scan that stops at token `j` stops at the first cell of the row without a prefab. */
  lemma MissingInRow(fields: seq<string>, j: nat, height: nat, keys: seq<string>,
                     table: map<string, Option<Prefab>>, done: seq<Cell>)
    requires j < |fields| && fields[j] in keys && fields[j] in table && table[fields[j]].None?
    requires done == RowCells(fields[..j], height, keys)
    requires Placed(done, table)
    ensures var row := RowCells(fields, height, keys);
      var m := FirstMissing(row, table);
      && m == |done| && m < |row| && row[m] == Cell(fields[j], j, height) && row[..m] == done
  {
    var row := RowCells(fields, height, keys);
    var cell := Cell(fields[j], j, height);
    var tail := RowCellsPrefix(fields, j + 1, height, keys);
    RowCellsNext(fields, j, height, keys);
    assert row == done + [cell] + tail;
    assert row[..|done|] == done;
    FirstMissingAt(row, table, |done|);
  }

  /** A row scan that reaches the end of the row has found every cell with a prefab. */
  lemma NoneMissingInRow(fields: seq<string>, height: nat, keys: seq<string>,
                         table: map<string, Option<Prefab>>, done: seq<Cell>)
    requires done == RowCells(fields[..|fields|], height, keys)
    requires Placed(done, table)
    ensures var row := RowCells(fields, height, keys);
      FirstMissing(row, table) == |row| && row[..|row|] == done
  {
    var row := RowCells(fields, height, keys);
    assert fields[..|fields|] == fields;
    assert row[..|row|] == row;
    FirstMissingAt(row, table, |row|);
  }

  /**
   When the scan stops in line `height` because a key has no prefab, the cell it
   stops at is the first such cell of the whole text, and the objects made so far
   are exactly those of the cells before it.
   */
  lemma MissingPrefabIsFirst(lines: seq<string>, height: nat, keys: seq<string>, table: map<string, Option<Prefab>>,
                             before: seq<Cell>, row: seq<Cell>, start: seq<Instance>, end: seq<Instance>)
    requires height < |lines|
    requires before == Cells(lines[..height], keys)
    requires row == RowCells(Row(lines[height]), height, keys)
    requires FirstMissing(row, table) < |row|
    requires Placed(before + row[..FirstMissing(row, table)], table)
    requires end == start + Records(before + row[..FirstMissing(row, table)], table, 0)
    ensures var all := Cells(lines, keys);
      var m := FirstMissing(all, table);
      && m < |all| && all[m] == row[FirstMissing(row, table)]
      && end == start + Records(all[..m], table, 0)
  {
    var tail := CellsAround(lines, height, keys);
    FirstMissingThrough(before, row, tail, table, start, end);
  }

  /**
   Cells that all have prefabs do not move where the first missing prefab is found
   after them, and the objects made for the cells before it stay the same.
   */
  lemma FirstMissingThrough(before: seq<Cell>, row: seq<Cell>, tail: seq<Cell>, table: map<string, Option<Prefab>>,
                            start: seq<Instance>, end: seq<Instance>)
    requires FirstMissing(row, table) < |row|
    requires Placed(before + row[..FirstMissing(row, table)], table)
    requires end == start + Records(before + row[..FirstMissing(row, table)], table, 0)
    ensures var all := before + row + tail;
      var m := FirstMissing(all, table);
      && m < |all| && all[m] == row[FirstMissing(row, table)]
      && end == start + Records(all[..m], table, 0)
  {
    var all := before + row + tail;
    var m := FirstMissing(row, table);
    assert all[|before| + m] == row[m];
    assert all[..|before| + m] == before + row[..m];
    FirstMissingAt(all, table, |before| + m);
  }

  /** The cells of the text are those of the lines before `height`, then those of line `height`, then the rest. */
  lemma CellsAround(lines: seq<string>, height: nat, keys: seq<string>) returns (tail: seq<Cell>)
    requires height < |lines|
    ensures Cells(lines, keys) == Cells(lines[..height], keys) + RowCells(Row(lines[height]), height, keys) + tail
  {
    tail := CellsPrefixOfLines(lines, height + 1, keys);
    assert lines[..height + 1][..height] == lines[..height];
  }

  /**
   The state after one line: when the line had no key without a prefab, the cells
   and objects so far are those of the lines read; otherwise the scan has stopped at
   the first cell of the text without a prefab.
   */
  lemma LineOutcome(lines: seq<string>, height: nat, keys: seq<string>, table: map<string, Option<Prefab>>,
                    cells: seq<Cell>, start: seq<Instance>, prior: seq<Instance>, end: seq<Instance>,
                    added: nat, missing: Option<Cell>)
    requires height < |lines|
    requires cells == Cells(lines[..height], keys) && Placed(cells, table)
    requires prior == start + Records(cells, table, 0)
    requires var row := RowCells(Row(lines[height]), height, keys);
      var m := FirstMissing(row, table);
      && added == m
      && end == prior + Records(row[..m], table, |cells|)
      && missing == if m < |row| then Some(row[m]) else None
    ensures missing.None? ==>
      var next := Cells(lines[..height + 1], keys);
      && |cells| + added == |next| && Placed(next, table)
      && end == start + Records(next, table, 0)
    ensures missing.Some? ==>
      var all := Cells(lines, keys);
      var m := FirstMissing(all, table);
      && m < |all| && missing == Some(all[m])
      && end == start + Records(all[..m], table, 0)
  {
    var row := RowCells(Row(lines[height]), height, keys);
    var m := FirstMissing(row, table);
    SceneGrows(start, prior, end, cells, row[..m], table);
    if missing.Some? {
      MissingPrefabIsFirst(lines, height, keys, table, cells, row, start, end);
    } else {
      assert row[..m] == row;
      CellsNextLine(lines, height, keys);
    }
  }

  /** Once every line is read, every cell of the text has its object. */
  lemma AllLinesRead(lines: seq<string>, height: nat, keys: seq<string>, table: map<string, Option<Prefab>>, cells: seq<Cell>)
    requires height <= |lines| && lines[height..] == []
    requires cells == Cells(lines[..height], keys) && Placed(cells, table)
    ensures cells == Cells(lines, keys)
    ensures FirstMissing(cells, table) == |cells| && cells[..|cells|] == cells
  {
    assert lines[..height] == lines;
    assert cells[..|cells|] == cells;
    FirstMissingAt(cells, table, |cells|);
  }

  /** Objects for one more run of cells, numbered on from those before, extend the scene as one longer run would. */
  lemma SceneGrows(start: seq<Instance>, middle: seq<Instance>, end: seq<Instance>,
                   cells: seq<Cell>, more: seq<Cell>, table: map<string, Option<Prefab>>)
    requires Placed(cells, table) && Placed(more, table)
    requires middle == start + Records(cells, table, 0)
    requires end == middle + Records(more, table, |cells|)
    ensures Placed(cells + more, table)
    ensures end == start + Records(cells + more, table, 0)
  {
    RecordsAppend(cells, more, table, 0);
    assert start + Records(cells, table, 0) + Records(more, table, |cells|)
        == start + (Records(cells, table, 0) + Records(more, table, |cells|));
  }

  /** The line `ReadLine` returns is the next of the text's lines, and the rest follow it. */
  lemma NextLine(lines: seq<string>, height: nat, remaining: seq<string>, line: string, rest: seq<string>)
    requires height <= |lines| && remaining == lines[height..]
    requires [line] + rest == remaining
    ensures height < |lines| && line == lines[height] && rest == lines[height + 1..]
  {
    assert remaining[0] == lines[height];
    assert remaining[1..] == lines[height + 1..];
  }

  /** One more line read adds the cells of that line after those of the lines before. */
  lemma CellsNextLine(lines: seq<string>, height: nat, keys: seq<string>)
    requires height < |lines|
    ensures Cells(lines[..height + 1], keys) == Cells(lines[..height], keys) + RowCells(Row(lines[height]), height, keys)
  {
    assert lines[..height + 1][..height] == lines[..height];
  }

  /** The cells of the first `j` tokens start the cells of the whole row. */
  lemma {:induction false} RowCellsPrefix(fields: seq<string>, j: nat, y: nat, keys: seq<string>) returns (tail: seq<Cell>)
    requires j <= |fields|
    ensures RowCells(fields, y, keys) == RowCells(fields[..j], y, keys) + tail
    decreases |fields| - j
  {
    if j == |fields| {
      assert fields[..j] == fields;
      tail := [];
    } else {
      var more := RowCellsPrefix(fields, j + 1, y, keys);
      assert fields[..j + 1][..j] == fields[..j];
      tail := (if fields[j] in keys then [Cell(fields[j], j, y)] else []) + more;
    }
  }

  /** The cells of the first `h` lines start the cells of the whole text. */
  lemma {:induction false} CellsPrefixOfLines(lines: seq<string>, h: nat, keys: seq<string>) returns (tail: seq<Cell>)
    requires h <= |lines|
    ensures Cells(lines, keys) == Cells(lines[..h], keys) + tail
    decreases |lines| - h
  {
    if h == |lines| {
      assert lines[..h] == lines;
      tail := [];
    } else {
      var more := CellsPrefixOfLines(lines, h + 1, keys);
      assert lines[..h + 1][..h] == lines[..h];
      tail := RowCells(Row(lines[h]), h, keys) + more;
    }
  }
}
