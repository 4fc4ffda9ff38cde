/** Opening a directory of table files again. */
module LsmReopening {
  import opened ByteStrings
  import opened Options
  import opened SortedEntries
  import opened LittleEndian
  import opened SsTable
  import opened LsmLayers
  import opened LsmStore
  import opened TableNames
  import opened Sequences

  /** `listing` names the files of `dir`, each once, in any order. */
  ghost predicate Lists(listing: seq<Bytes>, dir: map<Bytes, Bytes>) {
    && Distinct(listing)
    && (forall name :: name in listing <==> name in dir)
  }

  function TableNamesIn(listing: seq<Bytes>): (r: seq<Bytes>)
    ensures forall name :: name in r <==> name in listing && IsTableName(name)
  {
    if listing == [] then []
    else if IsTableName(listing[0]) then [listing[0]] + TableNamesIn(listing[1..])
    else TableNamesIn(listing[1..])
  }

  /** The tables of the named files, in the order of the names. */
  function OpenTables(dir: map<Bytes, Bytes>, names: seq<Bytes>): Result<seq<Table>>
    requires forall name :: name in names ==> name in dir
  {
    if names == [] then Ok([])
    else match LoadIndex(dir[names[0]])
      case UnexpectedEof => UnexpectedEof
      case Ok(index) =>
        match OpenTables(dir, names[1..])
        case UnexpectedEof => UnexpectedEof
        case Ok(rest) => Ok([Table(names[0], index)] + rest)
  }

  /** The largest number among the names; names without a number do not count. */
  function MaxSeq(names: seq<Bytes>): nat {
    if names == [] then 0
    else
      var last := names[|names| - 1];
      var m := MaxSeq(names[..|names| - 1]);
      match if IsTableName(last) then SeqNoOf(last) else None
      case Some(n) => if n > m then n else m
      case None => m
  }

  predicate Distinct(s: seq<Bytes>) {
    forall i, j :: 0 <= i < j < |s| ==> s[i] != s[j]
  }

  lemma {:induction false} TableNamesDistinct(listing: seq<Bytes>)
    requires Distinct(listing)
    ensures Distinct(TableNamesIn(listing))
  {
    hide IsTableName;
    if listing != [] {
      var rest := TableNamesIn(listing[1..]);
      assert Distinct(listing[1..]);
      TableNamesDistinct(listing[1..]);
      forall j | 0 <= j < |rest| ensures rest[j] != listing[0] {
        assert rest[j] in listing[1..];
        var k :| 0 <= k < |listing[1..]| && listing[1..][k] == rest[j];
        assert listing[1 + k] != listing[0];
      }
    }
  }

  /** The names of the tables in a listing, sorted. */
  function SortedTableNames(listing: seq<Bytes>): seq<Bytes> {
    SortNames(TableNamesIn(listing))
  }

  lemma SortedTableNamesAre(listing: seq<Bytes>)
    requires Distinct(listing)
    ensures StrictlySorted(SortedTableNames(listing))
    ensures forall name :: name in SortedTableNames(listing) <==> name in listing && IsTableName(name)
  {
    hide SortNames, IsTableName;
    TableNamesDistinct(listing);
    SortNamesSorts(TableNamesIn(listing));
  }

  lemma NothingOpened(dir: map<Bytes, Bytes>)
    ensures OpenTables(dir, []) == Ok([]) && MaxSeq([]) == 0
  {
  }

  lemma OneMoreName(dir: map<Bytes, Bytes>, names: seq<Bytes>, i: nat)
    requires i < |names| && forall name :: name in names ==> name in dir
    ensures names[i] in dir
    ensures OpenTables(dir, names[i..]) ==
            match LoadIndex(dir[names[i]])
            case UnexpectedEof => UnexpectedEof
            case Ok(index) =>
              match OpenTables(dir, names[i + 1..])
              case UnexpectedEof => UnexpectedEof
              case Ok(rest) => Ok([Table(names[i], index)] + rest)
    ensures MaxSeq(names[..i + 1]) ==
            match if IsTableName(names[i]) then SeqNoOf(names[i]) else None
            case Some(n) => (if n > MaxSeq(names[..i]) then n else MaxSeq(names[..i]))
            case None => MaxSeq(names[..i])
  {
    hide LoadIndex, SeqNoOf, IsTableName;
    assert names[i] in names && names[i..][0] == names[i] && names[i..][1..] == names[i + 1..];
    assert names[..i + 1][..i] == names[..i];
  }

  /** Open a directory: load every table's index, newest first, and continue numbering
      after the largest number found. */
  method Open(dir: map<Bytes, Bytes>, listing: seq<Bytes>) returns (r: Result<Lsm>)
    requires Lists(listing, dir)
    ensures forall name :: name in SortedTableNames(listing) ==> name in dir
    ensures var names := SortedTableNames(listing);
            match OpenTables(dir, names)
            case UnexpectedEof => r == UnexpectedEof
            case Ok(tables) =>
              && r.Ok? && fresh(r.value)
              && r.value.dir == dir && r.value.sstables == Reversed(tables)
              && r.value.nextSeq == MaxSeq(names) + 1
              && r.value.memtable == [] && r.value.memtableBytes == 0 && r.value.layers == []
  {
    hide LoadIndex, SeqNoOf, SortedTableNames, IsTableName, Reversed, Distinct, MaxSeq, OpenTables;
    SortedTableNamesAre(listing);
    NothingOpened(dir);
    var names := SortedTableNames(listing);
    var tables: seq<Table> := [];
    var maxSeq: nat := 0;
    ghost var result := OpenTables(dir, names);
    assert names[0..] == names && (result.Ok? ==> tables + result.value == result.value);
    for i := 0 to |names|
      invariant match OpenTables(dir, names[i..])
                case UnexpectedEof => result == UnexpectedEof
                case Ok(rest) => result == Ok(tables + rest)
      invariant maxSeq == MaxSeq(names[..i])
    {
      var name := names[i];
      OneMoreName(dir, names, i);
      var seqNo := if IsTableName(name) then SeqNoOf(name) else None;
      match seqNo {
        case Some(n) => maxSeq := if n > maxSeq then n else maxSeq;
        case None =>
      }
      var loaded := LoadTableIndex(dir[name]);
      match loaded {
        case UnexpectedEof => return UnexpectedEof;
        case Ok(index) =>
          ghost var rest := OpenTables(dir, names[i + 1..]);
          assert rest.Ok? ==> tables + ([Table(name, index)] + rest.value) == (tables + [Table(name, index)]) + rest.value;
          tables := tables + [Table(name, index)];
      }
    }
    assert names[..|names|] == names && tables + [] == tables;
    var store := new Lsm(dir, Reversed(tables), maxSeq + 1);
    r := Ok(store);
  }

  lemma {:induction false} OpenTablesAre(dir: map<Bytes, Bytes>, names: seq<Bytes>, tables: seq<Table>)
    requires forall name :: name in names ==> name in dir
    requires |tables| == |names|
    requires forall i :: 0 <= i < |names| ==> tables[i].name == names[i] && LoadIndex(dir[names[i]]) == Ok(tables[i].index)
    ensures OpenTables(dir, names) == Ok(tables)
  {
    hide LoadIndex;
    if names != [] {
      OpenTablesAre(dir, names[1..], tables[1..]);
      assert tables == [tables[0]] + tables[1..];
    }
  }

  function NumberedNames(n: nat): seq<Bytes> {
    if n == 0 then [] else NumberedNames(n - 1) + [FileName(n)]
  }

  lemma {:induction false} NumberedNamesAre(n: nat)
    ensures var names := NumberedNames(n);
            |names| == n && forall i :: 0 <= i < n ==> names[i] == FileName(i + 1)
  {
    hide FileName;
    if n > 0 {
      NumberedNamesAre(n - 1);
    }
  }

  lemma {:induction false} MaxSeqOfNumbered(n: nat)
    requires n < TWO_TO_THE_64
    ensures MaxSeq(NumberedNames(n)) == n
  {
    hide FileName, SeqNoOf, IsTableName;
    NumberedNamesAre(n);
    if n > 0 {
      MaxSeqOfNumbered(n - 1);
      NumberedNamesAre(n - 1);
      assert NumberedNames(n)[..n - 1] == NumberedNames(n - 1);
      SeqNoRoundTrip(n);
    }
  }

  /** A directory written by the store lists, once sorted, as its tables oldest first. */
  lemma {:induction false} ListingSorted(dir: map<Bytes, Bytes>, sstables: seq<Table>, layers: seq<seq<Record>>, nextSeq: nat, listing: seq<Bytes>)
    requires TablesOk(dir, sstables, layers, nextSeq) && Lists(listing, dir) && nextSeq <= NAMES_IN_ORDER
    ensures SortedTableNames(listing) == NumberedNames(|sstables|)
  {
    hide FileName, FileOf, IndexOf, Fits, IsTableName, SortedTableNames;
    var names := NumberedNames(|sstables|);
    SortedTableNamesAre(listing);
    NumberedNamesAre(|sstables|);
    forall i, j | 0 <= i < j < |names| ensures Less(names[i], names[j]) {
      NamesInOrder(i + 1, j + 1);
    }
    forall name ensures name in SortedTableNames(listing) <==> name in names {
      if name in names {
        var i :| 0 <= i < |names| && names[i] == name;
        assert TableOk(dir, sstables[nextSeq - 2 - i], layers[nextSeq - 2 - i], i + 1);
        SeqNoRoundTrip(i + 1);
      }
      if name in dir {
        var i :| 0 <= i < |sstables| && sstables[i].name == name;
        assert TableOk(dir, sstables[i], layers[i], nextSeq - 1 - i);
        assert names[nextSeq - 2 - i] == name;
      }
    }
    SortedUnique(SortedTableNames(listing), names);
  }

  /** Reopening recovers the tables, their indexes and the numbering, and loses only what
      was never flushed. */
  method Reopen(store: Lsm, listing: seq<Bytes>) returns (r: Result<Lsm>)
    requires store.Valid() && Lists(listing, store.dir) && store.nextSeq <= NAMES_IN_ORDER
    ensures r.Ok? && fresh(r.value)
    ensures r.value.Valid() && r.value.sstables == store.sstables && r.value.nextSeq == store.nextSeq
    ensures r.value.Model() == store.Flushed() == r.value.Flushed() && r.value.memtableBytes == 0
  {
    hide TablesOk, ModelOf, Overlay, OpenTables, MaxSeq, NumberedNames, SortedTableNames, Reversed, MemtableOk;
    ReopenedTables(store.dir, store.sstables, store.layers, store.nextSeq, listing);
    NothingInMemory(store.Flushed());
    r := Open(store.dir, listing);
    r.value.layers := store.layers;
  }

  lemma NothingInMemory(m: map<Bytes, Bytes>)
    ensures Overlay(m, []) == m && MemtableOk([], 0)
  {
  }

  lemma {:induction false} ReopenedTables(dir: map<Bytes, Bytes>, sstables: seq<Table>, layers: seq<seq<Record>>, nextSeq: nat, listing: seq<Bytes>)
    requires TablesOk(dir, sstables, layers, nextSeq) && Lists(listing, dir) && nextSeq <= NAMES_IN_ORDER
    ensures var names := SortedTableNames(listing);
            && (forall name :: name in names ==> name in dir)
            && OpenTables(dir, names) == Ok(Reversed(sstables))
            && MaxSeq(names) + 1 == nextSeq
    ensures Reversed(Reversed(sstables)) == sstables
  {
    hide FileName, FileOf, IndexOf, Fits, LoadIndex, SortedTableNames, MaxSeq;
    var names := NumberedNames(|sstables|);
    NumberedNamesAre(|sstables|);
    ListingSorted(dir, sstables, layers, nextSeq, listing);
    MaxSeqOfNumbered(|sstables|);
    forall i | 0 <= i < |names|
      ensures names[i] in dir && Reversed(sstables)[i].name == names[i]
      ensures LoadIndex(dir[names[i]]) == Ok(Reversed(sstables)[i].index)
    {
      var k := nextSeq - 2 - i;
      assert TableOk(dir, sstables[k], layers[k], i + 1);
      LoadIndexOfFile(layers[k]);
    }
    OpenTablesAre(dir, names, Reversed(sstables));
  }
}
