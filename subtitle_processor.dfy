/** The subtitle repair engine: a processor built once from the mapping rows, whose repair
    applies every mapping entry, in dictionary order, as a replace-all on the text. */
module SubtitleProcessing {
  import opened Text
  import opened MappingTable

  datatype Option<T> = None | Some(value: T)

  /** The text after the replacement loop has run over the entries of `table`, in order:
      a left fold of replace-all, each step working on the previous step's output. */
  function Repair(table: Table, text: String): String
  {
    if table == [] then text
    else
      var n := |table| - 1;
      ReplaceAll(Repair(table[..n], text), table[n].0, table[n].1)
  }

  /** Running two tables one after the other is running their concatenation: the passes
      are sequential, not simultaneous. */
  lemma {:induction false} RepairConcat(t1: Table, t2: Table, text: String)
    ensures Repair(t1 + t2, text) == Repair(t2, Repair(t1, text))
  {
    if t2 == [] {
      assert t1 + t2 == t1;
    } else {
      var n := |t2| - 1;
      assert (t1 + t2)[..|t1| + n] == t1 + t2[..n];
      RepairConcat(t1, t2[..n], text);
    }
  }

  /** An entry that cannot change `text`: it maps a key to itself, or its key is non-empty
      and does not occur. */
  predicate Inert(entry: (String, String), text: String)
  {
    entry.0 == entry.1 || (entry.0 != [] && !Occurs(text, entry.0))
  }

  /** When no entry can change the text, repair returns it unchanged. */
  lemma {:induction false} RepairInert(table: Table, text: String)
    requires forall i :: 0 <= i < |table| ==> Inert(table[i], text)
    ensures Repair(table, text) == text
  {
    if table != [] {
      var n := |table| - 1;
      assert forall i :: 0 <= i < n ==> table[..n][i] == table[i];
      RepairInert(table[..n], text);
      if table[n].0 == table[n].1 {
        ReplaceSelf(text, table[n].0);
      } else {
        ReplaceAbsent(text, table[n].0, table[n].1);
      }
    }
  }

  /** A later entry matches text that an earlier entry produced: with `a -> b` then `b -> c`,
      "a" becomes "c", where a simultaneous substitution would give "b". */
  lemma RepairIsSequential()
    ensures Repair([("a", "b"), ("b", "c")], "a") == "c"
  {
    var t := [("a", "b"), ("b", "c")];
    assert t[..1] == [("a", "b")];
    assert t[..1][..0] == [];
    assert "a"[..1] == "a" && "a"[1..] == [];
    ReplaceMatchStep("a", "a", "b");
    ReplaceShort([], "a", "b");
    assert "b" + [] == "b";
    assert Repair(t[..1], "a") == "b";
    assert "b"[..1] == "b" && "b"[1..] == [];
    ReplaceMatchStep("b", "b", "c");
    ReplaceShort([], "b", "c");
    assert "c" + [] == "c";
  }

  const Apostrophe: String := "â€™"
  const LeftQuote: String := "â€œ"

  /** The rows `â€™,'` and `â€œ,"` load, in that order, as two entries. */
  lemma ApostropheTableLoads()
    ensures Load([map[CorruptedField := Apostrophe, ReplacementField := "'"],
                  map[CorruptedField := LeftQuote, ReplacementField := "\""]])
         == Ok([(Apostrophe, "'"), (LeftQuote, "\"")])
  {
    var rows := [map[CorruptedField := Apostrophe, ReplacementField := "'"],
                 map[CorruptedField := LeftQuote, ReplacementField := "\""]];
    assert LeftQuote[2] != Apostrophe[2];
    assert CorruptedField != ReplacementField;
    assert rows[..1][..0] == [];
    assert rows[..1][0] == rows[0];
    assert rows[0][CorruptedField] == Apostrophe && rows[0][ReplacementField] == "'";
    assert rows[1][CorruptedField] == LeftQuote && rows[1][ReplacementField] == "\"";
    assert Put([], Apostrophe, "'") == [(Apostrophe, "'")];
    assert Load(rows[..1]) == Ok([(Apostrophe, "'")]);
    assert Keys([(Apostrophe, "'")]) == [Apostrophe];
    assert LeftQuote !in [Apostrophe];
    assert Put([(Apostrophe, "'")], LeftQuote, "\"") == [(Apostrophe, "'"), (LeftQuote, "\"")];
  }

  /** The single mis-decoded apostrophe in the line is replaced, and nothing else changes. */
  lemma ApostropheReplaced()
    ensures ReplaceAll("Itâ€™s a test", Apostrophe, "'") == "It's a test"
  {
    assert "Itâ€™s a test" == "It" + Apostrophe + "s a test";
    ReplaceSingleMatch("It", "s a test", Apostrophe, "'");
    assert "It" + "'" + "s a test" == "It's a test";
  }

  /** With that table, the UTF-8 apostrophe read as Windows-1252 becomes an apostrophe again. */
  lemma ApostropheScenario()
    ensures Repair([(Apostrophe, "'"), (LeftQuote, "\"")], "Itâ€™s a test") == "It's a test"
  {
    var table := [(Apostrophe, "'"), (LeftQuote, "\"")];
    assert table[..1] == [(Apostrophe, "'")] && table[..1][..0] == [];
    ApostropheReplaced();
    assert Repair(table[..1], "Itâ€™s a test") == "It's a test";
    FirstCharAbsent("It's a test", LeftQuote);
    ReplaceAbsent("It's a test", LeftQuote, "\"");
  }

  /** A header-only mapping source loads as the empty table, which repairs nothing. */
  lemma HeaderOnlySourceRepairsNothing(text: String)
    ensures Load([]) == Ok([])
    ensures Repair(Load([]).value, text) == text
  {
  }

  class SubtitleProcessor {
    /** The character mappings, fixed at construction. */
    const mappings: Table

    constructor FromTable(table: Table)
      ensures mappings == table
    {
      mappings := table;
    }

    /** Reads the rows in order into a dictionary from `corrupted` to `replacement`,
        stopping with `KeyError` at the first row missing either field. */
    static method LoadCharacterMappings(rows: seq<Row>) returns (res: Result<Table>)
      ensures res == Load(rows)
      ensures res.Ok? ==> DistinctKeys(res.value)
    {
      var characterMappings: Table := [];
      var i := 0;
      while i < |rows|
        invariant 0 <= i <= |rows|
        invariant Load(rows[..i]) == Ok(characterMappings)
      {
        var row := rows[i];
        if ReplacementField !in row || CorruptedField !in row {
          LoadOkIffWellFormed(rows[..i]);
          LoadFailsAtFirstBadRow(rows, i);
          return KeyError(MissingField(row));
        }
        assert rows[..i + 1][..i] == rows[..i];
        characterMappings := Put(characterMappings, row[CorruptedField], row[ReplacementField]);
        i := i + 1;
      }
      assert rows[..i] == rows;
      return Ok(characterMappings);
    }

    /** The processor for a mapping source, or the `KeyError` its loading raises. */
    static method Create(rows: seq<Row>) returns (res: Result<SubtitleProcessor>)
      ensures res.Ok? <==> Load(rows).Ok?
      ensures res.Ok? ==> fresh(res.value) && res.value.mappings == Load(rows).value
      ensures res.KeyError? ==> res.key == Load(rows).key
    {
      var loaded := LoadCharacterMappings(rows);
      if loaded.KeyError? {
        return KeyError(loaded.key);
      }
      var p := new SubtitleProcessor.FromTable(loaded.value);
      res := Ok(p);
    }

    /** Repairs one subtitle file. `readDecoded` stands for reading the file and decoding
        it with the detected encoding; `None` is a failure of either, which propagates. */
    method FixCorruptedSrtFile(path: String, readDecoded: String -> Option<String>)
      returns (res: Option<String>)
      ensures res.None? <==> readDecoded(path).None?
      ensures res.Some? ==> res.value == Repair(mappings, readDecoded(path).value)
    {
      var decoded := readDecoded(path);
      if decoded.None? {
        return None;
      }
      var content := decoded.value;
      var i := 0;
      while i < |mappings|
        invariant 0 <= i <= |mappings|
        invariant content == Repair(mappings[..i], decoded.value)
      {
        assert mappings[..i + 1][..i] == mappings[..i];
        content := ReplaceAll(content, mappings[i].0, mappings[i].1);
        i := i + 1;
      }
      assert mappings[..i] == mappings;
      return Some(content);
    }
  }

  /** Two repairs of the same file by the same processor agree: repair reads the mappings
      and changes nothing. */
  method RepairTwice(p: SubtitleProcessor, path: String, readDecoded: String -> Option<String>)
    returns (first: Option<String>, second: Option<String>)
    ensures first == second
    ensures first.Some? ==> readDecoded(path).Some? && first.value == Repair(p.mappings, readDecoded(path).value)
  {
    first := p.FixCorruptedSrtFile(path, readDecoded);
    second := p.FixCorruptedSrtFile(path, readDecoded);
  }
}
