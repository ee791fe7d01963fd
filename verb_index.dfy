/**
 * The verb lookup index of the Hindi verb checker: the dictionary
 * `form_to_row` built from the verb rows, and the query policy that reads it.
 */
module VerbIndex {
  import opened Wrappers
  import opened Text

  /** One row of the verb table. `romanized` is `None` where pandas holds a
      missing value. */
  datatype VerbRow = VerbRow(
    root: string,
    romanized: Option<string>,
    verbForms: string,
    countVf: int,
    frequency: int)

  /** `form_to_row`: surface form to owning row. */
  type Index = map<string, VerbRow>

  /** Each piece stripped, in order. */
  function StripEach(forms: seq<string>): (keys: seq<string>)
    ensures |keys| == |forms|
  {
    if forms == [] then []
    else StripEach(forms[..|forms| - 1]) + [Strip(forms[|forms| - 1])]
  }

  lemma {:induction false} StripEachAt(forms: seq<string>, n: nat)
    requires n < |forms|
    ensures |StripEach(forms)| == |forms| && StripEach(forms)[n] == Strip(forms[n])
  {
    if n < |forms| - 1 {
      StripEachAt(forms[..|forms| - 1], n);
    } else if n > 0 {
      StripEachAt(forms[..|forms| - 1], 0);
    }
  }

  /** The stripped comma-separated pieces of a root, empty pieces included. */
  function RootKeys(root: string): seq<string> {
    StripEach(Split(root, ','))
  }

  /** The stripped, lower-cased romanized gloss, when there is one. */
  function RomanizedKeys(row: VerbRow): seq<string> {
    match row.romanized
    case None => []
    case Some(gloss) => [Lower(Strip(gloss))]
  }

  /** Every key one row writes, in the order it writes them: root pieces
      first, the romanized gloss last. */
  function RowKeys(row: VerbRow): seq<string> {
    RootKeys(row.root) + RomanizedKeys(row)
  }

  /** Writes `row` under each of `keys`, in order, on top of `m`. */
  function Register(m: Index, keys: seq<string>, row: VerbRow): Index {
    if keys == [] then m
    else Register(m, keys[..|keys| - 1], row)[keys[|keys| - 1] := row]
  }

  /** After registering, a key is present exactly when it was before or is
      one of `keys`; the keys written point at `row` and every other key
      keeps its old row. */
  lemma {:induction false} RegisterWrites(m: Index, keys: seq<string>, row: VerbRow, k: string)
    ensures k in Register(m, keys, row) <==> k in m || k in keys
    ensures k in keys ==> Register(m, keys, row)[k] == row
    ensures k in m && k !in keys ==> Register(m, keys, row)[k] == m[k]
  {
    if keys != [] {
      var init := keys[..|keys| - 1];
      RegisterWrites(m, init, row, k);
      assert keys == init + [keys[|keys| - 1]];
    }
  }

  lemma RegisterSnoc(m: Index, keys: seq<string>, k: string, row: VerbRow)
    ensures Register(m, keys + [k], row) == Register(m, keys, row)[k := row]
  {
    assert (keys + [k])[..|keys|] == keys;
  }

  /** The writes one row makes into the dictionary: its keys, in order,
      each pointing at the row. */
  datatype Batch = Batch(keys: seq<string>, row: VerbRow)

  /** The batches of the rows, in row order. */
  function Batches(rows: seq<VerbRow>): (bs: seq<Batch>) {
    seq(|rows|, i requires 0 <= i < |rows| => Batch(RowKeys(rows[i]), rows[i]))
  }

  lemma BatchesExtend(rows: seq<VerbRow>, i: nat)
    requires i < |rows|
    ensures Batches(rows[..i + 1]) == Batches(rows[..i]) + [Batch(RowKeys(rows[i]), rows[i])]
  {
    var a, b := Batches(rows[..i + 1]), Batches(rows[..i]) + [Batch(RowKeys(rows[i]), rows[i])];
    assert |a| == |b|;
    forall n | 0 <= n < |a| ensures a[n] == b[n] {
      if n < i {
        assert rows[..i + 1][n] == rows[..i][n];
      }
    }
  }

  /** The dictionary after the batches have been applied in order: a left
      fold of `Register`. */
  function Apply(bs: seq<Batch>): Index {
    if bs == [] then map[]
    else
      var last := bs[|bs| - 1];
      Register(Apply(bs[..|bs| - 1]), last.keys, last.row)
  }

  /** `form_to_row` as app.py leaves it after processing `rows`. */
  function Build(rows: seq<VerbRow>): Index {
    Apply(Batches(rows))
  }

  /** The index loop of app.py: the rows are processed in input order. */
  method BuildIndex(rows: seq<VerbRow>) returns (formToRow: Index)
    ensures formToRow == Build(rows)
  {
    formToRow := map[];
    for i := 0 to |rows|
      invariant formToRow == Build(rows[..i])
    {
      formToRow := AddRow(formToRow, rows[i]);
      assert rows[..i + 1][..i] == rows[..i];
      BatchesExtend(rows, i);
    }
    assert rows[..|rows|] == rows;
  }

  /** The body of that loop for one row: the root pieces, then the
      romanized gloss if present. */
  method AddRow(formToRow: Index, row: VerbRow) returns (m: Index)
    ensures m == Register(formToRow, RowKeys(row), row)
  {
    m := AddPieces(formToRow, Split(row.root, ','), row);
    if row.romanized.Some? {
      var gloss := Lower(Strip(row.romanized.value));
      assert RomanizedKeys(row) == [gloss];
      assert RowKeys(row) == RootKeys(row.root) + [gloss];
      RegisterSnoc(formToRow, RootKeys(row.root), gloss, row);
      m := m[gloss := row];
    } else {
      assert RomanizedKeys(row) == [];
      assert RowKeys(row) == RootKeys(row.root);
    }
  }

  /** The inner loop of app.py: each piece is stripped and written. */
  method AddPieces(formToRow: Index, forms: seq<string>, row: VerbRow) returns (m: Index)
    ensures m == Register(formToRow, StripEach(forms), row)
  {
    ghost var keys := StripEach(forms);
    m := formToRow;
    for j := 0 to |forms|
      invariant m == Register(formToRow, keys[..j], row)
    {
      var form := Strip(forms[j]);
      StripEachAt(forms, j);
      assert keys[..j + 1] == keys[..j] + [form];
      RegisterSnoc(formToRow, keys[..j], form, row);
      m := m[form := row];
    }
    assert keys[..|forms|] == keys;
  }

  /** Reference definition of last-write-wins: the position of the last
      batch that writes key `k`, if any. */
  function LastWriter(bs: seq<Batch>, k: string): (w: Option<nat>)
    ensures w.Some? ==> w.value < |bs| && k in bs[w.value].keys
    ensures w.Some? ==> forall j :: w.value < j < |bs| ==> k !in bs[j].keys
    ensures w.None? ==> forall j :: 0 <= j < |bs| ==> k !in bs[j].keys
  {
    if bs == [] then None
    else if k in bs[|bs| - 1].keys then Some(|bs| - 1)
    else LastWriter(bs[..|bs| - 1], k)
  }

  /** The folded dictionary holds exactly the keys some batch writes, and
      each maps to the row of the last batch that writes it. */
  lemma {:induction false} ApplyIsLastWriteWins(bs: seq<Batch>, k: string)
    ensures k in Apply(bs) <==> LastWriter(bs, k).Some?
    ensures k in Apply(bs) ==> Apply(bs)[k] == bs[LastWriter(bs, k).value].row
  {
    if bs != [] {
      var prefix := bs[..|bs| - 1];
      ApplyIsLastWriteWins(prefix, k);
      RegisterWrites(Apply(prefix), bs[|bs| - 1].keys, bs[|bs| - 1].row, k);
      if k !in bs[|bs| - 1].keys {
        assert LastWriter(bs, k) == LastWriter(prefix, k);
        if LastWriter(prefix, k).Some? {
          assert bs[LastWriter(prefix, k).value] == prefix[LastWriter(prefix, k).value];
        }
      }
    }
  }

  /** The row index that owns key `k` after the build, if any. */
  function Owner(rows: seq<VerbRow>, k: string): (w: Option<nat>)
    ensures w.Some? ==> w.value < |rows| && k in RowKeys(rows[w.value])
    ensures w.Some? ==> forall j :: w.value < j < |rows| ==> k !in RowKeys(rows[j])
    ensures w.None? ==> forall j :: 0 <= j < |rows| ==> k !in RowKeys(rows[j])
  {
    var bs := Batches(rows);
    var w := LastWriter(bs, k);
    assert forall j :: 0 <= j < |rows| ==> bs[j].keys == RowKeys(rows[j]);
    w
  }

  /** Nothing but the rows' keys enters the dictionary, every key of a row
      does, and each key maps to the last row that writes it. */
  lemma BuildIsLastWriteWins(rows: seq<VerbRow>, k: string)
    ensures k in Build(rows) <==> Owner(rows, k).Some?
    ensures k in Build(rows) ==> Build(rows)[k] == rows[Owner(rows, k).value]
  {
    ApplyIsLastWriteWins(Batches(rows), k);
  }

  /** Every key of the dictionary comes from some row, and maps to a row
      that writes it. */
  lemma BuildKeysComeFromRows(rows: seq<VerbRow>, k: string)
    requires k in Build(rows)
    ensures exists i :: 0 <= i < |rows| && k in RowKeys(rows[i]) && Build(rows)[k] == rows[i]
  {
    BuildIsLastWriteWins(rows, k);
    var i := Owner(rows, k).value;
    assert k in RowKeys(rows[i]) && Build(rows)[k] == rows[i];
  }

  /** Each stripped piece of a row's root becomes a key, even a piece that
      strips to the empty string, owned by that row or a later one. */
  lemma RootPieceIsKey(rows: seq<VerbRow>, i: nat, p: string)
    requires i < |rows| && p in Split(rows[i].root, ',')
    ensures Strip(p) in Build(rows)
    ensures Owner(rows, Strip(p)).Some? && Owner(rows, Strip(p)).value >= i
    ensures Build(rows)[Strip(p)] == rows[Owner(rows, Strip(p)).value]
  {
    var forms := Split(rows[i].root, ',');
    var n :| 0 <= n < |forms| && forms[n] == p;
    StripEachAt(forms, n);
    assert RowKeys(rows[i])[n] == Strip(p);
    BuildIsLastWriteWins(rows, Strip(p));
  }

  /** The last row owns every stripped piece of its root. */
  lemma LastRowOwnsItsPieces(rows: seq<VerbRow>, p: string)
    requires |rows| > 0 && p in Split(rows[|rows| - 1].root, ',')
    ensures Strip(p) in Build(rows) && Build(rows)[Strip(p)] == rows[|rows| - 1]
  {
    RootPieceIsKey(rows, |rows| - 1, p);
  }

  /** A present romanized gloss, stripped and lower-cased, becomes a key,
      owned by that row or by a later row that writes the same key. */
  lemma RomanizedIsKey(rows: seq<VerbRow>, i: nat)
    requires i < |rows| && rows[i].romanized.Some?
    ensures Lower(Strip(rows[i].romanized.value)) in Build(rows)
    ensures Owner(rows, Lower(Strip(rows[i].romanized.value))).Some?
    ensures Owner(rows, Lower(Strip(rows[i].romanized.value))).value >= i
    ensures Build(rows)[Lower(Strip(rows[i].romanized.value))]
         == rows[Owner(rows, Lower(Strip(rows[i].romanized.value))).value]
  {
    var key := Lower(Strip(rows[i].romanized.value));
    assert RowKeys(rows[i])[|RowKeys(rows[i])| - 1] == key;
    BuildIsLastWriteWins(rows, key);
  }

  /** What a query yields: nothing is looked up for empty input. */
  datatype LookupResult = NotAttempted | NotFound | Found(row: VerbRow)

  /** The query policy: strip the raw input, try it verbatim, then try it
      lower-cased. */
  function Lookup(index: Index, userInput: string): (r: LookupResult)
    ensures r.NotAttempted? <==> userInput == []
    ensures r.Found? ==> r.row in index.Values
    ensures userInput != [] && Strip(userInput) in index ==> r == Found(index[Strip(userInput)])
    ensures userInput != [] && Strip(userInput) !in index && Lower(Strip(userInput)) in index ==>
              r == Found(index[Lower(Strip(userInput))])
    ensures r.NotFound? <==> userInput != [] && Strip(userInput) !in index && Lower(Strip(userInput)) !in index
  {
    if userInput == [] then NotAttempted
    else
      var clean := Strip(userInput);
      if clean in index then Found(index[clean])
      else if Lower(clean) in index then Found(index[Lower(clean)])
      else NotFound
  }

  /** Leading or trailing whitespace on a non-empty query never changes
      its result. */
  lemma LookupIgnoresPadding(index: Index, q: string, pre: string, post: string)
    requires q != [] && AllSpace(pre) && AllSpace(post)
    ensures Lookup(index, pre + q + post) == Lookup(index, q)
  {
    StripIgnoresPadding(pre, q, post);
  }

  /** A non-empty query made only of whitespace matches the empty key. */
  lemma BlankQueryMatchesEmptyKey(index: Index, q: string)
    requires q != [] && AllSpace(q) && [] in index
    ensures Lookup(index, q) == Found(index[[]])
  {
    StripAllSpace(q);
  }

  /** A query whose stripped form is a stripped root piece resolves to the
      row that last wrote that piece. */
  lemma LookupFindsRootPiece(rows: seq<VerbRow>, i: nat, p: string, q: string)
    requires i < |rows| && p in Split(rows[i].root, ',')
    requires q != [] && Strip(q) == Strip(p)
    ensures Owner(rows, Strip(p)).Some?
    ensures Lookup(Build(rows), q) == Found(rows[Owner(rows, Strip(p)).value])
  {
    RootPieceIsKey(rows, i, p);
  }

  /** A query that matches a romanized gloss up to surrounding whitespace
      and ASCII case, and that is not itself a key, resolves to the row that
      last wrote the gloss. */
  lemma LookupFindsRomanized(rows: seq<VerbRow>, i: nat, q: string)
    requires i < |rows| && rows[i].romanized.Some?
    requires q != [] && Lower(Strip(q)) == Lower(Strip(rows[i].romanized.value))
    requires Owner(rows, Strip(q)).None?
    ensures Owner(rows, Lower(Strip(q))).Some?
    ensures Lookup(Build(rows), q) == Found(rows[Owner(rows, Lower(Strip(q))).value])
  {
    RomanizedIsKey(rows, i);
    BuildIsLastWriteWins(rows, Strip(q));
  }

  /** A non-empty query resolves to the last row writing its stripped form,
      else to the last row writing its stripped, lower-cased form, else to
      nothing. */
  lemma LookupIsLastWriter(rows: seq<VerbRow>, q: string)
    requires q != []
    ensures Lookup(Build(rows), q) ==
              if Owner(rows, Strip(q)).Some? then Found(rows[Owner(rows, Strip(q)).value])
              else if Owner(rows, Lower(Strip(q))).Some? then Found(rows[Owner(rows, Lower(Strip(q))).value])
              else NotFound
  {
    BuildIsLastWriteWins(rows, Strip(q));
    BuildIsLastWriteWins(rows, Lower(Strip(q)));
  }

  /** A non-empty query is not found exactly when no row writes its
      stripped form or its stripped, lower-cased form. */
  lemma LookupNotFound(rows: seq<VerbRow>, q: string)
    ensures Lookup(Build(rows), q) == NotFound
        <==> q != [] && Owner(rows, Strip(q)).None? && Owner(rows, Lower(Strip(q))).None?
  {
    BuildIsLastWriteWins(rows, Strip(q));
    BuildIsLastWriteWins(rows, Lower(Strip(q)));
  }

  /** A row whose root lists two spellings and whose gloss is English. */
  const TwoSpellings := VerbRow("kh\U{0101},khaa", Some("eat"), "kh\U{0101}n\U{0101}", 5, 120)

  lemma TwoSpellingsRootKeys()
    ensures RootKeys(TwoSpellings.root) == ["kh\U{0101}", "khaa"]
  {
    SplitTwoSpellings();
    StripEachTwoSpellings(["kh\U{0101}", "khaa"]);
  }

  lemma SplitTwoSpellings()
    ensures Split("kh\U{0101},khaa", ',') == ["kh\U{0101}", "khaa"]
  {
    assert "kh\U{0101},khaa" == "kh\U{0101}" + [','] + "khaa";
    SplitPrefix("kh\U{0101}", "khaa", ',');
    SplitNoSep("khaa", ',');
  }

  lemma StripEachTwoSpellings(pieces: seq<string>)
    requires pieces == ["kh\U{0101}", "khaa"]
    ensures StripEach(pieces) == pieces
  {
    StripKeepsTrimmed(pieces[0]);
    StripKeepsTrimmed(pieces[1]);
    StripEachAt(pieces, 0);
    StripEachAt(pieces, 1);
  }

  lemma TwoSpellingsKeys()
    ensures RowKeys(TwoSpellings) == ["kh\U{0101}", "khaa", "eat"]
  {
    TwoSpellingsRootKeys();
    GlossKeyOfEat();
    assert RomanizedKeys(TwoSpellings) == ["eat"];
  }

  lemma GlossKeyOfEat()
    ensures Lower(Strip("eat")) == "eat"
  {
    StripKeepsTrimmed("eat");
    LowerAt("eat");
  }

  /** The dictionary built from that one row holds its two spellings and its
      gloss, and nothing else. */
  lemma TwoSpellingsIndex()
    ensures Build([TwoSpellings]) == map["kh\U{0101}" := TwoSpellings, "khaa" := TwoSpellings, "eat" := TwoSpellings]
  {
    var row := TwoSpellings;
    var keys := ["kh\U{0101}", "khaa", "eat"];
    TwoSpellingsKeys();
    var bs := Batches([row]);
    assert bs == [Batch(keys, row)];
    assert bs[..0] == [];
    assert Apply(bs[..0]) == map[];
    assert Apply(bs) == Register(map[], keys, row);
    RegisterThree(keys, row);
  }

  lemma RegisterThree(keys: seq<string>, row: VerbRow)
    requires keys == ["kh\U{0101}", "khaa", "eat"]
    ensures Register(map[], keys, row) == map["kh\U{0101}" := row, "khaa" := row, "eat" := row]
  {
    RegisterSnoc(map[], [], keys[0], row);
    RegisterSnoc(map[], keys[..1], keys[1], row);
    RegisterSnoc(map[], keys[..2], keys[2], row);
    assert [] + [keys[0]] == keys[..1];
    assert keys[..1] + [keys[1]] == keys[..2];
    assert keys[..2] + [keys[2]] == keys;
  }

  /** Each spelling, the gloss in any ASCII case, and a spelling with a
      trailing blank all find the row; an unrelated word does not. */
  lemma TwoSpellingsLookups()
    ensures var index := Build([TwoSpellings]);
            && Lookup(index, "kh\U{0101}") == Found(TwoSpellings)
            && Lookup(index, "EAT") == Found(TwoSpellings)
            && Lookup(index, "khaa ") == Found(TwoSpellings)
            && Lookup(index, "drink") == NotFound
  {
    TwoSpellingsIndex();
    LookupsInTwoSpellingsIndex(Build([TwoSpellings]));
  }

  /** The dictionary of that one row, written out. */
  predicate IsTwoSpellingsIndex(index: Index) {
    index == map["kh\U{0101}" := TwoSpellings, "khaa" := TwoSpellings, "eat" := TwoSpellings]
  }

  lemma LookupsInTwoSpellingsIndex(index: Index)
    requires IsTwoSpellingsIndex(index)
    ensures Lookup(index, "kh\U{0101}") == Found(TwoSpellings)
    ensures Lookup(index, "EAT") == Found(TwoSpellings)
    ensures Lookup(index, "khaa ") == Found(TwoSpellings)
    ensures Lookup(index, "drink") == NotFound
  {
    StripKeepsTrimmed("kh\U{0101}");
    FindsUpperCaseGloss(index);
    FindsPaddedSpelling(index);
    MissesUnrelatedWord(index);
  }

  lemma FindsUpperCaseGloss(index: Index)
    requires IsTwoSpellingsIndex(index)
    ensures Lookup(index, "EAT") == Found(TwoSpellings)
  {
    StripKeepsTrimmed("EAT");
    LowerAt("EAT");
    assert Lower("EAT")[0] == 'e' && Lower("EAT")[1] == 'a' && Lower("EAT")[2] == 't';
    assert Lower("EAT") == "eat";
  }

  lemma FindsPaddedSpelling(index: Index)
    requires IsTwoSpellingsIndex(index)
    ensures Lookup(index, "khaa ") == Found(TwoSpellings)
  {
    StripKeepsTrimmed("khaa");
    StripIgnoresPadding([], "khaa", " ");
    assert [] + "khaa" + " " == "khaa ";
  }

  lemma MissesUnrelatedWord(index: Index)
    requires IsTwoSpellingsIndex(index)
    ensures Lookup(index, "drink") == NotFound
  {
    StripKeepsTrimmed("drink");
    LowerAt("drink");
    assert Lower("drink") == "drink";
  }
}
