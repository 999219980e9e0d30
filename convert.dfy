/** The column dictionary and header normalisation of the China Study raw-data
    converter: parsing the two-lines-per-record column-name file into three
    ordered dictionaries (ColNames), classifying cells as missing or numeric
    text (convert_column), and the per-file header step of extract_dataset. */
module Convert {
  import opened Wrappers
  import opened PyStr
  import opened OrderedDict

  /** The exceptions the converter can raise. */
  datatype Error =
    | ColumnNameExists(name: string)   // ValueError: a repeated original or nice name
    | UnexpectedColumn(name: string)   // ValueError: a header name outside the schema
    | NoColumns                        // IndexError: df.columns[-1] of a frame without columns
    | NoFiles                          // TypeError: reduce() over an empty list of frames

  // ===========================================================================
  // Pairing the lines of the column-name file

  /** s[start::2]. */
  function EveryOther<T>(s: seq<T>, start: nat): seq<T>
    decreases |s| - start
  {
    if start >= |s| then [] else [s[start]] + EveryOther(s, start + 2)
  }

  /** zip(a, b): pairs up to the length of the shorter sequence. */
  function Zip<A, B>(a: seq<A>, b: seq<B>): seq<(A, B)> {
    if a == [] || b == [] then [] else [(a[0], b[0])] + Zip(a[1..], b[1..])
  }

  /** One record: the first line followed by the second line from its fifth
      character on, stripped, with every newline removed. */
  function JoinPair(first: string, second: string): string {
    RemoveChar(first + Strip(SliceFrom(second, 4)), '\n')
  }

  /** The list comprehension over zip(lines[::2], lines[1::2]). */
  function JoinRecords(lines: seq<string>): seq<string> {
    var pairs := Zip(EveryOther(lines, 0), EveryOther(lines, 1));
    seq(|pairs|, k requires 0 <= k < |pairs| => JoinPair(pairs[k].0, pairs[k].1))
  }

  lemma {:induction false} EveryOtherAt<T>(s: seq<T>, start: nat)
    requires start <= |s|
    ensures |EveryOther(s, start)| == (|s| - start + 1) / 2
    ensures forall k :: 0 <= k < |EveryOther(s, start)| ==> EveryOther(s, start)[k] == s[start + 2 * k]
    decreases |s| - start
  {
    if start < |s| {
      var rest := EveryOther(s, start + 2);
      if start + 2 <= |s| {
        EveryOtherAt(s, start + 2);
      } else {
        assert rest == [];
      }
      var all := EveryOther(s, start);
      assert all == [s[start]] + rest;
      forall k | 0 <= k < |all| ensures all[k] == s[start + 2 * k] {
        if k > 0 {
          assert all[k] == rest[k - 1];
        }
      }
    }
  }

  lemma {:induction false} ZipAt<A, B>(a: seq<A>, b: seq<B>)
    ensures |Zip(a, b)| == if |a| < |b| then |a| else |b|
    ensures forall k :: 0 <= k < |Zip(a, b)| ==> Zip(a, b)[k] == (a[k], b[k])
  {
    if a != [] && b != [] {
      ZipAt(a[1..], b[1..]);
    }
  }

  /** There are len(lines) // 2 records, an unpaired last line is ignored, and
      record k is built from lines 2k and 2k+1. */
  lemma JoinRecordsAt(lines: seq<string>)
    ensures |JoinRecords(lines)| == |lines| / 2
    ensures forall k :: 0 <= k < |lines| / 2 ==>
      JoinRecords(lines)[k] == JoinPair(lines[2 * k], lines[2 * k + 1])
  {
    var evens, odds := EveryOther(lines, 0), EveryOther(lines, 1);
    var pairs := Zip(evens, odds);
    EveryOtherAt(lines, 0);
    if |lines| >= 1 {
      EveryOtherAt(lines, 1);
    } else {
      assert odds == [];
    }
    ZipAt(evens, odds);
    assert |pairs| == |lines| / 2;
    forall k | 0 <= k < |lines| / 2
      ensures JoinRecords(lines)[k] == JoinPair(lines[2 * k], lines[2 * k + 1])
    {
      assert pairs[k] == (evens[k], odds[k]);
      assert evens[k] == lines[2 * k];
      assert odds[k] == lines[1 + 2 * k];
    }
  }

  // ===========================================================================
  // From a record to an entry of the dictionary

  /** What one record contributes: its original name, its nice name and its
      description. */
  datatype Entry = Entry(orig: string, nice: string, desc: string)

  /** The body of the parsing loop for one record, up to the duplicate checks:
      nothing for fewer than two fields. */
  function RecordEntry(record: string): Option<Entry> {
    var fields := Split(record);
    if |fields| > 1 then
      var orig := fields[0];
      Some(Entry(orig, [orig[0]] + "_" + fields[1], Join(" ", fields[2..])))
    else None
  }

  /** A record yields an entry exactly when it has at least two fields; the
      original name is the first field and is a non-empty word, the nice name is
      its first character, an underscore and the second field, and the
      description's words are exactly the remaining fields, so the fields can be
      recovered from the entry. The description is empty exactly when there are
      only two fields. */
  lemma RecordEntryFields(record: string)
    ensures RecordEntry(record).None? <==> |Split(record)| < 2
    ensures RecordEntry(record).Some? ==>
      var e, fields := RecordEntry(record).value, Split(record);
      e.orig != [] && NoSpace(e.orig) &&
      |e.nice| >= 2 && e.nice[0] == e.orig[0] && e.nice[1] == '_' &&
      fields == [e.orig, e.nice[2..]] + Split(e.desc) &&
      Trimmed(e.desc) && (e.desc == "" <==> |fields| == 2)
  {
    var fields := Split(record);
    if |fields| > 1 {
      var e := RecordEntry(record).value;
      assert Words(fields[2..]);
      SplitJoin(fields[2..]);
      JoinTrimmed(fields[2..]);
      assert e.nice[2..] == fields[1];
      assert fields == [fields[0], fields[1]] + fields[2..];
    }
  }

  /** The entries of the records that have at least two fields, in order. */
  function Entries(records: seq<string>): seq<Entry> {
    if records == [] then []
    else
      var init := Entries(records[..|records| - 1]);
      match RecordEntry(records[|records| - 1])
      case Some(e) => init + [e]
      case None => init
  }

  lemma {:induction false} EntriesAppend(a: seq<string>, b: seq<string>)
    ensures Entries(a + b) == Entries(a) + Entries(b)
    decreases |b|
  {
    if b == [] {
      assert a + b == a;
    } else {
      var b' := b[..|b| - 1];
      assert (a + b)[..|a + b| - 1] == a + b';
      assert (a + b)[|a + b| - 1] == b[|b| - 1];
      EntriesAppend(a, b');
    }
  }

  lemma EntriesStep(records: seq<string>, i: nat)
    requires i < |records|
    ensures RecordEntry(records[i]).None? ==> Entries(records[..i + 1]) == Entries(records[..i])
    ensures RecordEntry(records[i]).Some? ==>
      Entries(records[..i + 1]) == Entries(records[..i]) + [RecordEntry(records[i]).value]
  {
    assert records[..i + 1][..i] == records[..i];
  }

  function Origs(es: seq<Entry>): seq<string> {
    seq(|es|, i requires 0 <= i < |es| => es[i].orig)
  }

  function Nices(es: seq<Entry>): seq<string> {
    seq(|es|, i requires 0 <= i < |es| => es[i].nice)
  }

  // ===========================================================================
  // The three dictionaries

  /** The state of a ColNames object: nice_names maps each original name to its
      nice name, orig_names maps each nice name back to its original name, and
      descriptions maps each nice name to its description. */
  datatype Tables = Tables(niceNames: ODict<string>, origNames: ODict<string>, descriptions: ODict<string>) {

    /** The dictionaries are filled in lockstep: entry i of nice_names and entry
        i of orig_names are the two directions of one pair, and descriptions has
        the keys of orig_names in the same order. */
    ghost predicate Valid() {
      niceNames.Valid() && origNames.Valid() && descriptions.Valid() &&
      |niceNames.keys| == |origNames.keys| &&
      descriptions.keys == origNames.keys &&
      forall i :: 0 <= i < |niceNames.keys| ==>
        niceNames.m[niceNames.keys[i]] == origNames.keys[i] &&
        origNames.m[origNames.keys[i]] == niceNames.keys[i]
    }
  }

  const NoTables: Tables := Tables(Empty(), Empty(), Empty())

  /** One accepted record: reject a known original name, then a known nice
      name; otherwise insert into all three dictionaries. */
  function AddEntry(t: Tables, e: Entry): (r: Result<Tables, Error>)
    requires t.Valid()
    ensures r.Ok? ==> r.value.Valid()
  {
    if e.orig in t.niceNames.m then Err(ColumnNameExists(e.orig))
    else if e.nice in t.origNames.m then Err(ColumnNameExists(e.nice))
    else
      var r := Tables(t.niceNames.Set(e.orig, e.nice),
                      t.origNames.Set(e.nice, e.orig),
                      t.descriptions.Set(e.nice, e.desc));
      assert forall i :: 0 <= i < |t.niceNames.keys| ==>
        t.niceNames.keys[i] != e.orig && t.origNames.keys[i] != e.nice;
      Ok(r)
  }

  /** Filling empty dictionaries with the entries in order, stopping at the
      first error. */
  function Build(es: seq<Entry>): (r: Result<Tables, Error>)
    ensures r.Ok? ==> r.value.Valid()
  {
    if es == [] then Ok(NoTables)
    else
      match Build(es[..|es| - 1])
      case Err(e) => Err(e)
      case Ok(t) => AddEntry(t, es[|es| - 1])
  }

  /** What parsing a whole column-name file produces. */
  function Parse(lines: seq<string>): Result<Tables, Error> {
    Build(Entries(JoinRecords(lines)))
  }

  /** The dictionaries hold exactly the entries: keys in input order, and each
      entry's pair and description under its names. */
  ghost predicate Holds(t: Tables, es: seq<Entry>) {
    t.niceNames.keys == Origs(es) &&
    t.origNames.keys == Nices(es) &&
    t.descriptions.keys == Nices(es) &&
    forall i :: 0 <= i < |es| ==>
      es[i].orig in t.niceNames.m && t.niceNames.m[es[i].orig] == es[i].nice &&
      es[i].nice in t.origNames.m && t.origNames.m[es[i].nice] == es[i].orig &&
      es[i].nice in t.descriptions.m && t.descriptions.m[es[i].nice] == es[i].desc
  }

  lemma DistinctSnoc(s: seq<string>, x: string)
    ensures Distinct(s + [x]) <==> Distinct(s) && x !in s
  {
    var t := s + [x];
    if Distinct(t) {
      forall i, j | 0 <= i < j < |s| ensures s[i] != s[j] {
        assert s[i] == t[i] && s[j] == t[j];
      }
      forall i | 0 <= i < |s| ensures s[i] != x {
        assert s[i] == t[i] && x == t[|s|];
      }
    }
  }

  /** Building succeeds exactly when no original name and no nice name repeats,
      and then the dictionaries list the entries' names in input order and map
      every name as the entries say. */
  lemma {:induction false} BuildContents(es: seq<Entry>)
    ensures Build(es).Ok? <==> Distinct(Origs(es)) && Distinct(Nices(es))
    ensures Build(es).Ok? ==> Holds(Build(es).value, es)
  {
    if es != [] {
      var init, e := es[..|es| - 1], es[|es| - 1];
      assert es == init + [e];
      BuildContents(init);
      assert Distinct(Origs(es)) <==> Distinct(Origs(init)) && e.orig !in Origs(init) by {
        assert Origs(es) == Origs(init) + [e.orig];
        DistinctSnoc(Origs(init), e.orig);
      }
      assert Distinct(Nices(es)) <==> Distinct(Nices(init)) && e.nice !in Nices(init) by {
        assert Nices(es) == Nices(init) + [e.nice];
        DistinctSnoc(Nices(init), e.nice);
      }
      match Build(init)
      case Err(_) =>
      case Ok(t) =>
        assert Build(es) == AddEntry(t, e);
        assert e.orig in t.niceNames.m <==> e.orig in Origs(init);
        assert e.nice in t.origNames.m <==> e.nice in Nices(init);
        if AddEntry(t, e).Ok? {
          HoldsAdd(t, init, e);
        }
    }
  }

  /** Adding a fresh entry to dictionaries that hold some entries makes them
      hold those entries followed by the new one. */
  lemma HoldsAdd(t: Tables, es: seq<Entry>, e: Entry)
    requires t.Valid() && Holds(t, es)
    requires AddEntry(t, e).Ok?
    ensures Holds(AddEntry(t, e).value, es + [e])
  {
    var es' := es + [e];
    assert e.orig !in t.niceNames.m && e.nice !in t.origNames.m;
    var nn, on, ds := t.niceNames.Set(e.orig, e.nice), t.origNames.Set(e.nice, e.orig), t.descriptions.Set(e.nice, e.desc);
    assert AddEntry(t, e).value == Tables(nn, on, ds);
    assert nn.keys == Origs(es') by { OrigsSnoc(es, e); }
    assert on.keys == Nices(es') && ds.keys == Nices(es') by { NicesSnoc(es, e); }
    forall i | 0 <= i < |es'|
      ensures es'[i].orig in nn.m && nn.m[es'[i].orig] == es'[i].nice
      ensures es'[i].nice in on.m && on.m[es'[i].nice] == es'[i].orig
      ensures es'[i].nice in ds.m && ds.m[es'[i].nice] == es'[i].desc
    {
      if i < |es| {
        assert es'[i] == es[i];
        assert es[i].orig in t.niceNames.m && es[i].nice in t.origNames.m;
      }
    }
  }

  lemma OrigsSnoc(es: seq<Entry>, e: Entry)
    ensures Origs(es + [e]) == Origs(es) + [e.orig]
  {
  }

  lemma NicesSnoc(es: seq<Entry>, e: Entry)
    ensures Nices(es + [e]) == Nices(es) + [e.nice]
  {
  }

  lemma BuildSnoc(es: seq<Entry>, e: Entry)
    ensures Build(es + [e]) == match Build(es) case Err(x) => Err(x) case Ok(t) => AddEntry(t, e)
  {
  }

  /** Once building has failed, further entries do not change the error. */
  lemma {:induction false} BuildErrStays(es: seq<Entry>, more: seq<Entry>)
    requires Build(es).Err?
    ensures Build(es + more) == Build(es)
    decreases |more|
  {
    if more == [] {
      assert es + more == es;
    } else {
      var m' := more[..|more| - 1];
      assert (es + more)[..|es + more| - 1] == es + m';
      BuildErrStays(es, m');
    }
  }

  /** What one record does to the dictionaries. */
  function Step(t: Tables, record: string): Result<Tables, Error>
    requires t.Valid()
  {
    match RecordEntry(record)
    case None => Ok(t)
    case Some(e) => AddEntry(t, e)
  }

  /** Parsing one more record is one more step. */
  lemma BuildRecordsStep(records: seq<string>, i: nat)
    requires i < |records|
    ensures Build(Entries(records[..i + 1])) ==
      match Build(Entries(records[..i]))
      case Err(x) => Err(x)
      case Ok(t) => Step(t, records[i])
  {
    EntriesStep(records, i);
    match RecordEntry(records[i])
    case None =>
    case Some(e) => BuildSnoc(Entries(records[..i]), e);
  }

  /** An error on a prefix of the records is the error of all of them. */
  lemma FirstErrorStays(records: seq<string>, n: nat)
    requires n <= |records| && Build(Entries(records[..n])).Err?
    ensures Build(Entries(records)) == Build(Entries(records[..n]))
  {
    EntriesAppend(records[..n], records[n..]);
    assert records[..n] + records[n..] == records;
    BuildErrStays(Entries(records[..n]), Entries(records[n..]));
  }

  // ===========================================================================
  // The ColNames object

  class ColNames {
    var niceNames: ODict<string>
    var origNames: ODict<string>
    var descriptions: ODict<string>

    function Model(): Tables
      reads this
    {
      Tables(niceNames, origNames, descriptions)
    }

    ghost predicate Valid()
      reads this
    {
      Model().Valid()
    }

    /** Three empty ordered dictionaries. */
    constructor ()
      ensures Model() == NoTables && Valid()
    {
      niceNames, origNames, descriptions := Empty(), Empty(), Empty();
    }

    /** The body of ColNames.__init__, given the lines of the column-name file:
        it empties the dictionaries, pairs the lines into records and adds each
        record with at least two fields, returning the ValueError of the first
        repeated name. */
    method Load(lines: seq<string>) returns (err: Option<Error>)
      modifies this
      ensures err.None? <==> Parse(lines).Ok?
      ensures err.None? ==> Model() == Parse(lines).value && Valid()
      ensures err.Some? ==> err.value == Parse(lines).error
    {
      niceNames, origNames, descriptions := Empty(), Empty(), Empty();
      var records := JoinRecords(lines);
      var i := 0;
      while i < |records|
        invariant 0 <= i <= |records|
        invariant Build(Entries(records[..i])) == Ok(Model())
      {
        BuildRecordsStep(records, i);
        err := AddRecord(records[i]);
        if err.Some? {
          FirstErrorStays(records, i + 1);
          return err;
        }
        i := i + 1;
      }
      assert records[..i] == records;
      return None;
    }

    /** One pass of the parsing loop: split the record and, when it has at
        least two fields, check both names for duplicates and insert the entry
        into all three dictionaries. */
    method AddRecord(record: string) returns (err: Option<Error>)
      requires Valid()
      modifies this
      ensures err.None? <==> Step(old(Model()), record).Ok?
      ensures err.None? ==> Model() == Step(old(Model()), record).value
      ensures err.Some? ==> err.value == Step(old(Model()), record).error
    {
      var fields := Split(record);
      if |fields| > 1 {
        var origName := fields[0];
        var niceName := [origName[0]] + "_" + fields[1];
        var description := Join(" ", fields[2..]);
        if origName in niceNames.m {
          return Some(ColumnNameExists(origName));
        }
        if niceName in origNames.m {
          return Some(ColumnNameExists(niceName));
        }
        niceNames := niceNames.Set(origName, niceName);
        origNames := origNames.Set(niceName, origName);
        descriptions := descriptions.Set(niceName, description);
      }
      return None;
    }

    /** get_nice_name; None stands for the KeyError of an unknown name. */
    function GetNiceName(origName: string): Option<string>
      reads this
    {
      if origName in niceNames.m then Some(niceNames.m[origName]) else None
    }

    /** get_orig_name; None stands for the KeyError of an unknown name. */
    function GetOrigName(niceName: string): Option<string>
      reads this
    {
      if niceName in origNames.m then Some(origNames.m[niceName]) else None
    }

    /** get_description; None stands for the KeyError of an unknown name. */
    function GetDescription(niceName: string): Option<string>
      reads this
    {
      if niceName in descriptions.m then Some(descriptions.m[niceName]) else None
    }

    /** get_orig_names: the keys of nice_names, in insertion order. */
    function GetOrigNames(): seq<string>
      reads this
    {
      niceNames.keys
    }

    /** get_nice_names: the keys of orig_names, in insertion order. */
    function GetNiceNames(): seq<string>
      reads this
    {
      origNames.keys
    }
  }

  /** Looking up a known original name and then its nice name gives the
      original name back; names outside the listing are a KeyError. */
  lemma OrigNiceRoundTrip(c: ColNames, origName: string)
    requires c.Valid()
    ensures c.GetNiceName(origName).Some? <==> origName in c.GetOrigNames()
    ensures c.GetNiceName(origName).Some? ==>
      c.GetOrigName(c.GetNiceName(origName).value) == Some(origName)
  {
  }

  /** Looking up a known nice name and then its original name gives the nice
      name back; every known nice name has a description; both listings have
      the same length. */
  lemma NiceOrigRoundTrip(c: ColNames, niceName: string)
    requires c.Valid()
    ensures c.GetOrigName(niceName).Some? <==> niceName in c.GetNiceNames()
    ensures c.GetDescription(niceName).Some? <==> c.GetOrigName(niceName).Some?
    ensures c.GetOrigName(niceName).Some? ==>
      c.GetNiceName(c.GetOrigName(niceName).value) == Some(niceName)
    ensures |c.GetOrigNames()| == |c.GetNiceNames()|
  {
  }

  // ===========================================================================
  // Cells: convert_column

  /** A converted cell: missing (NaN), or the stripped text handed to float(). */
  datatype Cell = Missing | Value(text: string)

  /** convert_column on one cell: after stripping, "." and "" are missing and
      anything else is passed on to the numeric parse. */
  function ConvertCell(cell: string): (c: Cell)
    ensures c.Missing? <==> Strip(cell) == "." || AllSpace(cell)
    ensures c.Value? ==> c.text == Strip(cell) && Trimmed(c.text) && c.text != "."
  {
    StripEmpty(cell);
    StripTrimmed(cell);
    var s := Strip(cell);
    if s == "." || s == "" then Missing else Value(s)
  }

  /** convert_column on a whole column. */
  function ConvertColumn(cells: seq<string>): seq<Cell> {
    seq(|cells|, i requires 0 <= i < |cells| => ConvertCell(cells[i]))
  }

  /** Converting the text of a converted value again gives the same value:
      the rule only looks at the stripped text. */
  lemma ConvertCellStable(cell: string)
    ensures ConvertCell(cell).Value? ==> ConvertCell(ConvertCell(cell).text) == ConvertCell(cell)
  {
  }

  // ===========================================================================
  // Frames: the header step of extract_dataset

  /** A column as read_csv returns it: its header text and its cells. */
  datatype CsvColumn = CsvColumn(name: string, cells: seq<string>)

  /** The cells of a normalised column: untouched text for the key columns,
      converted cells for the data columns. */
  datatype Series = Text(raw: seq<string>) | Numbers(values: seq<Cell>)

  datatype Column = Column(name: string, series: Series)

  /** The columns that identify a row and are not data. */
  const KeyColumns: set<string> := {"County", "Sex", "Xiang"}

  /** A header name the schema admits: a key column or a known original name. */
  predicate Allowed(name: string, niceNames: map<string, string>) {
    name in KeyColumns || name in niceNames
  }

  /** The frame without its final dummy column, if it has one. */
  function DropDummy(frame: seq<CsvColumn>): seq<CsvColumn>
    requires frame != []
  {
    if Strip(frame[|frame| - 1].name) == "" then frame[..|frame| - 1] else frame
  }

  /** df.columns = [c.strip() for c in df.columns]. */
  function StripNames(frame: seq<CsvColumn>): seq<CsvColumn> {
    seq(|frame|, i requires 0 <= i < |frame| => CsvColumn(Strip(frame[i].name), frame[i].cells))
  }

  /** The first position at or after `from` whose name the schema rejects, or
      the length when there is none. */
  function FirstUnexpected(cols: seq<CsvColumn>, niceNames: map<string, string>, from: nat): nat
    requires from <= |cols|
    decreases |cols| - from
  {
    if from == |cols| then from
    else if !Allowed(cols[from].name, niceNames) then from
    else FirstUnexpected(cols, niceNames, from + 1)
  }

  /** The search stops at the first rejected name at or after `from`. */
  lemma {:induction false} FirstUnexpectedSpec(cols: seq<CsvColumn>, niceNames: map<string, string>, from: nat)
    requires from <= |cols|
    ensures var k := FirstUnexpected(cols, niceNames, from);
      from <= k <= |cols| &&
      (forall i :: from <= i < k ==> Allowed(cols[i].name, niceNames)) &&
      (k < |cols| ==> !Allowed(cols[k].name, niceNames))
    decreases |cols| - from
  {
    if from < |cols| && Allowed(cols[from].name, niceNames) {
      FirstUnexpectedSpec(cols, niceNames, from + 1);
    }
  }

  /** What the loop does to one admitted column: a data column is converted and
      renamed to its nice name, a key column stays as it is. */
  function Normalize(col: CsvColumn, niceNames: map<string, string>): Column {
    if col.name in niceNames then Column(niceNames[col.name], Numbers(ConvertColumn(col.cells)))
    else Column(col.name, Text(col.cells))
  }

  /** The schema check and renaming of stripped columns: the first unexpected
      name is an error, otherwise every column is normalised in place. */
  function RenamedFrame(cols: seq<CsvColumn>, niceNames: map<string, string>): Result<seq<Column>, Error> {
    var k := FirstUnexpected(cols, niceNames, 0);
    if k < |cols| then Err(UnexpectedColumn(cols[k].name))
    else Ok(seq(|cols|, i requires 0 <= i < |cols| => Normalize(cols[i], niceNames)))
  }

  /** The header step for one file, given the nice_names dictionary. */
  function NormalizedFrame(frame: seq<CsvColumn>, niceNames: map<string, string>): Result<seq<Column>, Error> {
    if frame == [] then Err(NoColumns)
    else RenamedFrame(StripNames(DropDummy(frame)), niceNames)
  }

  /** The number of columns that survive the dummy-column rule: one fewer than
      the frame exactly when the last stripped name is empty. */
  function KeptCount(frame: seq<CsvColumn>): nat
    requires frame != []
  {
    if Strip(frame[|frame| - 1].name) == "" then |frame| - 1 else |frame|
  }

  /** The header step in terms of the input frame: a frame without columns is
      an IndexError; otherwise only the last column may be dropped, and only
      when its stripped name is empty; the step succeeds exactly when every kept
      stripped name is a key column or a known original name, and the error
      names the first one that is not; on success every kept column keeps its
      position and cells, and is renamed and converted exactly when it is a
      data column. */
  lemma NormalizedFrameSpec(frame: seq<CsvColumn>, niceNames: map<string, string>)
    ensures frame == [] ==> NormalizedFrame(frame, niceNames) == Err(NoColumns)
    ensures frame != [] ==>
      (NormalizedFrame(frame, niceNames).Ok? <==>
        forall i :: 0 <= i < KeptCount(frame) ==> Allowed(Strip(frame[i].name), niceNames))
    ensures frame != [] && NormalizedFrame(frame, niceNames).Err? ==>
      exists k :: 0 <= k < KeptCount(frame) &&
        NormalizedFrame(frame, niceNames).error == UnexpectedColumn(Strip(frame[k].name)) &&
        !Allowed(Strip(frame[k].name), niceNames) &&
        forall i :: 0 <= i < k ==> Allowed(Strip(frame[i].name), niceNames)
    ensures NormalizedFrame(frame, niceNames).Ok? ==>
      var out := NormalizedFrame(frame, niceNames).value;
      |out| == KeptCount(frame) &&
      forall i :: 0 <= i < |out| ==>
        var name := Strip(frame[i].name);
        (name in niceNames ==> out[i] == Column(niceNames[name], Numbers(ConvertColumn(frame[i].cells)))) &&
        (name !in niceNames ==> name in KeyColumns && out[i] == Column(name, Text(frame[i].cells)))
  {
    if frame != [] {
      var cols := StripNames(DropDummy(frame));
      KeptAt(frame);
      RenamedFrameSpec(cols, niceNames);
      var r := RenamedFrame(cols, niceNames);
      assert NormalizedFrame(frame, niceNames) == r;
      if r.Err? {
        var k := FirstUnexpected(cols, niceNames, 0);
        FirstUnexpectedSpec(cols, niceNames, 0);
        assert cols[k].name == Strip(frame[k].name);
        assert forall i :: 0 <= i < k ==> cols[i].name == Strip(frame[i].name);
        assert 0 <= k < KeptCount(frame) && r.error == UnexpectedColumn(Strip(frame[k].name)) &&
          !Allowed(Strip(frame[k].name), niceNames) &&
          forall i :: 0 <= i < k ==> Allowed(Strip(frame[i].name), niceNames);
      }
    }
  }

  /** After the dummy rule and stripping, column i is column i of the input
      with its name stripped. */
  lemma KeptAt(frame: seq<CsvColumn>)
    requires frame != []
    ensures |StripNames(DropDummy(frame))| == KeptCount(frame)
    ensures forall i :: 0 <= i < KeptCount(frame) ==>
      StripNames(DropDummy(frame))[i] == CsvColumn(Strip(frame[i].name), frame[i].cells)
  {
  }

  /** The schema check on stripped columns: it succeeds exactly when every name
      is admitted, fails on the first name that is not, and otherwise keeps
      every column in its place. */
  lemma RenamedFrameSpec(cols: seq<CsvColumn>, niceNames: map<string, string>)
    ensures RenamedFrame(cols, niceNames).Ok? <==>
      forall i :: 0 <= i < |cols| ==> Allowed(cols[i].name, niceNames)
    ensures RenamedFrame(cols, niceNames).Err? ==>
      var k := FirstUnexpected(cols, niceNames, 0);
      k < |cols| && RenamedFrame(cols, niceNames).error == UnexpectedColumn(cols[k].name)
    ensures RenamedFrame(cols, niceNames).Ok? ==>
      var out := RenamedFrame(cols, niceNames).value;
      |out| == |cols| && forall i :: 0 <= i < |cols| ==> out[i] == Normalize(cols[i], niceNames)
  {
    FirstUnexpectedSpec(cols, niceNames, 0);
  }

  /** The header step as extract_dataset runs it on one frame read from a file:
      drop a trailing dummy column, strip the names, then check and rename. */
  method NormalizeColumns(frame: seq<CsvColumn>, names: ColNames) returns (r: Result<seq<Column>, Error>)
    requires names.Valid()
    ensures r == NormalizedFrame(frame, names.niceNames.m)
  {
    if |frame| == 0 {
      return Err(NoColumns);
    }
    var cols := frame;
    if Strip(cols[|cols| - 1].name) == "" {
      cols := cols[..|cols| - 1];
    }
    assert cols == DropDummy(frame);
    cols := StripNames(cols);
    r := RenameColumns(cols, names);
  }

  /** The schema check and rename loop: walk the columns in order, rejecting an
      unexpected name and converting and renaming data columns in place. */
  method RenameColumns(cols: seq<CsvColumn>, names: ColNames) returns (r: Result<seq<Column>, Error>)
    requires names.Valid()
    ensures r == RenamedFrame(cols, names.niceNames.m)
  {
    ghost var nice := names.niceNames.m;
    var dataColumns := names.GetOrigNames();
    var df := seq(|cols|, i requires 0 <= i < |cols| => Column(cols[i].name, Text(cols[i].cells)));
    var i := 0;
    while i < |cols|
      invariant 0 <= i <= |cols| && |df| == |cols|
      invariant FirstUnexpected(cols, nice, 0) == FirstUnexpected(cols, nice, i)
      invariant forall j :: 0 <= j < i ==> df[j] == Normalize(cols[j], nice)
      invariant forall j :: i <= j < |cols| ==> df[j] == Column(cols[j].name, Text(cols[j].cells))
    {
      var c := cols[i].name;
      assert c in dataColumns <==> c in nice;
      if !(c in KeyColumns || c in dataColumns) {
        return Err(UnexpectedColumn(c));
      } else if c in dataColumns {
        var niceName := names.GetNiceName(c).value;
        df := df[i := Column(niceName, Numbers(ConvertColumn(cols[i].cells)))];
      }
      i := i + 1;
    }
    assert df == seq(|cols|, i requires 0 <= i < |cols| => Normalize(cols[i], nice));
    return Ok(df);
  }

  /** The values of a list of outcomes, or the first error among them. */
  function Collect<T>(outcomes: seq<Result<T, Error>>): Result<seq<T>, Error> {
    if outcomes == [] then Ok([])
    else
      match Collect(outcomes[..|outcomes| - 1])
      case Err(e) => Err(e)
      case Ok(vs) =>
        match outcomes[|outcomes| - 1]
        case Err(e) => Err(e)
        case Ok(v) => Ok(vs + [v])
  }

  /** Collecting succeeds exactly when every outcome is a value, and then keeps
      them in order; otherwise it reports the error of the first failure. */
  lemma {:induction false} CollectSpec<T>(outcomes: seq<Result<T, Error>>)
    ensures Collect(outcomes).Ok? <==> forall i :: 0 <= i < |outcomes| ==> outcomes[i].Ok?
    ensures Collect(outcomes).Ok? ==>
      |Collect(outcomes).value| == |outcomes| &&
      forall i :: 0 <= i < |outcomes| ==> outcomes[i] == Ok(Collect(outcomes).value[i])
    ensures Collect(outcomes).Err? ==>
      exists k :: 0 <= k < |outcomes| && outcomes[k] == Err(Collect(outcomes).error) &&
        forall i :: 0 <= i < k ==> outcomes[i].Ok?
  {
    if outcomes != [] {
      var n := |outcomes| - 1;
      var init := outcomes[..n];
      CollectSpec(init);
      assert forall i :: 0 <= i < n ==> outcomes[i] == init[i];
      match Collect(init)
      case Err(e) =>
        var k :| 0 <= k < n && init[k] == Err(e) && forall i :: 0 <= i < k ==> init[i].Ok?;
        assert outcomes[k] == init[k];
      case Ok(vs) =>
        match outcomes[n]
        case Err(e) =>
        case Ok(v) =>
          assert forall i :: 0 <= i < n ==> (vs + [v])[i] == vs[i];
    }
  }

  /** Once an error has been collected, further outcomes do not change it. */
  lemma {:induction false} CollectErrStays<T>(outcomes: seq<Result<T, Error>>, n: nat)
    requires n <= |outcomes| && Collect(outcomes[..n]).Err?
    ensures Collect(outcomes) == Collect(outcomes[..n])
    decreases |outcomes| - n
  {
    if n == |outcomes| {
      assert outcomes[..n] == outcomes;
    } else {
      assert outcomes[..n + 1][..n] == outcomes[..n];
      CollectErrStays(outcomes, n + 1);
    }
  }

  /** The frame of every data file normalised, in order. */
  function NormalizedFrames(files: seq<seq<CsvColumn>>, niceNames: map<string, string>): seq<Result<seq<Column>, Error>> {
    seq(|files|, i requires 0 <= i < |files| => NormalizedFrame(files[i], niceNames))
  }

  /** extract_dataset up to the merge: build the column dictionary from the
      lines of the column-name file, then normalise the frame of every data
      file in turn, stopping at the first error. The frames handed to the merge
      are returned; with no file at all the merge's reduce() fails. */
  method ExtractDataset(nameLines: seq<string>, files: seq<seq<CsvColumn>>) returns (r: Result<seq<seq<Column>>, Error>)
    ensures Parse(nameLines).Err? ==> r == Err(Parse(nameLines).error)
    ensures Parse(nameLines).Ok? ==>
      r == if files == [] then Err(NoFiles) else Collect(NormalizedFrames(files, Parse(nameLines).value.niceNames.m))
  {
    var colNames := new ColNames();
    var err := colNames.Load(nameLines);
    if err.Some? {
      return Err(err.value);
    }
    r := NormalizeFiles(files, colNames);
    if r.Ok? && |r.value| == 0 {
      return Err(NoFiles);
    }
  }

  /** The loop of extract_dataset over the sorted data files: normalise each
      frame and append it to the list, stopping at the first error. */
  method NormalizeFiles(files: seq<seq<CsvColumn>>, names: ColNames) returns (r: Result<seq<seq<Column>>, Error>)
    requires names.Valid()
    ensures r == Collect(NormalizedFrames(files, names.niceNames.m))
    ensures r.Ok? ==> |r.value| == |files|
  {
    ghost var outcomes := NormalizedFrames(files, names.niceNames.m);
    var dfs: seq<seq<Column>> := [];
    var i := 0;
    while i < |files|
      invariant 0 <= i <= |files| && |dfs| == i
      invariant Collect(outcomes[..i]) == Ok(dfs)
    {
      assert outcomes[..i + 1][..i] == outcomes[..i];
      var df := NormalizeColumns(files[i], names);
      assert outcomes[i] == df;
      if df.Err? {
        CollectErrStays(outcomes, i + 1);
        return Err(df.error);
      }
      dfs := dfs + [df.value];
      i := i + 1;
    }
    assert outcomes[..i] == outcomes;
    return Ok(dfs);
  }
}
