/**
 Turning a JSON message into a row of COPY's binary format: a list of needles, each a JSON pointer with a
 type, a filter and an action. The export hook and the exports producer share this, up to the timestamps
 they accept.
 */
module JsonExport {
  import opened Octet
  import opened Options
  import opened Sequences
  import opened CopyBinary
  import opened Timestamp

  /** A parsed message: for every pointer that leads somewhere, the text of what it leads to. */
  type Doc = map<string, seq<octet>>

  datatype Type = Text | Time
  datatype Filter = Noop | Match(text: seq<octet>) | Substr(text: seq<octet>) | Exists
  datatype Action = Store | StoreTrue | DiscardFalse | DiscardTrue | StoreMeta
  datatype Needle = Needle(pointer: string, format: Type, action: Action, filter: Filter)

  predicate Contains(s: seq<octet>, t: seq<octet>) {
    exists k :: 0 <= k <= |s| && t <= s[k..]
  }

  /** The filters; without a value only Noop holds. */
  predicate Passes(filter: Filter, found: Option<seq<octet>>) {
    match filter
    case Noop => true
    case Match(t) => found == Some(t)
    case Substr(t) => found.Some? && Contains(found.value, t)
    case Exists => found.Some?
  }

  /** The actions: does the message go on? */
  predicate GoesOn(action: Action, passes: bool) {
    match action
    case Store => true
    case StoreTrue => passes
    case DiscardFalse => passes
    case DiscardTrue => !passes
    case StoreMeta => true
  }

  predicate Stores(action: Action) {
    action.Store? || action.StoreTrue? || action.StoreMeta?
  }

  function Find(doc: Doc, pointer: string): Option<seq<octet>> {
    if pointer in doc then Some(doc[pointer]) else None
  }

  function Chars(s: seq<octet>): string {
    seq(|s|, i requires 0 <= i < |s| => (s[i] as int) as char)
  }

  /** The value in the column's type; None is a format error. */
  function Format(format: Type, text: seq<octet>, program: Program): Option<Field> {
    match format
    case Text => Some(Bytes(text))
    case Time =>
      match Timestamp.Timestamp(Chars(text), program)
      case None => None
      case Some(t) => Some(Bytes(Be64(t)))
  }

  /** What one needle makes of a message: nothing if it ends the message, by its action or by an error. */
  function Column(doc: Doc, n: Needle, program: Program): Option<Field> {
    var found := Find(doc, n.pointer);
    if !GoesOn(n.action, Passes(n.filter, found)) then None
    else if found.None? then Some(Null)
    else Format(n.format, found.value, program)
  }

  ghost predicate AllPass(doc: Doc, needles: seq<Needle>, program: Program) {
    forall i :: 0 <= i < |needles| ==> Column(doc, needles[i], program).Some?
  }

  /** The columns that are stored, in the order of the needles. */
  ghost function Stored(doc: Doc, needles: seq<Needle>, program: Program): seq<Field>
    requires AllPass(doc, needles, program)
  {
    if needles == [] then []
    else
      var last := needles[|needles| - 1];
      Stored(doc, needles[..|needles| - 1], program)
      + (if Stores(last.action) then [Column(doc, last, program).value] else [])
  }

  function StoreCount(needles: seq<Needle>): nat {
    if needles == [] then 0
    else StoreCount(needles[..|needles| - 1]) + (if Stores(needles[|needles| - 1].action) then 1 else 0)
  }

  /** The needles that are run: their number is kept in 16 bits. */
  function Active(needles: seq<Needle>): (r: seq<Needle>)
    ensures |r| == |needles| % 0x1_0000 && r <= needles && (|needles| < 0x1_0000 ==> r == needles)
  {
    needles[..|needles| % 0x1_0000]
  }

  /** The row of a message, if every needle that is run lets it pass. */
  ghost function RowOf(doc: Doc, needles: seq<Needle>, program: Program): Option<seq<Field>> {
    if AllPass(doc, Active(needles), program) then Some(Stored(doc, Active(needles), program)) else None
  }

  /** The bytes sent for it: the field count was taken over all needles, in 16 bits. */
  ghost function RowBytes(doc: Doc, needles: seq<Needle>, program: Program): seq<octet>
    requires RowOf(doc, needles, program).Some?
  {
    Be16(StoreCount(needles) % 0x1_0000) + EncodeFields(RowOf(doc, needles, program).value)
  }

  /** The field count is that of the needles that are run; so it is for every list of fewer than 2^16. */
  ghost predicate CountsAgree(needles: seq<Needle>) {
    StoreCount(needles) % 0x1_0000 == StoreCount(Active(needles))
  }

  /** A needle ends a message whose filter result is against its action, and one with a text that is no
      timestamp where one is due. */
  ghost predicate Refuses(doc: Doc, n: Needle, program: Program) {
    var holds := Passes(n.filter, Find(doc, n.pointer));
    || (n.action in {StoreTrue, DiscardFalse} && !holds)
    || (n.action == DiscardTrue && holds)
    || (n.format == Time && n.pointer in doc && Timestamp.Timestamp(Chars(doc[n.pointer]), program) == None)
  }

  /** The field count that goes in front of a row, counted once over the configuration, is the number of
      columns of every row. */
  lemma {:induction false} CountIsStored(doc: Doc, needles: seq<Needle>, program: Program)
    requires AllPass(doc, needles, program)
    ensures |Stored(doc, needles, program)| == StoreCount(needles) <= |needles|
  {
    hide Column;
    if needles != [] {
      CountIsStored(doc, needles[..|needles| - 1], program);
    }
  }

  lemma CountsAgreeBelow(needles: seq<Needle>)
    requires |needles| < 0x1_0000
    ensures CountsAgree(needles)
  {
    CountAtMost(needles);
  }

  lemma {:induction false} CountAtMost(needles: seq<Needle>)
    ensures StoreCount(needles) <= |needles|
  {
    if needles != [] {
      CountAtMost(needles[..|needles| - 1]);
    }
  }

  lemma Be16Injective(m: nat, n: nat, s: seq<octet>)
    requires m < 0x1_0000 && n < 0x1_0000
    ensures Be16(m) + s == Be16(n) + s <==> m == n
  {
    hide Be16, Read16;
    Read16Back(m, s);
    Read16Back(n, s);
  }

  /** The bytes sent are the row's encoding if and only if the counts agree. */
  lemma RowBytesIff(doc: Doc, needles: seq<Needle>, program: Program)
    requires RowOf(doc, needles, program).Some?
    ensures RowBytes(doc, needles, program) == EncodeRow(RowOf(doc, needles, program).value) <==> CountsAgree(needles)
  {
    hide Column, Stored, StoreCount, Be16, EncodeFields, AllPass;
    CountIsStored(doc, Active(needles), program);
    var row := RowOf(doc, needles, program).value;
    Be16Injective(StoreCount(needles) % 0x1_0000, |row|, EncodeFields(row));
  }

  /** The field counter of _needles, in 16 bits. */
  method CountFields(needles: seq<Needle>) returns (fields: nat)
    ensures fields == StoreCount(needles) % 0x1_0000
  {
    fields := 0;
    var i := 0;
    assert needles[..0] == [];
    while i < |needles|
      invariant 0 <= i <= |needles| && fields == StoreCount(needles[..i]) % 0x1_0000
    {
      assert needles[..i + 1][..i] == needles[..i];
      if Stores(needles[i].action) {
        fields := (fields + 1) % 0x1_0000;
      }
      i := i + 1;
    }
    assert needles[..i] == needles;
  }

  /** strstr: is t somewhere in s? */
  method Occurs(s: seq<octet>, t: seq<octet>) returns (found: bool)
    ensures found <==> Contains(s, t)
  {
    var k := 0;
    while k + |t| <= |s|
      invariant 0 <= k <= |s| + 1
      invariant forall j :: 0 <= j < k && j <= |s| ==> !(t <= s[j..])
    {
      var i := 0;
      while i < |t| && s[k + i] == t[i]
        invariant 0 <= i <= |t| && forall j :: 0 <= j < i ==> s[k + j] == t[j]
      {
        i := i + 1;
      }
      if i == |t| {
        assert t <= s[k..];
        return true;
      }
      assert s[k..][i] != t[i];
      k := k + 1;
    }
    found := false;
  }

  /** The four filter functions. */
  method RunFilter(filter: Filter, found: Option<seq<octet>>) returns (holds: bool)
    ensures holds == Passes(filter, found)
    ensures found.None? ==> (holds <==> filter == Noop)
    ensures found.Some? && (filter == Noop || filter == Exists) ==> holds
    ensures found.Some? && filter.Match? ==> (holds <==> found.value == filter.text)
    ensures found.Some? && filter.Substr? ==>
              (holds <==> exists k :: 0 <= k <= |found.value| && filter.text <= found.value[k..])
  {
    match filter {
      case Noop =>
        holds := true;
      case Match(t) =>
        if found.None? {
          return false;
        }
        holds := found.value == t;
      case Substr(t) =>
        if found.None? {
          return false;
        }
        holds := Occurs(found.value, t);
      case Exists =>
        holds := found.Some?;
    }
  }

  /** _deref: runs the needles in order and stops at the first that ends the message. */
  method Deref(doc: Doc, needles: seq<Needle>, program: Program) returns (ok: bool, results: seq<Field>)
    ensures ok <==> forall i :: 0 <= i < |needles| ==> !Refuses(doc, needles[i], program)
    ensures ok <==> AllPass(doc, needles, program)
    ensures ok ==>
              |results| == |needles| && forall i :: 0 <= i < |needles| ==> Column(doc, needles[i], program) == Some(results[i])
  {
    results := [];
    var i := 0;
    while i < |needles|
      invariant 0 <= i <= |needles| && |results| == i
      invariant forall j :: 0 <= j < i ==>
                  Column(doc, needles[j], program) == Some(results[j]) && !Refuses(doc, needles[j], program)
    {
      var n := needles[i];
      assert Column(doc, n, program).None? <==> Refuses(doc, n, program);
      var found := Find(doc, n.pointer);
      var holds := RunFilter(n.filter, found);
      if !GoesOn(n.action, holds) {
        assert Column(doc, needles[i], program).None?;
        return false, results;
      }
      if found.None? {
        results := results + [Null];
      } else {
        var f := Format(n.format, found.value, program);
        if f.None? {
          assert Column(doc, needles[i], program).None?;
          return false, results;
        }
        results := results + [f.value];
      }
      i := i + 1;
    }
    ok := true;
  }

  /** The loop that sends the length and the bytes of every stored column. */
  method Assemble(doc: Doc, needles: seq<Needle>, results: seq<Field>, fields: nat, program: Program)
    returns (buf: seq<octet>)
    requires AllPass(doc, needles, program)
    requires |results| == |needles| && forall i :: 0 <= i < |needles| ==> Column(doc, needles[i], program) == Some(results[i])
    requires fields < 0x1_0000
    ensures buf == Be16(fields) + EncodeFields(Stored(doc, needles, program))
  {
    hide Column, Be16, EncodeField, EncodeFields, Stored, AllPass;
    buf := Be16(fields);
    var i := 0;
    NoFields(doc, needles, program);
    while i < |needles|
      invariant 0 <= i <= |needles| && AllPass(doc, needles[..i], program)
      invariant buf == Be16(fields) + EncodeFields(Stored(doc, needles[..i], program))
    {
      ghost var before := Stored(doc, needles[..i], program);
      StoredNext(doc, needles, i, program);
      if Stores(needles[i].action) {
        EncodeFieldsAppend(before, results[i]);
        Assoc(Be16(fields), EncodeFields(before), EncodeField(results[i]));
        buf := buf + EncodeField(results[i]);
      }
      i := i + 1;
    }
    assert needles[..i] == needles;
  }

  lemma StoredNext(doc: Doc, needles: seq<Needle>, i: nat, program: Program)
    requires i < |needles| && AllPass(doc, needles, program)
    ensures AllPass(doc, needles[..i], program) && AllPass(doc, needles[..i + 1], program)
    ensures var before := Stored(doc, needles[..i], program);
            Stored(doc, needles[..i + 1], program) ==
            if Stores(needles[i].action) then before + [Column(doc, needles[i], program).value] else before
  {
    hide Column;
    assert needles[..i + 1][..i] == needles[..i];
  }

  lemma NoFields(doc: Doc, needles: seq<Needle>, program: Program)
    ensures AllPass(doc, needles[..0], program) && Stored(doc, needles[..0], program) == [] && EncodeFields([]) == []
  {
  }

  /** h_jsonexport on a message that ends in a NUL or does not, and that parses to doc or does not parse; also
      the same part of exports_producer_produce. fields is the configured count. */
  method JsonExport(terminated: bool, doc: Option<Doc>, needles: seq<Needle>, fields: nat, program: Program)
    returns (row: Option<seq<octet>>, ghost ps: seq<nat>)
    requires fields == StoreCount(needles) % 0x1_0000
    ensures row.Some? <==>
            terminated && doc.Some? && forall i :: 0 <= i < |Active(needles)| ==> !Refuses(doc.value, Active(needles)[i], program)
    ensures row.Some? <==> terminated && doc.Some? && RowOf(doc.value, needles, program).Some?
    ensures row.Some? ==> row.value == RowBytes(doc.value, needles, program)
    ensures row.Some? && ShortTexts(doc.value) ==> Reads(row.value, doc.value, needles, program, ps)
  {
    hide Column, Refuses, Be16, EncodeFields, StoreCount, Stored, AllPass, Active, Reads, ShortTexts;
    ps := [];
    if !terminated {
      return None, ps;
    }
    if doc.None? {
      return None, ps;
    }
    var ok, results := Deref(doc.value, Active(needles), program);
    if !ok {
      return None, ps;
    }
    if ShortTexts(doc.value) {
      ps := BytesMean(doc.value, needles, program);
    }
    var buf := Assemble(doc.value, Active(needles), results, fields, program);
    row := Some(buf);
  }

  // ---- What the bytes of a row say ----

  ghost predicate ShortTexts(doc: Doc) {
    forall p :: p in doc ==> |doc[p]| < 0xFFFF_FFFF
  }

  /** ps are the places of the needles whose action is store, store_true or store_meta, in order. */
  ghost predicate StoredPlaces(needles: seq<Needle>, ps: seq<nat>) {
    && (forall k :: 0 <= k < |ps| ==> ps[k] < |needles|)
    && (forall k, l :: 0 <= k < l < |ps| ==> ps[k] < ps[l])
    && (forall i :: 0 <= i < |needles| ==>
          (i in ps <==> needles[i].action == Store || needles[i].action == StoreTrue || needles[i].action == StoreMeta))
  }

  /** A column is NULL if and only if the pointer leads nowhere; otherwise it is the text found, or the eight
      bytes of its timestamp. */
  ghost predicate CellMeans(f: Field, doc: Doc, n: Needle, program: Program) {
    && (f == Null <==> n.pointer !in doc)
    && (n.pointer in doc && n.format == Text ==> f == Bytes(doc[n.pointer]))
    && (n.pointer in doc && n.format == Time ==>
          f.Bytes? && |f.data| == 8 && Timestamp.Timestamp(Chars(doc[n.pointer]), program) == Some(Read64(f.data)))
  }

  ghost predicate CellsMean(fs: seq<Field>, doc: Doc, needles: seq<Needle>, program: Program, ps: seq<nat>) {
    && StoredPlaces(needles, ps) && |fs| == |ps|
    && (forall k :: 0 <= k < |ps| ==> CellMeans(fs[k], doc, needles[ps[k]], program))
  }

  /** Behind its count, the row reads as one column for each storing needle that is run, in order, and nothing
      more; and the count is their number for every list of fewer than 2^16 needles. */
  ghost predicate Reads(bytes: seq<octet>, doc: Doc, needles: seq<Needle>, program: Program, ps: seq<nat>) {
    && |bytes| >= 2 && (|needles| < 0x1_0000 ==> Read16(bytes) == |ps|)
    && DecodeFields(bytes[2..], |ps|).Some? && DecodeFields(bytes[2..], |ps|).value.rest == []
    && CellsMean(DecodeFields(bytes[2..], |ps|).value.value, doc, Active(needles), program, ps)
  }

  lemma ColumnMeans(doc: Doc, n: Needle, program: Program)
    requires Column(doc, n, program).Some?
    ensures CellMeans(Column(doc, n, program).value, doc, n, program)
  {
    hide Passes, Be64, Read64, Timestamp.Timestamp, Chars;
    if n.pointer in doc && n.format == Time {
      var t := Timestamp.Timestamp(Chars(doc[n.pointer]), program).value;
      Read64Back(t, []);
      assert Be64(t) + [] == Be64(t);
    }
  }

  lemma {:induction false} StoredMeans(doc: Doc, needles: seq<Needle>, program: Program) returns (ps: seq<nat>)
    requires AllPass(doc, needles, program)
    ensures CellsMean(Stored(doc, needles, program), doc, needles, program, ps)
  {
    hide Column, CellMeans;
    if needles == [] {
      ps := [];
    } else {
      var init, last := needles[..|needles| - 1], needles[|needles| - 1];
      ps := StoredMeans(doc, init, program);
      ColumnMeans(doc, last, program);
      if last.action == Store || last.action == StoreTrue || last.action == StoreMeta {
        ps := ps + [|needles| - 1];
      }
    }
  }

  /** The row of a message, column by column. */
  lemma RowMeans(doc: Doc, needles: seq<Needle>, program: Program) returns (ps: seq<nat>)
    requires RowOf(doc, needles, program).Some?
    ensures CellsMean(RowOf(doc, needles, program).value, doc, Active(needles), program, ps)
  {
    hide AllPass, Stored, CellsMean, Active;
    ps := StoredMeans(doc, Active(needles), program);
  }

  lemma BytesMean(doc: Doc, needles: seq<Needle>, program: Program) returns (ps: seq<nat>)
    requires RowOf(doc, needles, program).Some? && ShortTexts(doc)
    ensures Reads(RowBytes(doc, needles, program), doc, needles, program, ps)
  {
    hide RowOf, CellMeans, StoredPlaces, Be16, Read16, EncodeFields, DecodeFields, StoreCount, Active, FieldFits;
    var row, bytes := RowOf(doc, needles, program).value, RowBytes(doc, needles, program);
    ps := RowMeans(doc, needles, program);
    RowOfFits(doc, needles, program);
    Read16Back(StoreCount(needles) % 0x1_0000, EncodeFields(row));
    FieldsRoundTrip(row, []);
    assert EncodeFields(row) + [] == EncodeFields(row);
    if |needles| < 0x1_0000 {
      CountsAgreeBelow(needles);
    }
  }

  // ---- Where the two programs differ ----

  /** The needle reads a timestamp with a leap second. */
  ghost predicate ReadsLeapSecond(doc: Doc, n: Needle) {
    n.format == Time && n.pointer in doc && Shaped(Chars(doc[n.pointer])) && Read(Chars(doc[n.pointer])).second == 60
  }

  lemma ColumnDiffers(doc: Doc, n: Needle)
    ensures Column(doc, n, Producer).Some? ==> Column(doc, n, Hook) == Column(doc, n, Producer) && !ReadsLeapSecond(doc, n)
    ensures Column(doc, n, Hook).Some? && !ReadsLeapSecond(doc, n) ==> Column(doc, n, Producer) == Column(doc, n, Hook)
  {
    hide Passes, Chars, Read, Encoded, Be64;
    if n.pointer in doc {
      ProgramsDifferIff(Chars(doc[n.pointer]));
    }
  }

  lemma {:induction false} SameStored(doc: Doc, needles: seq<Needle>)
    requires AllPass(doc, needles, Producer)
    ensures AllPass(doc, needles, Hook) && Stored(doc, needles, Hook) == Stored(doc, needles, Producer)
  {
    hide Column;
    forall i | 0 <= i < |needles| ensures Column(doc, needles[i], Hook) == Column(doc, needles[i], Producer) {
      ColumnDiffers(doc, needles[i]);
    }
    if needles != [] {
      SameStored(doc, needles[..|needles| - 1]);
    }
  }

  /** The two programs make different things of a message if and only if the hook passes it and a needle that
      is run reads a leap second; the producer then refuses it. */
  lemma RowsDifferIff(doc: Doc, needles: seq<Needle>)
    ensures RowOf(doc, needles, Hook) != RowOf(doc, needles, Producer) <==>
            && RowOf(doc, needles, Hook).Some?
            && exists i :: 0 <= i < |Active(needles)| && ReadsLeapSecond(doc, Active(needles)[i])
    ensures RowOf(doc, needles, Producer).Some? ==> RowOf(doc, needles, Hook) == RowOf(doc, needles, Producer)
  {
    hide Column, ReadsLeapSecond, Stored, Active;
    var run := Active(needles);
    forall i | 0 <= i < |run| {
      ColumnDiffers(doc, run[i]);
    }
    if AllPass(doc, run, Producer) {
      SameStored(doc, run);
    }
  }

  // ---- A whole session ----

  /** The row of a message that parses to doc, if it is exported. */
  ghost function Exported(doc: Option<Doc>, needles: seq<Needle>, program: Program): Option<seq<Field>> {
    if doc.None? then None else RowOf(doc.value, needles, program)
  }

  /** The rows of the messages that are exported, in their order, and the bytes sent for them. */
  ghost function Rows(docs: seq<Option<Doc>>, needles: seq<Needle>, program: Program): seq<seq<Field>> {
    if docs == [] then []
    else
      var row := Exported(docs[0], needles, program);
      (if row.Some? then [row.value] else []) + Rows(docs[1..], needles, program)
  }

  ghost function RowsBytes(docs: seq<Option<Doc>>, needles: seq<Needle>, program: Program): seq<octet> {
    if docs == [] then []
    else
      (if Exported(docs[0], needles, program).Some? then RowBytes(docs[0].value, needles, program) else [])
      + RowsBytes(docs[1..], needles, program)
  }

  /** Every text that may be stored is shorter than 2^32 - 1 bytes. */
  ghost predicate TextsFit(docs: seq<Option<Doc>>) {
    forall i, p :: 0 <= i < |docs| && docs[i].Some? && p in docs[i].value ==> |docs[i].value[p]| < NULL_LENGTH
  }

  /** The field count is right and can be told from a negative one. */
  ghost predicate Countable(needles: seq<Needle>) {
    CountsAgree(needles) && StoreCount(Active(needles)) < 0x8000
  }

  lemma ColumnFits(doc: Doc, n: Needle, program: Program)
    requires Column(doc, n, program).Some? && forall p :: p in doc ==> |doc[p]| < NULL_LENGTH
    ensures FieldFits(Column(doc, n, program).value)
  {
    hide Passes, GoesOn;
  }

  lemma {:induction false} StoredFits(doc: Doc, needles: seq<Needle>, program: Program)
    requires AllPass(doc, needles, program)
    requires forall p :: p in doc ==> |doc[p]| < NULL_LENGTH
    ensures forall i :: 0 <= i < |Stored(doc, needles, program)| ==> FieldFits(Stored(doc, needles, program)[i])
  {
    hide Column, FieldFits;
    if needles != [] {
      StoredFits(doc, needles[..|needles| - 1], program);
      ColumnFits(doc, needles[|needles| - 1], program);
    }
  }

  lemma RowOfFits(doc: Doc, needles: seq<Needle>, program: Program)
    requires RowOf(doc, needles, program).Some? && forall p :: p in doc ==> |doc[p]| < NULL_LENGTH
    ensures var row := RowOf(doc, needles, program).value;
            |row| == StoreCount(Active(needles)) && forall i :: 0 <= i < |row| ==> FieldFits(row[i])
  {
    hide Column, FieldFits, StoreCount, Stored, AllPass, Active;
    CountIsStored(doc, Active(needles), program);
    StoredFits(doc, Active(needles), program);
  }

  lemma {:induction false} RowsFit(docs: seq<Option<Doc>>, needles: seq<Needle>, program: Program)
    requires StoreCount(Active(needles)) < 0x8000 && TextsFit(docs)
    ensures forall i :: 0 <= i < |Rows(docs, needles, program)| ==> RowFits(Rows(docs, needles, program)[i])
  {
    hide RowOf, FieldFits, StoreCount, Active;
    if docs != [] {
      RowsFit(docs[1..], needles, program);
      if Exported(docs[0], needles, program).Some? {
        RowOfFits(docs[0].value, needles, program);
      }
    }
  }

  /** With the right count, the bytes sent are the encoding of the rows. */
  lemma {:induction false} RowsBytesEncode(docs: seq<Option<Doc>>, needles: seq<Needle>, program: Program)
    requires CountsAgree(needles)
    ensures RowsBytes(docs, needles, program) == EncodeRows(Rows(docs, needles, program))
  {
    hide RowOf, RowBytes, CountsAgree, EncodeRow;
    if docs != [] {
      RowsBytesEncode(docs[1..], needles, program);
      var row, rest := Exported(docs[0], needles, program), Rows(docs[1..], needles, program);
      if row.Some? {
        RowBytesIff(docs[0].value, needles, program);
        assert ([row.value] + rest)[0] == row.value && ([row.value] + rest)[1..] == rest;
      } else {
        assert [] + rest == rest && [] + RowsBytes(docs[1..], needles, program) == EncodeRows(rest);
      }
    }
  }

  /** The first row's bytes come first. */
  lemma {:induction false} FirstRow(docs: seq<Option<Doc>>, needles: seq<Needle>, program: Program)
    returns (rest: seq<octet>)
    requires Rows(docs, needles, program) != [] && TextsFit(docs)
    ensures RowsBytes(docs, needles, program) == Be16(StoreCount(needles) % 0x1_0000) + rest
    ensures |Rows(docs, needles, program)[0]| == StoreCount(Active(needles))
  {
    hide RowOf, StoreCount, Active, Be16, EncodeFields;
    var row := Exported(docs[0], needles, program);
    if row.Some? {
      RowOfFits(docs[0].value, needles, program);
      rest := EncodeFields(row.value) + RowsBytes(docs[1..], needles, program);
    } else {
      rest := FirstRow(docs[1..], needles, program);
    }
  }

  /** A session of exported messages reads back as exactly the stored columns of each exported message, in
      order, a missing pointer as NULL, if and only if the needles are countable or nothing was exported. */
  lemma ExportRoundTripIff(docs: seq<Option<Doc>>, needles: seq<Needle>, program: Program)
    requires TextsFit(docs)
    ensures DecodeSession(HEADER + RowsBytes(docs, needles, program) + TRAILER) == Some(Rows(docs, needles, program)) <==>
            Countable(needles) || Rows(docs, needles, program) == []
  {
    hide StoreCount, TextsFit, Rows, RowsBytes, EncodeRows, DecodeSession, Active, CountsAgree;
    var rows := Rows(docs, needles, program);
    if Countable(needles) {
      RowsFit(docs, needles, program);
      RowsBytesEncode(docs, needles, program);
      SessionRoundTrip(rows);
    } else if rows == [] {
      NoRowsNoBytes(docs, needles, program);
      SessionRoundTrip([]);
      NoRowsEncoded();
    } else {
      var rest := FirstRow(docs, needles, program);
      SessionOfCount(StoreCount(needles) % 0x1_0000, RowsBytes(docs, needles, program), rest);
      CountMatters(needles);
    }
  }

  lemma CountMatters(needles: seq<Needle>)
    requires !Countable(needles)
    ensures StoreCount(needles) % 0x1_0000 >= 0x8000 || StoreCount(needles) % 0x1_0000 != StoreCount(Active(needles))
  {
    hide StoreCount, Active;
  }

  lemma NoRowsEncoded()
    ensures EncodeRows([]) == []
  {
  }

  lemma {:induction false} NoRowsNoBytes(docs: seq<Option<Doc>>, needles: seq<Needle>, program: Program)
    requires Rows(docs, needles, program) == []
    ensures RowsBytes(docs, needles, program) == []
  {
    hide RowOf;
    if docs != [] {
      NoRowsNoBytes(docs[1..], needles, program);
    }
  }
}
