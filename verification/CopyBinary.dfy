/**
 The binary format of PostgreSQL's COPY command: how rows are written, and a reader of the format as its
 documentation describes it.
 */
module CopyBinary {
  import opened Octet
  import opened Options
  import opened Sequences

  /** One column of a row: SQL's NULL, or a value as bytes. */
  datatype Field = Null | Bytes(data: seq<octet>)

  // ---- Numbers in network byte order ----

  function Be16(n: nat): (r: seq<octet>)
    requires n < 0x1_0000
    ensures |r| == 2
  {
    [n / 256, n % 256]
  }

  function Be32(n: nat): (r: seq<octet>)
    requires n < 0x1_0000_0000
    ensures |r| == 4
  {
    Be16(n / 0x1_0000) + Be16(n % 0x1_0000)
  }

  function Be64(n: nat): (r: seq<octet>)
    requires n < 0x1_0000_0000_0000_0000
    ensures |r| == 8
  {
    Be32(n / 0x1_0000_0000) + Be32(n % 0x1_0000_0000)
  }

  function Read16(s: seq<octet>): nat
    requires |s| >= 2
  {
    256 * (s[0] as int) + s[1]
  }

  function Read32(s: seq<octet>): nat
    requires |s| >= 4
  {
    0x1_0000 * Read16(s) + Read16(s[2..])
  }

  function Read64(s: seq<octet>): nat
    requires |s| >= 8
  {
    0x1_0000_0000 * Read32(s) + Read32(s[4..])
  }

  /** The most significant byte comes first. */
  lemma NetworkOrder(s: seq<octet>)
    ensures |s| >= 2 ==> Read16(s) == 0x100 * (s[0] as int) + s[1]
    ensures |s| >= 4 ==> Read32(s) == 0x100_0000 * (s[0] as int) + 0x1_0000 * (s[1] as int) + 0x100 * (s[2] as int) + s[3]
    ensures |s| >= 8 ==> Read64(s) == 0x1_0000_0000 * Read32(s) + Read32(s[4..])
  {
  }

  lemma Read16Back(n: nat, rest: seq<octet>)
    requires n < 0x1_0000
    ensures Read16(Be16(n) + rest) == n
    ensures (Be16(n) + rest)[2..] == rest
  {
  }

  lemma Read32Back(n: nat, rest: seq<octet>)
    requires n < 0x1_0000_0000
    ensures Read32(Be32(n) + rest) == n
    ensures (Be32(n) + rest)[4..] == rest
  {
    hide Be16, Read16;
    var hi, lo := n / 0x1_0000, n % 0x1_0000;
    Halves16(hi, lo, rest);
    Read16Back(hi, Be16(lo) + rest);
    Read16Back(lo, rest);
    assert (Be32(n) + rest)[2..] == Be16(lo) + rest;
  }

  lemma Halves16(hi: nat, lo: nat, rest: seq<octet>)
    requires hi < 0x1_0000 && lo < 0x1_0000
    ensures Be16(hi) + Be16(lo) + rest == Be16(hi) + (Be16(lo) + rest)
  {
  }

  lemma Read64Back(n: nat, rest: seq<octet>)
    requires n < 0x1_0000_0000_0000_0000
    ensures Read64(Be64(n) + rest) == n
  {
    hide Be16, Read16;
    var hi, lo := n / 0x1_0000_0000, n % 0x1_0000_0000;
    Read32Back(hi, Be32(lo) + rest);
    Read32Back(lo, rest);
    assert Be64(n) + rest == Be32(hi) + (Be32(lo) + rest);
  }

  // ---- Writing ----

  const NULL_LENGTH := 0xFFFF_FFFF

  /** A column: its length and its bytes; the length is kept in 32 bits. NULL has the length -1. */
  function EncodeField(f: Field): seq<octet> {
    match f
    case Null => Be32(NULL_LENGTH)
    case Bytes(d) => Be32(|d| % 0x1_0000_0000) + d[..|d| % 0x1_0000_0000]
  }

  function EncodeFields(fs: seq<Field>): seq<octet> {
    if fs == [] then [] else EncodeField(fs[0]) + EncodeFields(fs[1..])
  }

  /** A row: the number of columns in 16 bits, then the columns. */
  function EncodeRow(fs: seq<Field>): seq<octet> {
    Be16(|fs| % 0x1_0000) + EncodeFields(fs)
  }

  /** The signature, the flags and the length of the empty header extension: 19 bytes. */
  const HEADER: seq<octet> := [0x50, 0x47, 0x43, 0x4F, 0x50, 0x59, 0x0A, 0xFF, 0x0D, 0x0A, 0, 0, 0, 0, 0, 0, 0, 0, 0]

  const TRAILER: seq<octet> := [0xFF, 0xFF]

  function EncodeRows(rows: seq<seq<Field>>): seq<octet> {
    if rows == [] then [] else EncodeRow(rows[0]) + EncodeRows(rows[1..])
  }

  // ---- Reading ----

  datatype Parsed<T> = Parsed(value: T, rest: seq<octet>)

  function DecodeField(s: seq<octet>): (r: Option<Parsed<Field>>)
    ensures r.Some? ==> |r.value.rest| < |s|
  {
    if |s| < 4 then None
    else if Read32(s) == NULL_LENGTH then Some(Parsed(Null, s[4..]))
    else if Read32(s) > |s| - 4 then None
    else Some(Parsed(Bytes(s[4..][..Read32(s)]), s[4..][Read32(s)..]))
  }

  function DecodeFields(s: seq<octet>, n: nat): (r: Option<Parsed<seq<Field>>>)
    ensures r.Some? ==> |r.value.rest| <= |s|
    decreases n
  {
    if n == 0 then Some(Parsed([], s))
    else
      match DecodeField(s)
      case None => None
      case Some(f) =>
        match DecodeFields(f.rest, n - 1)
        case None => None
        case Some(fs) => Some(Parsed([f.value] + fs.value, fs.rest))
  }

  /** Rows up to a column count of -1, with nothing behind it; other negative counts are errors. */
  function DecodeRows(s: seq<octet>): Option<seq<seq<Field>>>
    decreases |s|
  {
    if |s| < 2 then None
    else if Read16(s) == 0xFFFF then if |s| == 2 then Some([]) else None
    else if Read16(s) >= 0x8000 then None
    else
      match DecodeFields(s[2..], Read16(s))
      case None => None
      case Some(row) =>
        match DecodeRows(row.rest)
        case None => None
        case Some(rows) => Some([row.value] + rows)
  }

  /** The letters PGCOPY, a newline, 255, a carriage return, a newline and a NUL. */
  predicate Signed(s: seq<octet>)
    requires |s| >= 11
  {
    && s[0] == 'P' as int && s[1] == 'G' as int && s[2] == 'C' as int && s[3] == 'O' as int && s[4] == 'P' as int
    && s[5] == 'Y' as int && s[6] == 10 && s[7] == 255 && s[8] == 13 && s[9] == 10 && s[10] == 0
  }

  /** A session: the signature, a flags word whose upper half must be clear, a header extension that is
      skipped, then the rows. */
  function DecodeSession(s: seq<octet>): Option<seq<seq<Field>>> {
    if |s| < 19 || !Signed(s) then None
    else if Read32(s[11..]) >= 0x1_0000 then None
    else if Read32(s[15..]) > |s| - 19 then None
    else DecodeRows(s[19 + Read32(s[15..])..])
  }

  // ---- The round trip ----

  /** The sizes the format can express. */
  ghost predicate FieldFits(f: Field) {
    f.Bytes? ==> |f.data| < NULL_LENGTH
  }

  ghost predicate RowFits(fs: seq<Field>) {
    |fs| < 0x8000 && forall i :: 0 <= i < |fs| ==> FieldFits(fs[i])
  }

  /** A value is read back if and only if its length fits: 2^32 - 1 bytes read as NULL, more are cut. */
  lemma FieldRoundTripIff(f: Field, rest: seq<octet>)
    ensures DecodeField(EncodeField(f) + rest) == Some(Parsed(f, rest)) <==> FieldFits(f)
  {
    hide Be32, Read32;
    if FieldFits(f) {
      FieldRoundTrip(f, rest);
    } else {
      var n := |f.data| % 0x1_0000_0000;
      var d := f.data[..n];
      Read32Back(n, d + rest);
      assert EncodeField(f) + rest == Be32(n) + (d + rest);
      assert n != NULL_LENGTH ==> n < |f.data|;
    }
  }

  lemma FieldRoundTrip(f: Field, rest: seq<octet>)
    requires FieldFits(f)
    ensures DecodeField(EncodeField(f) + rest) == Some(Parsed(f, rest))
  {
    hide Be32, Read32;
    match f
    case Null =>
      Read32Back(NULL_LENGTH, rest);
    case Bytes(d) =>
      Read32Back(|d|, d + rest);
      assert d[..|d|] == d && (d + rest)[..|d|] == d && (d + rest)[|d|..] == rest;
      assert EncodeField(f) + rest == Be32(|d|) + (d + rest);
  }

  lemma {:induction false} FieldsRoundTrip(fs: seq<Field>, rest: seq<octet>)
    requires forall i :: 0 <= i < |fs| ==> FieldFits(fs[i])
    ensures DecodeFields(EncodeFields(fs) + rest, |fs|) == Some(Parsed(fs, rest))
  {
    hide EncodeField, DecodeField, FieldFits;
    if fs == [] {
      assert EncodeFields(fs) + rest == rest;
    } else {
      var more := EncodeFields(fs[1..]) + rest;
      assert EncodeFields(fs) + rest == EncodeField(fs[0]) + more;
      FieldRoundTrip(fs[0], more);
      FieldsRoundTrip(fs[1..], rest);
      assert [fs[0]] + fs[1..] == fs;
    }
  }

  lemma {:induction false} RowsRoundTrip(rows: seq<seq<Field>>)
    requires forall i :: 0 <= i < |rows| ==> RowFits(rows[i])
    ensures DecodeRows(EncodeRows(rows) + TRAILER) == Some(rows)
  {
    hide EncodeFields, DecodeFields, Be16, Read16;
    if rows == [] {
      assert EncodeRows(rows) + TRAILER == TRAILER;
      TrailerReads();
    } else {
      var row, more := rows[0], EncodeRows(rows[1..]) + TRAILER;
      assert EncodeRows(rows) + TRAILER == Be16(|row|) + (EncodeFields(row) + more);
      Read16Back(|row|, EncodeFields(row) + more);
      FieldsRoundTrip(row, more);
      RowsRoundTrip(rows[1..]);
      assert [row] + rows[1..] == rows;
    }
  }

  lemma TrailerReads()
    ensures Read16(TRAILER) == 0xFFFF && |TRAILER| == 2
  {
  }

  lemma HeaderReads(body: seq<octet>)
    ensures var s := HEADER + body;
            Signed(s) && Read32(s[11..]) == 0 && Read32(s[15..]) == 0 && s[19..] == body
  {
    hide Read32;
    var s := HEADER + body;
    assert s[11..15] == [0, 0, 0, 0] && s[15..19] == [0, 0, 0, 0];
    ZeroReads(s[11..]);
    ZeroReads(s[15..]);
  }

  lemma ZeroReads(s: seq<octet>)
    requires |s| >= 4 && s[0] == 0 && s[1] == 0 && s[2] == 0 && s[3] == 0
    ensures Read32(s) == 0
  {
  }

  lemma HeaderSize()
    ensures |HEADER| == 19
  {
  }

  lemma SessionOf(s: seq<octet>, body: seq<octet>)
    requires |s| >= 19 && Signed(s) && Read32(s[11..]) == 0 && Read32(s[15..]) == 0 && s[19..] == body
    ensures DecodeSession(s) == DecodeRows(body)
  {
    hide DecodeRows, Read32, Signed;
  }

  /** Reading a session gives back exactly its rows, with NULL and empty values told apart. */
  lemma SessionRoundTrip(rows: seq<seq<Field>>)
    requires forall i :: 0 <= i < |rows| ==> RowFits(rows[i])
    ensures DecodeSession(HEADER + EncodeRows(rows) + TRAILER) == Some(rows)
  {
    hide EncodeRows, DecodeRows, DecodeSession, Read32, Signed, RowFits;
    var body := EncodeRows(rows) + TRAILER;
    Assoc(HEADER, EncodeRows(rows), TRAILER);
    HeaderReads(body);
    HeaderSize();
    RowsRoundTrip(rows);
    SessionOf(HEADER + body, body);
  }

  lemma {:induction false} DecodedCount(s: seq<octet>, n: nat)
    ensures DecodeFields(s, n).Some? ==> |DecodeFields(s, n).value.value| == n
    decreases n
  {
    hide DecodeField;
    if n > 0 && DecodeField(s).Some? {
      DecodedCount(DecodeField(s).value.rest, n - 1);
    }
  }

  /** Whatever follows, a session whose first row announces n columns is not read as one whose first row has
      another number of columns, and as no rows at all if n is negative in 16 bits. */
  lemma SessionOfCount(n: nat, body: seq<octet>, rest: seq<octet>)
    requires n < 0x1_0000 && body == Be16(n) + rest
    ensures var r := DecodeSession(HEADER + body + TRAILER);
            r.Some? && r.value != [] ==> n < 0x8000 && |r.value[0]| == n
  {
    hide DecodeSession, DecodeFields, Be16, Read16, Read32, Signed;
    var all := body + TRAILER;
    Assoc(HEADER, body, TRAILER);
    HeaderReads(all);
    HeaderSize();
    SessionOf(HEADER + all, all);
    Assoc(Be16(n), rest, TRAILER);
    Read16Back(n, rest + TRAILER);
    DecodedCount(all[2..], n);
  }

  /** Writing one more column, or one more row, appends it. */
  lemma {:induction false} EncodeFieldsAppend(fs: seq<Field>, f: Field)
    ensures EncodeFields(fs + [f]) == EncodeFields(fs) + EncodeField(f)
  {
    hide EncodeField;
    if fs == [] {
      assert fs + [f] == [f] && EncodeFields([f][1..]) == [];
    } else {
      EncodeFieldsAppend(fs[1..], f);
      assert (fs + [f])[1..] == fs[1..] + [f];
    }
  }

  lemma {:induction false} EncodeRowsAppend(rows: seq<seq<Field>>, row: seq<Field>)
    ensures EncodeRows(rows + [row]) == EncodeRows(rows) + EncodeRow(row)
  {
    hide EncodeRow;
    if rows == [] {
      assert rows + [row] == [row] && EncodeRows([row][1..]) == [];
    } else {
      EncodeRowsAppend(rows[1..], row);
      assert (rows + [row])[1..] == rows[1..] + [row];
    }
  }
}
