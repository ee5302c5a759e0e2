/** The text codec of src/matrix.rs (`from_bytes`, `to_bytes`): rows are
    separated by ';' and the entries of a row by ','. Scalar parsing and
    formatting belong to the scalar type and are passed in as functions;
    the bytes are taken to be already decoded into characters. */
module Codec {
  import opened Matrices
  import opened Truncation

  const ParseError := "Unable to parse number in matrix"
  const ShapeError := "Non-rectangular matrix"

  // ---------------------------------------------------------------------
  // Splitting and joining

  /** `str::split` on one character: the pieces between the separators,
      at least one, an empty one for each empty stretch. */
  function Split(s: string, sep: char): (parts: seq<string>)
    ensures |parts| >= 1
    ensures forall k | 0 <= k < |parts| :: sep !in parts[k]
    decreases |s|
  {
    if s == [] then [[]]
    else
      var rest := Split(s[1..], sep);
      if s[0] == sep then [[]] + rest
      else [[s[0]] + rest[0]] + rest[1..]
  }

  /** `join`: the pieces with one separator between neighbours. */
  function Join(parts: seq<string>, sep: char): string
  {
    if |parts| == 0 then []
    else if |parts| == 1 then parts[0]
    else parts[0] + [sep] + Join(parts[1..], sep)
  }

  /** Joining the pieces of a split gives back the text. */
  lemma {:induction false} JoinSplit(s: string, sep: char)
    ensures Join(Split(s, sep), sep) == s
    decreases |s|
  {
    if s != [] {
      var rest := Split(s[1..], sep);
      JoinSplit(s[1..], sep);
      assert Join(rest, sep) == s[1..];
      assert s == [s[0]] + s[1..];
      if s[0] == sep {
        var parts := [[]] + rest;
        assert Split(s, sep) == parts;
        assert parts[0] == [] && parts[1..] == rest;
        assert Join(parts, sep) == [] + [sep] + Join(rest, sep);
      } else if |rest| == 1 {
        var parts := [[s[0]] + rest[0]];
        assert Split(s, sep) == parts;
        assert Join(rest, sep) == rest[0];
      } else {
        var parts := [[s[0]] + rest[0]] + rest[1..];
        assert Split(s, sep) == parts;
        assert parts[1..] == rest[1..];
        assert Join(parts, sep) == [s[0]] + rest[0] + [sep] + Join(rest[1..], sep);
        assert Join(rest, sep) == rest[0] + [sep] + Join(rest[1..], sep);
      }
    }
  }

  lemma {:induction false} SplitPrepend(p: string, t: string, sep: char)
    requires sep !in p
    ensures Split(p + t, sep) == [p + Split(t, sep)[0]] + Split(t, sep)[1..]
    decreases |p|
  {
    var st := Split(t, sep);
    if p == [] {
      assert p + t == t && p + st[0] == st[0];
      assert st == [st[0]] + st[1..];
    } else {
      var pt := p + t;
      assert pt[0] == p[0] && pt[0] != sep;
      assert pt[1..] == p[1..] + t;
      SplitPrepend(p[1..], t, sep);
      var rest := Split(pt[1..], sep);
      assert rest == [p[1..] + st[0]] + st[1..];
      assert Split(pt, sep) == [[p[0]] + rest[0]] + rest[1..];
      assert rest[1..] == st[1..];
      assert [p[0]] + rest[0] == p + st[0];
    }
  }

  /** Splitting a join gives back the pieces when none holds the
      separator. */
  lemma {:induction false} SplitJoin(parts: seq<string>, sep: char)
    requires |parts| >= 1 && forall k | 0 <= k < |parts| :: sep !in parts[k]
    ensures Split(Join(parts, sep), sep) == parts
    decreases |parts|
  {
    if |parts| == 1 {
      SplitPrepend(parts[0], [], sep);
      assert parts[0] + [] == parts[0];
    } else {
      var rest := Join(parts[1..], sep);
      SplitJoin(parts[1..], sep);
      var t := [sep] + rest;
      assert Join(parts, sep) == parts[0] + t;
      SplitPrepend(parts[0], t, sep);
      assert t[0] == sep && t[1..] == rest;
      assert Split(t, sep) == [[]] + parts[1..];
      assert parts[0] + [] == parts[0];
      assert parts == [parts[0]] + parts[1..];
    }
  }

  lemma {:induction false} JoinAvoids(parts: seq<string>, sep: char, c: char)
    requires c != sep && forall k | 0 <= k < |parts| :: c !in parts[k]
    ensures c !in Join(parts, sep)
    decreases |parts|
  {
    if |parts| > 1 {
      JoinAvoids(parts[1..], sep, c);
    }
  }

  // ---------------------------------------------------------------------
  // Decoding

  /** Parses every entry of a row; `None` as soon as one fails. */
  function ParseRow(entries: seq<string>, parse: string -> Option<real>): (r: Option<seq<real>>)
    ensures r.None? <==> exists k | 0 <= k < |entries| :: parse(entries[k]).None?
    ensures r.Some? ==>
      |r.value| == |entries| && forall k | 0 <= k < |entries| :: parse(entries[k]) == Some(r.value[k])
  {
    if entries == [] then Some([])
    else match parse(entries[0])
      case None => None
      case Some(x) =>
        match ParseRow(entries[1..], parse)
        case None => assert forall k | 0 < k < |entries| :: entries[k] == entries[1..][k - 1]; None
        case Some(rest) => Some([x] + rest)
  }

  function Entries(line: string): seq<string>
  {
    Split(line, ',')
  }

  /** The rows from `lines` on, each as wide as `width` (the first one
      fixes it when it is `None`), in the order the rows are checked. */
  function DecodeLines(lines: seq<string>, parse: string -> Option<real>, width: Option<nat>): Result<Matrix>
    decreases |lines|
  {
    if lines == [] then Ok([])
    else match ParseRow(Entries(lines[0]), parse)
      case None => Err(ParseError)
      case Some(row) =>
        if width.Some? && |row| != width.value then Err(ShapeError)
        else match DecodeLines(lines[1..], parse, Some(|row|))
          case Err(msg) => Err(msg)
          case Ok(rest) => Ok([row] + rest)
  }

  /** `from_bytes`. */
  function Decode(s: string, parse: string -> Option<real>): Result<Matrix>
  {
    DecodeLines(Split(s, ';'), parse, None)
  }

  /** Every entry of every line parses. */
  predicate AllParse(lines: seq<string>, parse: string -> Option<real>)
  {
    forall i | 0 <= i < |lines| :: ParseRow(Entries(lines[i]), parse).Some?
  }

  /** Every line has as many entries as `width` says, or as the first. */
  predicate AllAsWide(lines: seq<string>, width: Option<nat>)
  {
    (forall i | 0 <= i < |lines| :: |Entries(lines[i])| == |Entries(lines[0])|) &&
    (width.Some? && |lines| > 0 ==> |Entries(lines[0])| == width.value)
  }

  lemma {:induction false} DecodeLinesMeaning(lines: seq<string>, parse: string -> Option<real>, width: Option<nat>)
    ensures DecodeLines(lines, parse, width).Ok? <==> AllParse(lines, parse) && AllAsWide(lines, width)
    ensures DecodeLines(lines, parse, width).Ok? ==>
      var m := DecodeLines(lines, parse, width).value;
      |m| == |lines| && forall i | 0 <= i < |lines| :: ParseRow(Entries(lines[i]), parse) == Some(m[i])
    ensures DecodeLines(lines, parse, width).Err? ==>
      var msg := DecodeLines(lines, parse, width).msg;
      (msg == ParseError || msg == ShapeError) &&
      (AllParse(lines, parse) ==> msg == ShapeError) &&
      (AllAsWide(lines, width) ==> msg == ParseError)
  {
    DecodeLinesVerdict(lines, parse, width);
    DecodeLinesRows(lines, parse, width);
  }

  /** When decoding succeeds, and which message it fails with otherwise. */
  lemma {:induction false} DecodeLinesVerdict(lines: seq<string>, parse: string -> Option<real>, width: Option<nat>)
    ensures DecodeLines(lines, parse, width).Ok? <==> AllParse(lines, parse) && AllAsWide(lines, width)
    ensures DecodeLines(lines, parse, width).Err? ==>
      var msg := DecodeLines(lines, parse, width).msg;
      (msg == ParseError || msg == ShapeError) &&
      (AllParse(lines, parse) ==> msg == ShapeError) &&
      (AllAsWide(lines, width) ==> msg == ParseError)
    decreases |lines|
  {
    if lines != [] {
      var tail := lines[1..];
      assert forall i | 1 <= i < |lines| :: lines[i] == tail[i - 1];
      match ParseRow(Entries(lines[0]), parse)
      case None =>
      case Some(row) =>
        DecodeLinesVerdict(tail, parse, Some(|row|));
        if AllAsWide(lines, width) {
          assert AllAsWide(tail, Some(|row|));
        }
        if AllParse(lines, parse) {
          assert AllParse(tail, parse);
        }
        if AllParse(tail, parse) && AllAsWide(tail, Some(|row|)) && !(width.Some? && |row| != width.value) {
          assert AllParse(lines, parse);
          assert AllAsWide(lines, width);
        }
    }
  }

  /** A decoded matrix has one row per line, the parsed entries of that line. */
  lemma {:induction false} DecodeLinesRows(lines: seq<string>, parse: string -> Option<real>, width: Option<nat>)
    ensures DecodeLines(lines, parse, width).Ok? ==>
      var m := DecodeLines(lines, parse, width).value;
      |m| == |lines| && forall i | 0 <= i < |lines| :: ParseRow(Entries(lines[i]), parse) == Some(m[i])
    decreases |lines|
  {
    if lines != [] {
      var tail := lines[1..];
      match ParseRow(Entries(lines[0]), parse)
      case None =>
      case Some(row) =>
        DecodeLinesRows(tail, parse, Some(|row|));
        assert forall i | 1 <= i < |lines| :: lines[i] == tail[i - 1];
    }
  }

  /** What `from_bytes` promises: a matrix exactly when every entry parses
      and every row has as many entries as the first, with one row per
      ';'-piece and one entry per ','-piece; otherwise one of the two
      messages, the parse message whenever the rows are alike and the
      shape message whenever every entry parses. */
  lemma DecodeMeaning(s: string, parse: string -> Option<real>)
    ensures var lines := Split(s, ';');
      Decode(s, parse).Ok? <==> AllParse(lines, parse) && AllAsWide(lines, None)
    ensures Decode(s, parse).Ok? ==>
      var lines := Split(s, ';');
      var m := Decode(s, parse).value;
      |m| == |lines| && |m| > 0 && IsRect(m) &&
      (forall i | 0 <= i < |m| :: ParseRow(Entries(lines[i]), parse) == Some(m[i])) &&
      forall i, k | 0 <= i < |m| && 0 <= k < |m[i]| ::
        |m[i]| == |Entries(lines[i])| && parse(Entries(lines[i])[k]) == Some(m[i][k])
    ensures Decode(s, parse).Err? ==>
      var lines := Split(s, ';');
      var msg := Decode(s, parse).msg;
      (msg == ParseError || msg == ShapeError) &&
      (AllParse(lines, parse) ==> msg == ShapeError) &&
      (AllAsWide(lines, None) ==> msg == ParseError)
  {
    DecodeLinesMeaning(Split(s, ';'), parse, None);
  }

  /** `from_bytes` as the loops of the source. */
  method FromBytes(s: string, parse: string -> Option<real>) returns (r: Result<Matrix>)
    ensures r == Decode(s, parse)
  {
    var lines := Split(s, ';');
    var rows: Matrix := [];
    var rowLength: Option<nat> := None;  // `usize::MAX` until the first row is read
    assert lines[0..] == lines;
    match Decode(s, parse) {
      case Ok(all) => assert rows + all == all;
      case Err(_) =>
    }
    for i := 0 to |lines|
      invariant Decode(s, parse) == Prefixed(rows, DecodeLines(lines[i..], parse, rowLength))
    {
      var parsedRow := ParseEntries(Entries(lines[i]), parse);
      if parsedRow.None? {
        assert lines[i..][0] == lines[i];
        return Err(ParseError);
      }
      var row := parsedRow.value;
      if rowLength.None? {
        DecodeStep(rows, row, lines, i, parse, rowLength);
        rowLength := Some(|row|);
      } else if |row| != rowLength.value {
        assert lines[i..][0] == lines[i];
        return Err(ShapeError);
      } else {
        DecodeStep(rows, row, lines, i, parse, rowLength);
      }
      rows := rows + [row];
    }
    assert lines[|lines|..] == [] && rows + [] == rows;
    r := Ok(rows);
  }

  /** The inner loop of `from_bytes`: parse the entries of one line in
      order, stopping at the first that does not parse. */
  method ParseEntries(entries: seq<string>, parse: string -> Option<real>) returns (r: Option<seq<real>>)
    ensures r == ParseRow(entries, parse)
  {
    var row: seq<real> := [];
    for j := 0 to |entries|
      invariant |row| == j && forall k | 0 <= k < j :: parse(entries[k]) == Some(row[k])
    {
      var parsed := parse(entries[j]);
      if parsed.None? {
        return None;
      }
      row := row + [parsed.value];
    }
    ParseRowAllParsed(entries, parse, row);
    r := Some(row);
  }

  lemma ParseRowAllParsed(entries: seq<string>, parse: string -> Option<real>, row: seq<real>)
    requires |row| == |entries| && forall k | 0 <= k < |entries| :: parse(entries[k]) == Some(row[k])
    ensures ParseRow(entries, parse) == Some(row)
  {
    var p := ParseRow(entries, parse);
    assert p.Some?;
    assert p.value == row;
  }

  lemma DecodeStep(rows: Matrix, row: seq<real>, lines: seq<string>, i: nat, parse: string -> Option<real>, width: Option<nat>)
    requires i < |lines| && ParseRow(Entries(lines[i]), parse) == Some(row)
    requires width.Some? ==> |row| == width.value
    ensures Prefixed(rows, DecodeLines(lines[i..], parse, width))
         == Prefixed(rows + [row], DecodeLines(lines[i + 1..], parse, Some(|row|)))
  {
    assert lines[i..][0] == lines[i] && lines[i..][1..] == lines[i + 1..];
    match DecodeLines(lines[i + 1..], parse, Some(|row|))
    case Err(_) =>
    case Ok(rest) => assert rows + ([row] + rest) == rows + [row] + rest;
  }

  /** `rows` in front of a successful result, or the error. */
  function Prefixed(rows: Matrix, r: Result<Matrix>): Result<Matrix>
  {
    match r
    case Ok(rest) => Ok(rows + rest)
    case Err(msg) => Err(msg)
  }

  // ---------------------------------------------------------------------
  // Encoding

  /** One entry as text: formatted, then truncated by the given rule. */
  function EntryText(x: real, format: real -> string, rule: Rule): string
  {
    Truncated(rule, format(x))
  }

  function RowText(row: seq<real>, format: real -> string, rule: Rule): string
  {
    Join(seq(|row|, k requires 0 <= k < |row| => EntryText(row[k], format, rule)), ',')
  }

  /** `to_bytes`: entries joined by ',' and rows by ';'. */
  function Encode(m: Matrix, format: real -> string, rule: Rule): string
  {
    Join(seq(|m|, i requires 0 <= i < |m| => RowText(m[i], format, rule)), ';')
  }

  /** The text of one entry contains neither separator and parses back to
      the entry. */
  predicate ReadsBack(x: real, format: real -> string, parse: string -> Option<real>, rule: Rule)
  {
    var t := EntryText(x, format, rule);
    ',' !in t && ';' !in t && parse(t) == Some(x)
  }

  lemma {:induction false} DecodeLinesOf(lines: seq<string>, rows: Matrix, parse: string -> Option<real>, width: nat, first: bool)
    requires |lines| == |rows|
    requires forall i | 0 <= i < |lines| :: ParseRow(Entries(lines[i]), parse) == Some(rows[i])
    requires forall i | 0 <= i < |rows| :: |rows[i]| == width
    ensures DecodeLines(lines, parse, if first then None else Some(width)) == Ok(rows)
    decreases |lines|
  {
    if lines != [] {
      assert forall i | 0 <= i < |lines| - 1 :: lines[1..][i] == lines[i + 1] && rows[1..][i] == rows[i + 1];
      DecodeLinesOf(lines[1..], rows[1..], parse, width, false);
      assert ParseRow(Entries(lines[0]), parse) == Some(rows[0]) && |rows[0]| == width;
      assert DecodeLines(lines[1..], parse, Some(|rows[0]|)) == Ok(rows[1..]);
      assert rows == [rows[0]] + rows[1..];
    }
  }

  /** Decoding the text of a rectangular matrix gives the matrix back, as
      long as every entry's text avoids the separators and reads back. */
  lemma DecodeEncode(m: Matrix, format: real -> string, parse: string -> Option<real>, rule: Rule)
    requires |m| > 0 && IsRect(m) && Cols(m) > 0
    requires forall i, j | 0 <= i < |m| && 0 <= j < |m[i]| :: ReadsBack(m[i][j], format, parse, rule)
    ensures Decode(Encode(m, format, rule), parse) == Ok(m)
  {
    var texts := seq(|m|, i requires 0 <= i < |m| => RowText(m[i], format, rule));
    forall i | 0 <= i < |m|
      ensures ';' !in texts[i]
      ensures ParseRow(Entries(texts[i]), parse) == Some(m[i])
    {
      var entries := seq(|m[i]|, k requires 0 <= k < |m[i]| => EntryText(m[i][k], format, rule));
      assert forall k | 0 <= k < |entries| :: ReadsBack(m[i][k], format, parse, rule);
      JoinAvoids(entries, ',', ';');
      SplitJoin(entries, ',');
      var p := ParseRow(entries, parse);
      assert p.Some?;
      assert p.value == m[i];
    }
    SplitJoin(texts, ';');
    DecodeLinesOf(texts, m, parse, Cols(m), true);
  }

  lemma RowTextReadsBack(line: string, row: seq<real>, format: real -> string, parse: string -> Option<real>, rule: Rule)
    requires ParseRow(Entries(line), parse) == Some(row)
    requires forall e | e in Entries(line) :: parse(e).Some? && EntryText(parse(e).value, format, rule) == e
    ensures RowText(row, format, rule) == line
  {
    var entries := Entries(line);
    var ts := seq(|row|, k requires 0 <= k < |row| => EntryText(row[k], format, rule));
    forall k | 0 <= k < |row|
      ensures ts[k] == entries[k]
    {
      assert entries[k] in entries;
    }
    assert ts == entries;
    JoinSplit(line, ',');
  }

  /** Encoding a decoded text gives the text back, as long as every entry
      text is what the formatter and the truncation make of its value. */
  lemma EncodeDecode(s: string, format: real -> string, parse: string -> Option<real>, rule: Rule)
    requires Decode(s, parse).Ok?
    requires forall line, e | line in Split(s, ';') && e in Entries(line) ::
      parse(e).Some? && EntryText(parse(e).value, format, rule) == e
    ensures Encode(Decode(s, parse).value, format, rule) == s
  {
    var lines := Split(s, ';');
    var m := Decode(s, parse).value;
    DecodeLinesMeaning(lines, parse, None);
    var texts := seq(|m|, i requires 0 <= i < |m| => RowText(m[i], format, rule));
    forall i | 0 <= i < |m|
      ensures texts[i] == lines[i]
    {
      assert lines[i] in lines;
      RowTextReadsBack(lines[i], m[i], format, parse, rule);
    }
    assert texts == lines;
    JoinSplit(s, ';');
  }

  /** `to_bytes` of src/matrix.rs uses the current truncation. */
  function ToBytes(m: Matrix, format: real -> string): string
  {
    Encode(m, format, Current)
  }
}
