/**
 * `parseCsvSimple` (app/lib/gameData.js): the naive CSV reader. Lines are
 * split on `\r?\n` and empty ones dropped, the first line gives the header
 * names and every later line is cut at each comma and zipped against them.
 * Quotes mean nothing to it.
 */
module Csv {
  import opened Strings

  /** A parsed row: a plain object from header name to field text. */
  type Row = map<string, string>

  // ---------------------------------------------------------------------------
  // lines

  /** A line without one trailing carriage return, if it has one. */
  function DropCR(l: string): string
  {
    if l != [] && l[|l| - 1] == '\r' then l[..|l| - 1] else l
  }

  /**
   * The line split of app/lib/gameData.js:6: every line feed ends a line and takes a carriage
   * return right before it along as part of the separator; the last line,
   * which no line feed ends, keeps a trailing carriage return.
   */
  function SplitLines(text: string): (lines: seq<string>)
    ensures |lines| >= 1
    ensures forall i :: 0 <= i < |lines| ==> '\n' !in lines[i]
  {
    var pieces := Split(text, '\n');
    seq(|pieces|, i requires 0 <= i < |pieces| =>
      if i < |pieces| - 1 then DropCR(pieces[i]) else pieces[i])
  }

  /** The filter of app/lib/gameData.js:6, which keeps the non-empty strings, in order. */
  function NonEmpty(ls: seq<string>): (r: seq<string>)
    ensures |r| <= |ls|
    ensures forall i :: 0 <= i < |r| ==> r[i] != [] && r[i] in ls
    ensures forall x :: x in ls && x != [] ==> x in r
  {
    if ls == [] then []
    else (if ls[0] == [] then [] else [ls[0]]) + NonEmpty(ls[1..])
  }

  /** Filtering distributes over concatenation: kept strings stay in their order. */
  lemma {:induction false} NonEmptyAppend(a: seq<string>, b: seq<string>)
    ensures NonEmpty(a + b) == NonEmpty(a) + NonEmpty(b)
    decreases |a|
  {
    if a == [] {
      assert a + b == b;
    } else {
      assert (a + b)[0] == a[0];
      assert (a + b)[1..] == a[1..] + b;
      NonEmptyAppend(a[1..], b);
    }
  }

  /** An empty line is dropped wherever it stands, and a non-empty one kept in place. */
  lemma NonEmptyLine(a: seq<string>, l: string, b: seq<string>)
    ensures NonEmpty(a + [l] + b) == NonEmpty(a) + (if l == [] then [] else [l]) + NonEmpty(b)
  {
    var kept: seq<string> := if l == [] then [] else [l];
    assert NonEmpty([l]) == kept by {
      assert [l][1..] == [];
    }
    NonEmptyAppend(a, [l]);
    NonEmptyAppend(a + [l], b);
  }

  /** The non-empty lines of the text, in order. */
  function Lines(text: string): (ls: seq<string>)
    ensures forall i :: 0 <= i < |ls| ==> ls[i] != [] && '\n' !in ls[i]
    ensures forall l :: l in SplitLines(text) && l != [] ==> l in ls
  {
    NonEmpty(SplitLines(text))
  }

  /**
   * The lines written out as a text, line i ended by `\r\n` when `crlf[i]`
   * and by `\n` otherwise (no ending after the last line).
   */
  function JoinLines(ls: seq<string>, crlf: seq<bool>): string
    requires |ls| >= 1 && |crlf| == |ls|
  {
    Join(seq(|ls|, i requires 0 <= i < |ls| => if crlf[i] && i < |ls| - 1 then ls[i] + "\r" else ls[i]), '\n')
  }

  /**
   * Splitting lines undoes writing them out, with each line's ending chosen
   * on its own. A line ended by a bare `\n` must not itself end in a carriage
   * return, since that one would be taken for part of the line ending.
   */
  lemma SplitLinesJoin(ls: seq<string>, crlf: seq<bool>)
    requires |ls| >= 1 && |crlf| == |ls|
    requires forall i :: 0 <= i < |ls| ==> '\n' !in ls[i]
    requires forall i :: 0 <= i < |ls| - 1 && !crlf[i] ==> DropCR(ls[i]) == ls[i]
    ensures SplitLines(JoinLines(ls, crlf)) == ls
  {
    var ended := seq(|ls|, i requires 0 <= i < |ls| => if crlf[i] && i < |ls| - 1 then ls[i] + "\r" else ls[i]);
    forall i | 0 <= i < |ended| ensures '\n' !in ended[i] {
      if crlf[i] && i < |ls| - 1 {
        assert forall ch :: ch in ls[i] + "\r" ==> ch in ls[i] || ch == '\r';
      }
    }
    SplitJoin(ended, '\n');
    forall i | 0 <= i < |ls| - 1 && crlf[i] ensures DropCR(ended[i]) == ls[i] {
      assert (ls[i] + "\r")[..|ls[i]|] == ls[i];
    }
  }

  lemma {:induction false} NonEmptyKeeps(ls: seq<string>)
    requires forall i :: 0 <= i < |ls| ==> ls[i] != []
    ensures NonEmpty(ls) == ls
    decreases |ls|
  {
    if ls != [] {
      NonEmptyKeeps(ls[1..]);
      assert [ls[0]] + ls[1..] == ls;
    }
  }

  /**
   * A text written from lines reads back as exactly its non-empty lines, in
   * order, whatever mix of line endings it uses; when no line is empty, as
   * the lines themselves.
   */
  lemma LinesJoin(ls: seq<string>, crlf: seq<bool>)
    requires |ls| >= 1 && |crlf| == |ls|
    requires forall i :: 0 <= i < |ls| ==> '\n' !in ls[i]
    requires forall i :: 0 <= i < |ls| - 1 && !crlf[i] ==> DropCR(ls[i]) == ls[i]
    ensures Lines(JoinLines(ls, crlf)) == NonEmpty(ls)
    ensures (forall i :: 0 <= i < |ls| ==> ls[i] != []) ==> Lines(JoinLines(ls, crlf)) == ls
  {
    SplitLinesJoin(ls, crlf);
    if forall i :: 0 <= i < |ls| ==> ls[i] != [] {
      NonEmptyKeeps(ls);
    }
  }

  /** With one line ending throughout, `\r\n` or `\n`, the same holds. */
  lemma LinesJoinUniform(ls: seq<string>, crlf: bool)
    requires |ls| >= 1
    requires forall i :: 0 <= i < |ls| ==> '\n' !in ls[i]
    requires !crlf ==> forall i :: 0 <= i < |ls| - 1 ==> DropCR(ls[i]) == ls[i]
    ensures Lines(JoinLines(ls, seq(|ls|, _ => crlf))) == NonEmpty(ls)
  {
    LinesJoin(ls, seq(|ls|, _ => crlf));
  }

  /** The text "a\r\nb\nc", mixing both endings, splits into "a", "b" and "c". */
  lemma MixedEndings()
    ensures SplitLines("a\r\nb\nc") == ["a", "b", "c"]
  {
    var ls: seq<string> := ["a", "b", "c"];
    var crlf := [true, false, false];
    var ended: seq<string> := ["a\r", "b", "c"];
    assert seq(|ls|, i requires 0 <= i < |ls| => if crlf[i] && i < |ls| - 1 then ls[i] + "\r" else ls[i]) == ended by {
      assert ls[0] + "\r" == ended[0];
    }
    assert Join(ended[2..], '\n') == "c";
    assert Join(ended[1..], '\n') == "b\nc";
    assert JoinLines(ls, crlf) == Join(ended, '\n') == "a\r\nb\nc";
    SplitLinesJoin(ls, crlf);
  }

  // ---------------------------------------------------------------------------
  // header zipping

  /** The header names (app/lib/gameData.js:9): the comma pieces of the first line, each trimmed. */
  function Headers(line: string): seq<string>
  {
    var pieces := Split(line, ',');
    seq(|pieces|, j requires 0 <= j < |pieces| => Trim(pieces[j]))
  }

  /** The comma piece at position `j`, or "" past the last piece (app/lib/gameData.js:16). */
  function Col(cols: seq<string>, j: nat): string
  {
    if j < |cols| then cols[j] else ""
  }

  /** The last position of a header name: the one whose assignment to the row object sticks. */
  function LastIndex(hs: seq<string>, h: string): (j: nat)
    requires h in hs
    ensures j < |hs| && hs[j] == h
    ensures forall k :: j < k < |hs| ==> hs[k] != h
    decreases |hs|
  {
    if hs[|hs| - 1] == h then |hs| - 1 else LastIndex(hs[..|hs| - 1], h)
  }

  /**
   * The row object the inner loop builds: one key per header name, holding
   * the trimmed column under the last header of that name.
   */
  function ZipRow(hs: seq<string>, cols: seq<string>): Row
  {
    map h | h in hs :: Trim(Col(cols, LastIndex(hs, h)))
  }

  /** Assigning one more header to the row object. */
  lemma ZipRowSnoc(hs: seq<string>, h: string, cols: seq<string>)
    ensures ZipRow(hs + [h], cols) == ZipRow(hs, cols)[h := Trim(Col(cols, |hs|))]
  {
    var hs' := hs + [h];
    var grown, updated := ZipRow(hs', cols), ZipRow(hs, cols)[h := Trim(Col(cols, |hs|))];
    assert hs'[..|hs'| - 1] == hs;
    assert grown.Keys == updated.Keys by {
      assert forall k :: k in hs' <==> k in hs || k == h;
    }
    forall k | k in grown ensures grown[k] == updated[k] {
      if k != h {
        assert LastIndex(hs', k) == LastIndex(hs, k);
      }
    }
  }

  /** The row object after the header at position `j` has been assigned. */
  lemma ZipRowPrefix(hs: seq<string>, j: nat, cols: seq<string>)
    requires j < |hs|
    ensures ZipRow(hs[..j + 1], cols) == ZipRow(hs[..j], cols)[hs[j] := Trim(Col(cols, j))]
  {
    assert hs[..j + 1] == hs[..j] + [hs[j]];
    ZipRowSnoc(hs[..j], hs[j], cols);
  }

  /**
   * What a parsed row holds, for header names `hs` (in the reader, the
   * trimmed comma pieces of the first line): its keys are exactly `hs`;
   * under a header name that does not occur again further right stands the
   * trimmed comma piece at that position, or "" when the line has fewer
   * pieces; every value is trimmed and free of commas.
   */
  lemma ParsedRow(hs: seq<string>, line: string)
    ensures ZipRow(hs, Split(line, ',')).Keys == set h | h in hs
    ensures var cols := Split(line, ',');
      forall j :: 0 <= j < |hs| && (forall k :: j < k < |hs| ==> hs[k] != hs[j]) ==>
        ZipRow(hs, cols)[hs[j]] == if j < |cols| then Trim(cols[j]) else ""
    ensures var row := ZipRow(hs, Split(line, ','));
      forall h :: h in row ==> ',' !in row[h] && Trim(row[h]) == row[h]
  {
    var cols := Split(line, ',');
    var row := ZipRow(hs, cols);
    forall j | 0 <= j < |hs| && (forall k :: j < k < |hs| ==> hs[k] != hs[j])
      ensures row[hs[j]] == if j < |cols| then Trim(cols[j]) else ""
    {
      assert LastIndex(hs, hs[j]) == j;
    }
    forall h | h in row ensures ',' !in row[h] && Trim(row[h]) == row[h] {
      TrimIdempotent(Col(cols, LastIndex(hs, h)));
      TrimChars(Col(cols, LastIndex(hs, h)));
    }
  }

  // ---------------------------------------------------------------------------
  // the reader

  /** The inner loop of `parseCsvSimple`: the row object of one line, for the header names `headers`. */
  method ZipLine(headers: seq<string>, line: string) returns (obj: Row)
    ensures obj == ZipRow(headers, Split(line, ','))
  {
    var cols := Split(line, ',');
    obj := map[];
    for j := 0 to |headers|
      invariant obj == ZipRow(headers[..j], cols)
    {
      ZipRowPrefix(headers, j, cols);
      obj := obj[headers[j] := Trim(Col(cols, j))];
    }
    assert headers[..|headers|] == headers;
  }

  /**
   * `parseCsvSimple(text)`: no rows when the text has no non-empty line;
   * otherwise one row per non-empty line after the first, in order, each
   * the header names zipped with that line's comma pieces.
   */
  method ParseCsvSimple(text: string) returns (rows: seq<Row>)
    ensures Lines(text) == [] ==> rows == []
    ensures Lines(text) != [] ==> |rows| == |Lines(text)| - 1
    ensures forall i :: 0 <= i < |rows| ==>
      |Lines(text)| == |rows| + 1 &&
      rows[i] == ZipRow(Headers(Lines(text)[0]), Split(Lines(text)[i + 1], ','))
  {
    var lines := Lines(text);
    if |lines| == 0 {
      return [];
    }
    var headers := Headers(lines[0]);
    rows := [];
    for i := 1 to |lines|
      invariant |rows| == i - 1
      invariant forall k :: 0 <= k < |rows| ==> rows[k] == ZipRow(headers, Split(lines[k + 1], ','))
    {
      var obj := ZipLine(headers, lines[i]);
      rows := rows + [obj];
    }
  }
}
