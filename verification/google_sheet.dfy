/** The text handling of `GoogleSheet` in `util_google.hpp`: taking the
    sheet id out of a share link, and splitting the downloaded CSV text into
    rows and cells. */
module GoogleSheet {
  import opened Results
  import opened StdStrings

  /** `_extract_sheet_id_from_url`: the text after the first `/d/`, up to
      the next `/` or the end of the link; empty when there is no `/d/`. */
  function ExtractSheetIdFromUrl(url: string): (r: string)
    ensures !Occurs(url, "/d/") ==> r == []
    ensures Occurs(url, "/d/") ==> IsIdAt(url, Find(url, "/d/").value + 3, r)
  {
    var found := Find(url, "/d/");
    if found.None? then []
    else
      var start := found.value + 3;
      var slash := FindFrom(url, "/", start);
      if slash.None? then
        NoSlashFrom(url, start, |url|);
        assert url[start..][..|url| - start] == url[start..];
        assert url[start..start + |url[start..]|] == url[start..];
        url[start..]
      else
        var j := slash.value;
        NoSlashFrom(url, start, j);
        assert url[j] == url[j..j + 1][0] == '/';
        url[start..j]
  }

  /** `id` is what stands in `url` from `start` to the next `/` or the end. */
  predicate IsIdAt(url: string, start: nat, id: string)
  {
    && start + |id| <= |url| && url[start..start + |id|] == id
    && '/' !in id
    && (start + |id| == |url| || url[start + |id|] == '/')
  }

  /** No `/` found from `start` on means no `/` character up to `end`. */
  lemma NoSlashFrom(url: string, start: nat, end: nat)
    requires start <= end <= |url|
    requires forall k: nat :: start <= k < end ==> !OccursAt(url, "/", k)
    ensures '/' !in url[start..end]
  {
    forall k | start <= k < end
      ensures url[k] != '/'
    {
      assert !OccursAt(url, "/", k);
      assert url[k..k + 1] == [url[k]];
    }
  }

  // ---------------------------------------------------------------------
  // Lines, as `std::getline` reads them

  /** The lines `std::getline` reads from `text`: the pieces between the
      newlines, with no further (empty) line after a final newline. */
  function Lines(text: string): seq<string>
    decreases |text|
  {
    if text == [] then []
    else
      var j := IndexOf(text, '\n');
      if j == |text| then [text] else [text[..j]] + Lines(text[j + 1..])
  }

  /** No line holds a newline. */
  lemma {:induction false} LinesAvoidNewline(text: string)
    ensures forall i :: 0 <= i < |Lines(text)| ==> '\n' !in Lines(text)[i]
    decreases |text|
  {
    if text != [] {
      var j := IndexOf(text, '\n');
      if j < |text| {
        LinesAvoidNewline(text[j + 1..]);
      }
    }
  }

  /** A newline at the end of non-empty text that does not already end
      with one adds no row. */
  lemma {:induction false} TrailingNewline(text: string)
    requires text != [] && text[|text| - 1] != '\n'
    ensures Lines(text + "\n") == Lines(text)
    decreases |text|
  {
    var t := text + "\n";
    var j := IndexOf(text, '\n');
    assert t[..j] == text[..j];
    IndexOfIs(t, '\n', j);
    if j < |text| {
      assert t[j + 1..] == text[j + 1..] + "\n";
      TrailingNewline(text[j + 1..]);
    }
  }

  /** `getline` at `pos`: the line up to the next newline, then the lines
      after it. */
  lemma LinesFrom(text: string, pos: nat, j: nat, next: nat)
    requires pos < |text| && j == IndexOf(text[pos..], '\n')
    requires next == if j == |text| - pos then |text| else pos + j + 1
    ensures Lines(text[pos..]) == [text[pos..][..j]] + Lines(text[next..])
  {
    var rest := text[pos..];
    if j == |rest| {
      assert rest[..j] == rest && text[next..] == [];
    } else {
      assert rest[j + 1..] == text[next..];
    }
  }

  /** The lines read so far, one more, and those still to read. */
  lemma LinesRead(text: string, read: seq<string>, pos: nat, j: nat, next: nat)
    requires pos < |text| && j == IndexOf(text[pos..], '\n')
    requires next == if j == |text| - pos then |text| else pos + j + 1
    requires Lines(text) == read + Lines(text[pos..])
    ensures Lines(text) == (read + [text[pos..][..j]]) + Lines(text[next..])
  {
    LinesFrom(text, pos, j, next);
    assert read + ([text[pos..][..j]] + Lines(text[next..])) == (read + [text[pos..][..j]]) + Lines(text[next..]);
  }

  // ---------------------------------------------------------------------
  // Cells of one line

  /** The characters of `s` that are not `"`. */
  function Unquoted(s: string): (r: string)
  {
    if s == [] then []
    else Unquoted(s[..|s| - 1]) + (if s[|s| - 1] == '"' then [] else [s[|s| - 1]])
  }

  /** After reading `s` the parser is inside quotes: `s` holds an odd
      number of `"`. */
  function InQuotes(s: string): bool
  {
    if s == [] then false
    else if s[|s| - 1] == '"' then !InQuotes(s[..|s| - 1])
    else InQuotes(s[..|s| - 1])
  }

  /** A comma outside quotes ends a cell. */
  predicate EndsCell(s: string, k: nat)
    requires k < |s|
  {
    s[k] == ',' && !InQuotes(s[..k])
  }

  /** The number of commas of `s` outside quotes. */
  function CellEnds(s: string): nat
  {
    if s == [] then 0 else CellEnds(s[..|s| - 1]) + (if EndsCell(s, |s| - 1) then 1 else 0)
  }

  /** The cells of `s` so far, the unfinished last one included: quotes
      dropped, a comma outside quotes starting a new cell. */
  function Fields(s: string): (r: seq<string>)
    ensures |r| >= 1
  {
    if s == [] then [[]]
    else
      var p := Fields(s[..|s| - 1]);
      var c := s[|s| - 1];
      if c == '"' then p
      else if EndsCell(s, |s| - 1) then p + [[]]
      else p[..|p| - 1] + [p[|p| - 1] + [c]]
  }

  /** The row `_parse_csv` makes of a line: the last cell only when it is
      not empty. */
  function Row(line: string): (r: seq<string>)
  {
    var f := Fields(line);
    if f[|f| - 1] != [] then f else f[..|f| - 1]
  }

  /** A quote is never copied into a cell. */
  lemma {:induction false} FieldsAvoidQuote(s: string)
    ensures forall k :: 0 <= k < |Fields(s)| ==> '"' !in Fields(s)[k]
  {
    if s != [] {
      FieldsAvoidQuote(s[..|s| - 1]);
    }
  }

  /** One cell per comma outside quotes, plus one. */
  lemma {:induction false} FieldsCount(s: string)
    ensures |Fields(s)| == CellEnds(s) + 1
  {
    if s != [] {
      FieldsCount(s[..|s| - 1]);
    }
  }

  /** Gluing the cells back together with commas gives the line without
      its quotes: every other character, commas inside quotes included, is
      kept in order. */
  lemma {:induction false} FieldsJoin(s: string)
    ensures Join(Fields(s), ',') == Unquoted(s)
  {
    if s != [] {
      var init := s[..|s| - 1];
      var c := s[|s| - 1];
      var p := Fields(init);
      FieldsJoin(init);
      if c == '"' {
      } else if EndsCell(s, |s| - 1) {
        JoinSnoc(p, [], ',');
      } else {
        var n := |p|;
        var front := p[..n - 1];
        if n == 1 {
          assert front + [p[n - 1] + [c]] == [p[0] + [c]];
        } else {
          assert p == front + [p[n - 1]];
          JoinSnoc(front, p[n - 1], ',');
          JoinSnoc(front, p[n - 1] + [c], ',');
        }
      }
    }
  }

  /** `Join` of one more piece. */
  lemma {:induction false} JoinSnoc(p: seq<string>, x: string, sep: char)
    requires |p| >= 1
    ensures Join(p + [x], sep) == Join(p, sep) + [sep] + x
  {
    if |p| > 1 {
      assert (p + [x])[1..] == p[1..] + [x];
      JoinSnoc(p[1..], x, sep);
    }
  }

  /** The body of the `getline` loop of `_parse_csv`: one pass over the
      characters of a line with the `inside_quotes` flag and the `cell`
      buffer. */
  method ParseLine(line: string) returns (row: seq<string>)
    ensures row == Row(line)
  {
    row := [];
    var cell: string := [];
    var insideQuotes := false;
    for i := 0 to |line|
      invariant row + [cell] == Fields(line[..i])
      invariant insideQuotes == InQuotes(line[..i])
    {
      var c := line[i];
      assert line[..i + 1][..i] == line[..i];
      if c == '"' {
        insideQuotes := !insideQuotes;
      } else if c == ',' && !insideQuotes {
        row := row + [cell];
        cell := [];
      } else {
        cell := cell + [c];
      }
    }
    assert line[..|line|] == line;
    if cell != [] {
      row := row + [cell];
    }
  }

  /** `_parse_csv`: one row per line `getline` reads. */
  method ParseCsv(csvText: string) returns (rowsAndCols: seq<seq<string>>)
    ensures |rowsAndCols| == |Lines(csvText)|
    ensures forall i :: 0 <= i < |rowsAndCols| ==> rowsAndCols[i] == Row(Lines(csvText)[i])
  {
    rowsAndCols := [];
    ghost var read: seq<string> := [];
    var pos := 0;
    while pos < |csvText|
      invariant pos <= |csvText|
      invariant Lines(csvText) == read + Lines(csvText[pos..])
      invariant |rowsAndCols| == |read|
      invariant forall i :: 0 <= i < |read| ==> rowsAndCols[i] == Row(read[i])
      decreases |csvText| - pos
    {
      var j := IndexOf(csvText[pos..], '\n');
      var line := csvText[pos..][..j];
      var next := if j == |csvText| - pos then |csvText| else pos + j + 1;
      LinesRead(csvText, read, pos, j, next);
      var row := ParseLine(line);
      rowsAndCols := rowsAndCols + [row];
      read := read + [line];
      pos := next;
    }
    assert Lines(csvText[pos..]) == [];
  }
}
